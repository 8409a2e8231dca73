/**
 Small inputs for the user/department report, stated for any users and
 departments of the right shape, and a few concrete instances of them.
 */
module Scenarios {
  import opened Text
  import opened Aggregation
  import opened Report

  /** A record holding just the two columns the pass reads. */
  function Rec(user: string, dept: string): Row {
    map[AssignedTo := user, Department := dept]
  }

  /** The two fields of such a record are read back, then stripped. */
  lemma ExtractRec(user: string, dept: string)
    ensures Extract(Rec(user, dept)) == Assignment(Trim(user), Trim(dept))
  {
    assert AssignedTo != Department by {
      assert AssignedTo[0] != Department[0];
    }
  }

  /** A user that is kept, written without surrounding blanks. */
  predicate PlainUser(user: string) {
    IsTrimmed(user) && user != "" && user !in Sentinels
  }

  /** Appending a kept record whose fields need no trimming. */
  lemma AppendKept(rows: seq<Row>, user: string, dept: string)
    requires PlainUser(user) && IsTrimmed(dept)
    ensures Aggregate(rows + [Rec(user, dept)]) == Aggregate(rows)[user := dept]
  {
    ExtractRec(user, dept);
    TrimOfTrimmed(user);
    TrimOfTrimmed(dept);
    AggregateSnoc(rows, Rec(user, dept));
  }

  /** Appending a record whose trimmed user is a sentinel. */
  lemma AppendDropped(rows: seq<Row>, user: string, dept: string)
    requires Trim(user) in Sentinels
    ensures Aggregate(rows + [Rec(user, dept)]) == Aggregate(rows)
  {
    ExtractRec(user, dept);
    SkippedRowAppended(rows, Rec(user, dept));
  }

  /** A single kept record gives a one-entry map. */
  lemma SingleKept(user: string, dept: string)
    requires PlainUser(user) && IsTrimmed(dept)
    ensures Aggregate([Rec(user, dept)]) == map[user := dept]
  {
    AppendKept([], user, dept);
    assert [] + [Rec(user, dept)] == [Rec(user, dept)];
  }

  /** Helper: AppendKept with the map built so far given by name, which
      keeps the solver's work small when the records are a display. */
  lemma AppendKeptDisplay(first: seq<Row>, user: string, dept: string, m: Users)
    requires PlainUser(user) && IsTrimmed(dept) && Aggregate(first) == m
    ensures Aggregate(first + [Rec(user, dept)]) == m[user := dept]
  {
    AppendKept(first, user, dept);
  }

  /** Helper: rewrites a display of records as the appends the lemmas
      above speak of; it states nothing about the report itself. */
  lemma PairAsAppend(rows: seq<Row>, r0: Row, r1: Row, m: Users)
    requires rows == [r0, r1] && Aggregate([r0] + [r1]) == m
    ensures Aggregate(rows) == m
  {
    assert [r0] + [r1] == [r0, r1];
  }

  /** Helper: the same for a display of three records. */
  lemma TripleAsAppend(rows: seq<Row>, r0: Row, r1: Row, r2: Row, m: Users)
    requires rows == [r0, r1, r2] && Aggregate([r0, r1] + [r2]) == m
    ensures Aggregate(rows) == m
  {
    assert [r0, r1] + [r2] == [r0, r1, r2];
  }

  /** A sentinel record between two users is dropped. */
  lemma SentinelBetweenUsers(a: string, da: string, s: string, ds: string, b: string, db: string)
    requires PlainUser(a) && PlainUser(b) && IsTrimmed(da) && IsTrimmed(db)
    requires Trim(s) in Sentinels
    ensures Aggregate([Rec(a, da), Rec(s, ds), Rec(b, db)]) == map[a := da, b := db]
  {
    SingleKept(a, da);
    AppendDropped([Rec(a, da)], s, ds);
    PairAsAppend([Rec(a, da), Rec(s, ds)], Rec(a, da), Rec(s, ds), map[a := da]);
    AppendKeptDisplay([Rec(a, da), Rec(s, ds)], b, db, map[a := da]);
    TripleAsAppend([Rec(a, da), Rec(s, ds), Rec(b, db)], Rec(a, da), Rec(s, ds), Rec(b, db),
                   map[a := da, b := db]);
  }

  /** ... and the two users are listed in order, one line each. */
  lemma SentinelBetweenUsersReport(a: string, da: string, s: string, ds: string, b: string, db: string,
                                   entries: seq<Entry>)
    requires PlainUser(a) && PlainUser(b) && IsTrimmed(da) && IsTrimmed(db)
    requires Trim(s) in Sentinels && Less(a, b)
    requires StrictlySorted(entries)
    requires ListsItems(entries, Aggregate([Rec(a, da), Rec(s, ds), Rec(b, db)]))
    ensures entries == [(a, da), (b, db)]
    ensures |entries| == 2 && FormatLine(entries[0]) == a + "," + da && FormatLine(entries[1]) == b + "," + db
  {
    SentinelBetweenUsers(a, da, s, ds, b, db);
    TwoUserListing(a, da, b, db, entries);
  }

  /** A two-user map has one sorted listing: the smaller user first. */
  lemma TwoUserListing(a: string, da: string, b: string, db: string, entries: seq<Entry>)
    requires Less(a, b)
    requires StrictlySorted(entries) && ListsItems(entries, map[a := da, b := db])
    ensures entries == [(a, da), (b, db)]
  {
    var m := map[a := da, b := db];
    LessIrreflexive(a);
    var expected := [(a, da), (b, db)];
    assert ListsItems(expected, m);
    ReportDeterministic(entries, expected, m);
  }

  /** Helper: writing a map key twice keeps only the second value. */
  lemma Overwrite(u: string, d1: string, d2: string)
    ensures map[u := d1][u := d2] == map[u := d2]
  {
  }

  /** The later department of a repeated user replaces the earlier one,
      and the user is listed once. */
  lemma RepeatedUserLastWins(a: string, d1: string, d2: string)
    requires PlainUser(a) && IsTrimmed(d1) && IsTrimmed(d2)
    ensures Aggregate([Rec(a, d1), Rec(a, d2)]) == map[a := d2]
  {
    SingleKept(a, d1);
    AppendKeptDisplay([Rec(a, d1)], a, d2, map[a := d1]);
    Overwrite(a, d1, d2);
    PairAsAppend([Rec(a, d1), Rec(a, d2)], Rec(a, d1), Rec(a, d2), map[a := d2]);
  }

  /** A user field holding only blanks is dropped. */
  lemma BlankUserDropped(rows: seq<Row>, blanks: string, dept: string)
    requires AllSpace(blanks)
    ensures Aggregate(rows + [Rec(blanks, dept)]) == Aggregate(rows)
  {
    TrimOfPadded(blanks, "", "");
    assert blanks + "" + "" == blanks;
    AppendDropped(rows, blanks, dept);
  }

  /** The names of the instance below have the shape the lemmas above ask for. */
  lemma AliceBobShapes()
    ensures PlainUser("Alice") && PlainUser("Bob") && Less("Alice", "Bob")
    ensures IsTrimmed("Eng") && IsTrimmed("Sales")
    ensures Trim("active") in Sentinels
  {
    TrimOfTrimmed("active");
  }

  /** Alice, a record with the sentinel user `active`, then Bob: only the
      two people are recorded. */
  lemma AliceActiveBob()
    ensures Aggregate([Rec("Alice", "Eng"), Rec("active", "X"), Rec("Bob", "Sales")])
            == map["Alice" := "Eng", "Bob" := "Sales"]
  {
    AliceBobShapes();
    SentinelBetweenUsers("Alice", "Eng", "active", "X", "Bob", "Sales");
  }

  /** ... and they print as two lines, Alice first. */
  lemma AliceActiveBobReport(entries: seq<Entry>)
    requires StrictlySorted(entries)
    requires ListsItems(entries, map["Alice" := "Eng", "Bob" := "Sales"])
    ensures entries == [("Alice", "Eng"), ("Bob", "Sales")]
  {
    AliceBobShapes();
    TwoUserListing("Alice", "Eng", "Bob", "Sales", entries);
  }

  /** Sentinels are matched exactly and case-sensitively: a record whose
      user is `Active` is kept, one whose user is `active` is dropped. */
  lemma CapitalisedSentinelsKept(d: string)
    requires IsTrimmed(d)
    ensures Aggregate([Rec("Active", d)]) == map["Active" := d]
    ensures Aggregate([Rec("RETIRED", d)]) == map["RETIRED" := d]
    ensures Aggregate([Rec("active", d)]) == map[]
  {
    assert PlainUser("Active") && PlainUser("RETIRED");
    SingleKept("Active", d);
    SingleKept("RETIRED", d);
    TrimOfTrimmed("active");
    AppendDropped([], "active", d);
    assert [] + [Rec("active", d)] == [Rec("active", d)];
  }

  /** Surrounding blanks are trimmed before the sentinel comparison. */
  lemma PaddedSentinelDropped(rows: seq<Row>, dept: string)
    ensures Aggregate(rows + [Rec(" broken\t", dept)]) == Aggregate(rows)
  {
    TrimOfPadded(" ", "broken", "\t");
    assert " " + "broken" + "\t" == " broken\t";
    AppendDropped(rows, " broken\t", dept);
  }
}
