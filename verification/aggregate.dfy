/**
 The per-row pass of process_users.py: each CSV record is reduced to a
 trimmed (user, department) pair, records whose user is blank or a status
 sentinel are dropped, and the rest are folded into a user -> department
 map in which the last qualifying record for a user wins.
 */
module Aggregation {
  import opened Text

  /** One CSV record as the CSV reader delivers it: column name -> field. */
  type Row = map<string, string>

  /** The user/department map being built. */
  type Users = map<string, string>

  /** The two fields of a record the pass looks at, already trimmed. */
  datatype Assignment = Assignment(user: string, dept: string)

  const AssignedTo: string := "AssignedTo"
  const Department: string := "Department"

  /** The literal list the source tests the trimmed user against. */
  const Sentinels: seq<string> := ["", "active", "broken", "retired"]

  /** Field lookup with `""` for a column the record lacks. */
  function Field(row: Row, column: string): string {
    if column in row then row[column] else ""
  }

  /** The trimmed user and department of one record; a missing column
      reads as the empty string. */
  function Extract(row: Row): (a: Assignment)
    ensures IsTrimmed(a.user) && IsTrimmed(a.dept)
    ensures AssignedTo in row ==> a.user == Trim(row[AssignedTo])
    ensures Department in row ==> a.dept == Trim(row[Department])
    ensures AssignedTo !in row ==> a.user == ""
    ensures Department !in row ==> a.dept == ""
  {
    Assignment(Trim(Field(row, AssignedTo)), Trim(Field(row, Department)))
  }

  /** A record is kept when its trimmed user is non-empty and is none of
      the sentinels, compared exactly and case-sensitively. */
  predicate Qualifies(a: Assignment) {
    a.user != "" && a.user !in Sentinels
  }

  /** The loop body: store the pair, overwriting, when it qualifies. */
  function Record(users: Users, a: Assignment): (r: Users)
    ensures !Qualifies(a) ==> r == users
    ensures Qualifies(a) ==> r.Keys == users.Keys + {a.user} && r[a.user] == a.dept
    ensures forall u :: u in users && u != a.user ==> u in r && r[u] == users[u]
  {
    if Qualifies(a) then users[a.user := a.dept] else users
  }

  /** The map after recording a sequence of pairs in order. */
  function Fold(pairs: seq<Assignment>): Users {
    if |pairs| == 0 then map[]
    else Record(Fold(pairs[..|pairs| - 1]), pairs[|pairs| - 1])
  }

  /** `f` applied to every element of `s`, in order. */
  function MapSeq<A, B>(f: A -> B, s: seq<A>): (r: seq<B>)
    ensures |r| == |s|
    ensures forall i :: 0 <= i < |s| ==> r[i] == f(s[i])
  {
    seq(|s|, i requires 0 <= i < |s| => f(s[i]))
  }

  lemma MapSeqAppend<A, B>(f: A -> B, xs: seq<A>, ys: seq<A>)
    ensures MapSeq(f, xs + ys) == MapSeq(f, xs) + MapSeq(f, ys)
  {
    var l, a, b := MapSeq(f, xs + ys), MapSeq(f, xs), MapSeq(f, ys);
    forall i | 0 <= i < |l|
      ensures l[i] == (a + b)[i]
    {
      if i < |xs| {
        assert (xs + ys)[i] == xs[i];
      } else {
        assert (xs + ys)[i] == ys[i - |xs|];
      }
    }
  }

  /** The pairs of the records, in input order. */
  function Assignments(rows: seq<Row>): seq<Assignment> {
    MapSeq(Extract, rows)
  }

  /** The map after the whole input. */
  function Aggregate(rows: seq<Row>): Users {
    Fold(Assignments(rows))
  }

  /** Every key is a non-empty, trimmed, non-sentinel user; every value is
      a trimmed department. */
  predicate WellFormed(users: Users) {
    forall u :: u in users ==>
      u != "" && u !in Sentinels && IsTrimmed(u) && IsTrimmed(users[u])
  }

  /** Pair `i` is a qualifying pair for user `u`. */
  predicate Contributes(pairs: seq<Assignment>, i: int, u: string) {
    0 <= i < |pairs| && Qualifies(pairs[i]) && pairs[i].user == u
  }

  // ----- The fold over pairs -----

  lemma FoldSnoc(pairs: seq<Assignment>, a: Assignment)
    ensures Fold(pairs + [a]) == Record(Fold(pairs), a)
  {
    assert (pairs + [a])[..|pairs|] == pairs;
  }

  lemma {:induction false} FoldWellFormed(pairs: seq<Assignment>)
    requires forall i :: 0 <= i < |pairs| ==> IsTrimmed(pairs[i].user) && IsTrimmed(pairs[i].dept)
    ensures WellFormed(Fold(pairs))
  {
    if |pairs| > 0 {
      FoldWellFormed(pairs[..|pairs| - 1]);
    }
  }

  lemma {:induction false} FoldKeys(pairs: seq<Assignment>, u: string)
    ensures u in Fold(pairs) <==> exists i :: Contributes(pairs, i, u)
  {
    if |pairs| > 0 {
      var init := pairs[..|pairs| - 1];
      FoldKeys(init, u);
      if u in Fold(pairs) {
        if u in Fold(init) {
          var i :| Contributes(init, i, u);
          assert init[i] == pairs[i];
          assert Contributes(pairs, i, u);
        } else {
          assert Contributes(pairs, |pairs| - 1, u);
        }
      } else {
        forall i | 0 <= i < |pairs|
          ensures !Contributes(pairs, i, u)
        {
          if i < |pairs| - 1 {
            assert init[i] == pairs[i];
            assert !Contributes(init, i, u);
          }
        }
      }
    }
  }

  lemma {:induction false} FoldLastWins(pairs: seq<Assignment>, i: int, u: string)
    requires Contributes(pairs, i, u)
    requires forall j :: i < j < |pairs| ==> !Contributes(pairs, j, u)
    ensures u in Fold(pairs) && Fold(pairs)[u] == pairs[i].dept
  {
    var init := pairs[..|pairs| - 1];
    if i < |pairs| - 1 {
      assert init[i] == pairs[i];
      forall j | i < j < |init|
        ensures !Contributes(init, j, u)
      {
        assert init[j] == pairs[j];
        assert !Contributes(pairs, j, u);
      }
      FoldLastWins(init, i, u);
      assert !Contributes(pairs, |pairs| - 1, u);
    }
  }

  lemma {:induction false} FoldSkip(before: seq<Assignment>, a: Assignment, after: seq<Assignment>)
    requires !Qualifies(a)
    ensures Fold(before + [a] + after) == Fold(before + after)
  {
    if |after| == 0 {
      assert before + [a] + after == before + [a];
      assert before + after == before;
      FoldSnoc(before, a);
    } else {
      var rest, last := after[..|after| - 1], after[|after| - 1];
      FoldSkip(before, a, rest);
      SplitLast(before + [a], after);
      SplitLast(before, after);
      FoldSnoc(before + [a] + rest, last);
      FoldSnoc(before + rest, last);
    }
  }

  lemma SplitLast<T>(front: seq<T>, back: seq<T>)
    requires |back| > 0
    ensures front + back == (front + back[..|back| - 1]) + [back[|back| - 1]]
  {
    assert back == back[..|back| - 1] + [back[|back| - 1]];
  }

  // ----- The pass over records -----

  lemma AssignmentsAppend(xs: seq<Row>, ys: seq<Row>)
    ensures Assignments(xs + ys) == Assignments(xs) + Assignments(ys)
  {
    MapSeqAppend(Extract, xs, ys);
  }

  /** Processing one more record is one more loop step. */
  lemma AggregateSnoc(rows: seq<Row>, row: Row)
    ensures Aggregate(rows + [row]) == Record(Aggregate(rows), Extract(row))
  {
    AssignmentsAppend(rows, [row]);
    FoldSnoc(Assignments(rows), Extract(row));
  }

  /** The map only ever holds non-empty, trimmed, non-sentinel users with
      trimmed departments. */
  lemma AggregateWellFormed(rows: seq<Row>)
    ensures WellFormed(Aggregate(rows))
  {
    FoldWellFormed(Assignments(rows));
  }

  /** Record `i` is a qualifying record for user `u`. */
  predicate ContributesAt(rows: seq<Row>, i: int, u: string) {
    0 <= i < |rows| && Qualifies(Extract(rows[i])) && Extract(rows[i]).user == u
  }

  /** The keys are exactly the trimmed users of the qualifying records. */
  lemma KeysExactly(rows: seq<Row>, u: string)
    ensures u in Aggregate(rows) <==> exists i :: ContributesAt(rows, i, u)
  {
    var pairs := Assignments(rows);
    FoldKeys(pairs, u);
    if u in Aggregate(rows) {
      var i :| Contributes(pairs, i, u);
      assert ContributesAt(rows, i, u);
    }
    if i :| ContributesAt(rows, i, u) {
      assert Contributes(pairs, i, u);
    }
  }

  /** The distinct trimmed users of the qualifying records. */
  function QualifyingUsers(rows: seq<Row>): set<string> {
    set i | 0 <= i < |rows| && Qualifies(Extract(rows[i])) :: Extract(rows[i]).user
  }

  /** One map entry, and so one report line, per distinct qualifying user. */
  lemma KeySet(rows: seq<Row>)
    ensures Aggregate(rows).Keys == QualifyingUsers(rows)
    ensures |Aggregate(rows)| == |QualifyingUsers(rows)|
  {
    forall u
      ensures u in Aggregate(rows) <==> u in QualifyingUsers(rows)
    {
      KeysExactly(rows, u);
      if u in QualifyingUsers(rows) {
        var i :| 0 <= i < |rows| && Qualifies(Extract(rows[i])) && Extract(rows[i]).user == u;
        assert ContributesAt(rows, i, u);
      }
    }
  }

  /** Last write wins: the value for a user is the trimmed department of
      the last qualifying record for that user, whatever came before. */
  lemma LastWriteWins(rows: seq<Row>, i: int, u: string)
    requires ContributesAt(rows, i, u)
    requires forall j :: i < j < |rows| ==> !ContributesAt(rows, j, u)
    ensures u in Aggregate(rows) && Aggregate(rows)[u] == Extract(rows[i]).dept
  {
    var pairs := Assignments(rows);
    forall j | i < j < |pairs|
      ensures !Contributes(pairs, j, u)
    {
      assert !ContributesAt(rows, j, u);
    }
    FoldLastWins(pairs, i, u);
  }

  /** A dropped record appended to the input changes nothing. */
  lemma SkippedRowAppended(rows: seq<Row>, row: Row)
    requires !Qualifies(Extract(row))
    ensures Aggregate(rows + [row]) == Aggregate(rows)
  {
    AggregateSnoc(rows, row);
  }

  /** A dropped record changes nothing wherever it stands in the input. */
  lemma SkippedRowAnywhere(before: seq<Row>, row: Row, after: seq<Row>)
    requires !Qualifies(Extract(row))
    ensures Aggregate(before + [row] + after) == Aggregate(before + after)
  {
    AssignmentsAppend(before, [row]);
    assert Assignments([row]) == [Extract(row)];
    AssignmentsAppend(before + [row], after);
    AssignmentsAppend(before, after);
    FoldSkip(Assignments(before), Extract(row), Assignments(after));
  }

  /** A record without an `AssignedTo` column is dropped. */
  lemma MissingUserSkipped(rows: seq<Row>, row: Row)
    requires AssignedTo !in row
    ensures Aggregate(rows + [row]) == Aggregate(rows)
  {
    SkippedRowAppended(rows, row);
  }

  /** A qualifying record without a `Department` column records the
      empty department for its user. */
  lemma MissingDepartmentEmpty(rows: seq<Row>, row: Row)
    requires Qualifies(Extract(row)) && Department !in row
    ensures Extract(row).user in Aggregate(rows + [row])
    ensures Aggregate(rows + [row])[Extract(row).user] == ""
  {
    AggregateSnoc(rows, row);
  }

  /** Extending the processed prefix by one record is one loop step. */
  lemma AggregatePrefixStep(rows: seq<Row>, k: int)
    requires 0 <= k < |rows|
    ensures Aggregate(rows[..k + 1]) == Record(Aggregate(rows[..k]), Extract(rows[k]))
  {
    assert rows[..k + 1] == rows[..k] + [rows[k]];
    AggregateSnoc(rows[..k], rows[k]);
  }

  /** The source's loop, one record at a time into a mutable map. */
  method ProcessRows(rows: seq<Row>) returns (users: Users)
    ensures users == Aggregate(rows)
  {
    users := map[];
    var k := 0;
    while k < |rows|
      invariant 0 <= k <= |rows|
      invariant users == Aggregate(rows[..k])
    {
      AggregatePrefixStep(rows, k);
      var a := Extract(rows[k]);
      ghost var before := users;
      if Qualifies(a) {
        users := users[a.user := a.dept];
      }
      assert users == Record(before, a);
      k := k + 1;
    }
    assert rows[..k] == rows;
  }
}
