/**
 The reporting half of process_users.py: the entries of the finished
 user -> department map in ascending user order, each printed as the
 line `user,dept`.
 */
module Report {
  import opened Text
  import opened Aggregation

  /** One `(user, department)` item of the map. */
  type Entry = (string, string)

  /** Users strictly ascend along the sequence (so none repeats). */
  predicate StrictlySorted(es: seq<Entry>) {
    forall i, j :: 0 <= i < j < |es| ==> Less(es[i].0, es[j].0)
  }

  /** The sequence holds exactly the items of `m`. */
  predicate ListsItems(es: seq<Entry>, m: Users) {
    && (forall i :: 0 <= i < |es| ==> es[i].0 in m && m[es[i].0] == es[i].1)
    && (forall u :: u in m ==> (u, m[u]) in es)
  }

  /** Inserts `e`, whose user is not yet present, into a strictly sorted
      sequence, keeping it strictly sorted. */
  function Insert(es: seq<Entry>, e: Entry): (r: seq<Entry>)
    requires StrictlySorted(es)
    requires forall i :: 0 <= i < |es| ==> es[i].0 != e.0
    ensures StrictlySorted(r)
    ensures |r| == |es| + 1
    ensures forall x :: x in r <==> x in es || x == e
  {
    if |es| == 0 || Less(e.0, es[0].0) then
      var r := [e] + es;
      assert StrictlySorted(r) by {
        forall j | 0 <= j < |es|
          ensures Less(e.0, es[j].0)
        {
          if j > 0 {
            LessTransitive(e.0, es[0].0, es[j].0);
          }
        }
        forall i, j | 0 <= i < j < |r|
          ensures Less(r[i].0, r[j].0)
        {
          assert r[j] == es[j - 1];
          if i > 0 {
            assert r[i] == es[i - 1];
          }
        }
      }
      r
    else
      var rest := Insert(es[1..], e);
      LessTotal(e.0, es[0].0);
      assert StrictlySorted([es[0]] + rest) by {
        forall j | 0 <= j < |rest|
          ensures Less(es[0].0, rest[j].0)
        {
          assert rest[j] in rest;
        }
      }
      [es[0]] + rest
  }

  /** Python's `sorted(users.items())`: the items of the map in ascending
      user order. The keys of a map are distinct, so the department never
      takes part in the comparison. */
  method SortedEntries(m: Users) returns (es: seq<Entry>)
    ensures StrictlySorted(es)
    ensures ListsItems(es, m)
    ensures |es| == |m|
  {
    es := [];
    var pending := m.Keys;
    while pending != {}
      invariant pending <= m.Keys
      invariant StrictlySorted(es)
      invariant forall e :: e in es <==> e.0 in m.Keys - pending && m[e.0] == e.1
      invariant |es| + |pending| == |m|
      decreases pending
    {
      var k :| k in pending;
      forall i | 0 <= i < |es|
        ensures es[i].0 != k
      {
        assert es[i] in es;
      }
      es := Insert(es, (k, m[k]));
      pending := pending - {k};
    }
  }

  /** Strict order leaves no room for a repeated user. */
  lemma {:induction false} SortedUsersDistinct(es: seq<Entry>, i: int, j: int)
    requires StrictlySorted(es)
    requires 0 <= i < |es| && 0 <= j < |es| && i != j
    ensures es[i].0 != es[j].0
  {
    if i < j {
      LessIrreflexive(es[i].0);
    } else {
      LessIrreflexive(es[j].0);
    }
  }

  /** There is only one strictly sorted listing of a given set of entries,
      so the report does not depend on how the map is traversed. */
  lemma {:induction false} SortedUnique(a: seq<Entry>, b: seq<Entry>)
    requires StrictlySorted(a) && StrictlySorted(b)
    requires forall e :: e in a <==> e in b
    ensures a == b
  {
    if |a| > 0 {
      assert a[0] in a;
      assert |b| > 0;
      assert b[0] in b;
      var k :| 0 <= k < |b| && b[k] == a[0];
      var j :| 0 <= j < |a| && a[j] == b[0];
      if k > 0 {
        if j > 0 {
          LessAsymmetric(a[0].0, a[j].0);
        } else {
          LessIrreflexive(b[0].0);
        }
        assert false;
      }
      forall e
        ensures e in a[1..] <==> e in b[1..]
      {
        if e in a[1..] {
          TailMember(a, b, e);
        }
        if e in b[1..] {
          TailMember(b, a, e);
        }
      }
      SortedUnique(a[1..], b[1..]);
      assert a == [a[0]] + a[1..] && b == [b[0]] + b[1..];
    }
  }

  /** Helper for SortedUnique: once two sorted listings agree on their
      first entry, an entry after it in one is after it in the other. */
  lemma TailMember(a: seq<Entry>, b: seq<Entry>, e: Entry)
    requires StrictlySorted(a) && StrictlySorted(b)
    requires forall x :: x in a <==> x in b
    requires |a| > 0 && |b| > 0 && a[0] == b[0]
    requires e in a[1..]
    ensures e in b[1..]
  {
    var p :| 0 <= p < |a| - 1 && a[1..][p] == e;
    assert a[p + 1] == e;
    LessIrreflexive(a[0].0);
    assert e != a[0];
    assert e in a;
    var q :| 0 <= q < |b| && b[q] == e;
    assert q != 0;
    assert b[1..][q - 1] == e;
  }

  /** Two sorted listings of the same map are the same listing, so the
      report is a function of the input alone. */
  lemma ReportDeterministic(a: seq<Entry>, b: seq<Entry>, m: Users)
    requires StrictlySorted(a) && ListsItems(a, m)
    requires StrictlySorted(b) && ListsItems(b, m)
    ensures a == b
  {
    forall e
      ensures e in a <==> e in b
    {
      if e in a {
        var i :| 0 <= i < |a| && a[i] == e;
      }
      if e in b {
        var i :| 0 <= i < |b| && b[i] == e;
      }
    }
    SortedUnique(a, b);
  }

  /** One output line: the user, a comma, the department, nothing quoted. */
  function FormatLine(e: Entry): (line: string)
    ensures |line| == |e.0| + 1 + |e.1|
    ensures line[..|e.0|] == e.0 && line[|e.0|] == ',' && line[|e.0| + 1..] == e.1
  {
    e.0 + "," + e.1
  }

  /** Splits a line at its first comma. */
  function SplitAtFirstComma(line: string): (r: Entry)
    ensures ',' !in r.0
    ensures r.0 == line ==> r.1 == ""
    ensures r.0 != line ==> line == r.0 + "," + r.1
  {
    if |line| == 0 then ("", "")
    else if line[0] == ',' then ("", line[1..])
    else
      var rest := SplitAtFirstComma(line[1..]);
      assert line == [line[0]] + line[1..];
      ([line[0]] + rest.0, rest.1)
  }

  /** A line can be read back as long as the user holds no comma; the
      department may hold any text, commas included. */
  lemma {:induction false} FormatLineSplits(e: Entry)
    requires ',' !in e.0
    ensures SplitAtFirstComma(FormatLine(e)) == e
    decreases |e.0|
  {
    var line := FormatLine(e);
    if |e.0| > 0 {
      var tail := (e.0[1..], e.1);
      assert e.0[0] in e.0;
      FormatLineSplits(tail);
      assert line[1..] == FormatLine(tail);
      assert e.0 == [e.0[0]] + e.0[1..];
    } else {
      assert line == "," + e.1;
    }
  }

  /** Without quoting, two different entries can print the same line. */
  lemma FormatLineAmbiguous()
    ensures FormatLine(("a,b", "c")) == FormatLine(("a", "b,c"))
  {
  }

  /** The whole pass: aggregate the records, sort the map's items, print
      one line per distinct qualifying user. */
  method Run(rows: seq<Row>) returns (entries: seq<Entry>, lines: seq<string>)
    ensures StrictlySorted(entries)
    ensures ListsItems(entries, Aggregate(rows))
    ensures |lines| == |entries| == |Aggregate(rows)|
    ensures forall i :: 0 <= i < |lines| ==> lines[i] == FormatLine(entries[i])
  {
    var users := ProcessRows(rows);
    entries := SortedEntries(users);
    lines := FormatLines(entries);
  }

  /** The print loop: one formatted line per entry, in order. */
  method FormatLines(entries: seq<Entry>) returns (lines: seq<string>)
    ensures |lines| == |entries|
    ensures forall i :: 0 <= i < |lines| ==> lines[i] == FormatLine(entries[i])
  {
    lines := [];
    var i := 0;
    while i < |entries|
      invariant 0 <= i <= |entries|
      invariant |lines| == i
      invariant forall k :: 0 <= k < i ==> lines[k] == FormatLine(entries[k])
    {
      lines := lines + [FormatLine(entries[i])];
      i := i + 1;
    }
  }
}
