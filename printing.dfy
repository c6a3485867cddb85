/**
 * printResults of files/PA2.java: the report is printed class by class and
 * method by method in the TreeMaps' key order, a header line per method
 * followed by one line per finding.
 */
module Printing {
  import Strings
  import opened Results

  /** The (class, method) pairs of a report, in the order the TreeMaps enumerate them. */
  ghost function Entries(results: Report): seq<(string, string)>
  {
    EntriesOf(results, Strings.SortedKeys(results.Keys))
  }

  ghost function EntriesOf(results: Report, classNames: seq<string>): seq<(string, string)>
  {
    if classNames == [] then []
    else ClassEntries(results, classNames[0]) + EntriesOf(results, classNames[1..])
  }

  function Pairs(c: string, methods: seq<string>): (r: seq<(string, string)>)
    ensures |r| == |methods|
    ensures forall k :: 0 <= k < |r| ==> r[k] == (c, methods[k])
  {
    if methods == [] then [] else [(c, methods[0])] + Pairs(c, methods[1..])
  }

  /** The method names of one class, in ascending order. */
  ghost function MethodNames(results: Report, c: string): seq<string>
  {
    if c in results then Strings.SortedKeys(results[c].Keys) else []
  }

  ghost function ClassEntries(results: Report, c: string): seq<(string, string)>
  {
    Pairs(c, MethodNames(results, c))
  }

  lemma ClassEntriesProperties(results: Report, c: string)
    ensures var r := ClassEntries(results, c);
      && (forall k :: 0 <= k < |r| ==> r[k].0 == c)
      && (forall i, j :: 0 <= i < j < |r| ==> Strings.LexLess(r[i].1, r[j].1))
      && (forall p :: p in r <==> p.0 == c && c in results && p.1 in results[c])
  {
    var methods := MethodNames(results, c);
    var r := ClassEntries(results, c);
    forall p
      ensures p in r <==> p.0 == c && c in results && p.1 in results[c]
    {
      if p in r {
        var j :| 0 <= j < |r| && r[j] == p;
        assert methods[j] in methods;
      }
      if p.0 == c && c in results && p.1 in results[c] {
        assert p.1 in methods;
        var j :| 0 <= j < |methods| && methods[j] == p.1;
        assert r[j] == p;
      }
    }
  }

  /** (c1, m1) comes before (c2, m2): by class name, then by method name. */
  predicate EntryLess(a: (string, string), b: (string, string))
  {
    Strings.LexLess(a.0, b.0) || (a.0 == b.0 && Strings.LexLess(a.1, b.1))
  }

  lemma {:induction false} EntriesOfMembers(results: Report, classNames: seq<string>)
    ensures forall p :: p in EntriesOf(results, classNames) <==> p.0 in classNames && p.0 in results && p.1 in results[p.0]
  {
    if classNames != [] {
      ClassEntriesProperties(results, classNames[0]);
      EntriesOfMembers(results, classNames[1..]);
      assert forall x :: x in classNames <==> x == classNames[0] || x in classNames[1..];
    }
  }

  ghost predicate Ascending(e: seq<(string, string)>)
  {
    forall i, j :: 0 <= i < j < |e| ==> EntryLess(e[i], e[j])
  }

  lemma AscendingConcat(head: seq<(string, string)>, rest: seq<(string, string)>, c: string)
    requires Ascending(head) && Ascending(rest)
    requires forall k :: 0 <= k < |head| ==> head[k].0 == c
    requires forall k :: 0 <= k < |rest| ==> Strings.LexLess(c, rest[k].0)
    ensures Ascending(head + rest)
  {
    var e := head + rest;
    forall i, j | 0 <= i < j < |e|
      ensures EntryLess(e[i], e[j])
    {
      if j >= |head| && i < |head| {
        assert e[j] == rest[j - |head|];
      } else if i >= |head| {
        assert e[i] == rest[i - |head|] && e[j] == rest[j - |head|];
      }
    }
  }

  lemma {:induction false} EntriesOfOrdered(results: Report, classNames: seq<string>)
    requires forall i, j :: 0 <= i < j < |classNames| ==> Strings.LexLess(classNames[i], classNames[j])
    ensures Ascending(EntriesOf(results, classNames))
  {
    if classNames != [] {
      var c := classNames[0];
      var head := ClassEntries(results, c);
      ClassEntriesProperties(results, c);
      var rest := EntriesOf(results, classNames[1..]);
      EntriesOfOrdered(results, classNames[1..]);
      EntriesOfMembers(results, classNames[1..]);
      forall k | 0 <= k < |rest|
        ensures Strings.LexLess(c, rest[k].0)
      {
        assert rest[k] in rest;
        var n :| 0 <= n < |classNames[1..]| && classNames[1..][n] == rest[k].0;
        assert classNames[n + 1] == rest[k].0;
      }
      AscendingConcat(head, rest, c);
    }
  }

  /** printResults enumerates classes, and methods within a class, in ascending lexicographic order, each once. */
  lemma EntriesAreOrdered(results: Report)
    ensures Ascending(Entries(results))
    ensures forall p :: p in Entries(results) <==> p.0 in results && p.1 in results[p.0]
  {
    EntriesOfMembers(results, Strings.SortedKeys(results.Keys));
    EntriesOfOrdered(results, Strings.SortedKeys(results.Keys));
  }

  /** printResults: a header `class: method` for every entry, then its findings. */
  ghost function Printed(results: Report): seq<string>
  {
    PrintedOf(results, Entries(results))
  }

  /** The findings stored for an entry (none for a pair the report does not hold). */
  ghost function LoadsOf(results: Report, e: (string, string)): seq<RedundantLoadInfo>
  {
    if e.0 in results && e.1 in results[e.0] then results[e.0][e.1] else []
  }

  /** What printResults writes for one entry: its header, then one line per finding, in list order. */
  ghost function Block(results: Report, e: (string, string)): (b: seq<string>)
    ensures |b| == 1 + |LoadsOf(results, e)| && b[0] == e.0 + ": " + e.1
  {
    var loads := LoadsOf(results, e);
    [e.0 + ": " + e.1] + seq(|loads|, j requires 0 <= j < |loads| => LoadLine(loads[j]))
  }

  /** After its header, a block holds the entry's findings as printed lines, one each, in list order. */
  lemma BlockLines(results: Report, e: (string, string))
    ensures forall j :: 0 <= j < |LoadsOf(results, e)| ==> Block(results, e)[1 + j] == LoadLine(LoadsOf(results, e)[j])
  {
  }

  ghost function PrintedOf(results: Report, entries: seq<(string, string)>): seq<string>
  {
    if entries == [] then [] else Block(results, entries[0]) + PrintedOf(results, entries[1..])
  }

  /** How many lines the entries before the k-th one take. */
  ghost function LinesBefore(results: Report, entries: seq<(string, string)>, k: nat): nat
    requires k <= |entries|
  {
    if k == 0 then 0 else 1 + |LoadsOf(results, entries[0])| + LinesBefore(results, entries[1..], k - 1)
  }

  lemma {:induction false} LinesBeforeStep(results: Report, entries: seq<(string, string)>, k: nat)
    requires k < |entries|
    ensures LinesBefore(results, entries, k + 1) == LinesBefore(results, entries, k) + 1 + |LoadsOf(results, entries[k])|
  {
    if k > 0 {
      assert entries[1..][k - 1] == entries[k];
      LinesBeforeStep(results, entries[1..], k - 1);
    }
  }

  lemma BlockHasLoad(results: Report, e: (string, string), l: RedundantLoadInfo)
    requires l in LoadsOf(results, e)
    ensures LoadLine(l) in Block(results, e)
  {
    var j :| 0 <= j < |LoadsOf(results, e)| && LoadsOf(results, e)[j] == l;
    BlockLines(results, e);
    assert Block(results, e)[1 + j] == LoadLine(l);
  }

  /** The printed lines are the entries' blocks and nothing more. */
  lemma {:induction false} PrintedOfLength(results: Report, entries: seq<(string, string)>)
    ensures |PrintedOf(results, entries)| == LinesBefore(results, entries, |entries|)
  {
    if entries != [] {
      PrintedOfLength(results, entries[1..]);
    }
  }

  lemma PrefixSlice(front: seq<string>, rest: seq<string>)
    ensures (front + rest)[0..|front|] == front
  {
    assert forall x :: 0 <= x < |front| ==> (front + rest)[0..|front|][x] == front[x];
  }

  lemma SliceShift(front: seq<string>, rest: seq<string>, lo: nat, hi: nat)
    requires lo <= hi <= |rest|
    ensures (front + rest)[|front| + lo..|front| + hi] == rest[lo..hi]
  {
    assert forall x :: 0 <= x < hi - lo ==> (front + rest)[|front| + lo..|front| + hi][x] == rest[lo..hi][x];
  }

  /**
   * Entry k's block sits right after the blocks of the entries before it, so
   * the printed lines are the blocks back to back, in the order of the entries.
   */
  lemma {:induction false} PrintedOfLayout(results: Report, entries: seq<(string, string)>, k: nat)
    requires k < |entries|
    ensures LinesBefore(results, entries, k + 1) == LinesBefore(results, entries, k) + |Block(results, entries[k])|
    ensures LinesBefore(results, entries, k + 1) <= |PrintedOf(results, entries)|
    ensures PrintedOf(results, entries)[LinesBefore(results, entries, k)..LinesBefore(results, entries, k + 1)]
            == Block(results, entries[k])
  {
    LinesBeforeStep(results, entries, k);
    PrintedOfLength(results, entries);
    var front, rest := Block(results, entries[0]), PrintedOf(results, entries[1..]);
    assert PrintedOf(results, entries) == front + rest;
    if k == 0 {
      PrefixSlice(front, rest);
    } else {
      assert entries[1..][k - 1] == entries[k];
      PrintedOfLayout(results, entries[1..], k - 1);
      SliceShift(front, rest, LinesBefore(results, entries[1..], k - 1), LinesBefore(results, entries[1..], k));
    }
  }

  /**
   * printResults' output is the blocks of the report's entries back to back, in
   * ascending (class, method) order, with no other line: entry k's block is
   * followed directly by entry k + 1's, and the last one ends the output.
   */
  lemma PrintedLayout(results: Report, k: nat)
    requires k < |Entries(results)|
    ensures |Printed(results)| == LinesBefore(results, Entries(results), |Entries(results)|)
    ensures LinesBefore(results, Entries(results), k) < LinesBefore(results, Entries(results), k + 1) <= |Printed(results)|
    ensures Printed(results)[LinesBefore(results, Entries(results), k)..LinesBefore(results, Entries(results), k + 1)]
            == Block(results, Entries(results)[k])
  {
    PrintedOfLength(results, Entries(results));
    PrintedOfLayout(results, Entries(results), k);
  }

  /** The k-th entry's header and every one of its findings are among the printed lines. */
  lemma {:induction false} PrintedOfShows(results: Report, entries: seq<(string, string)>, k: nat)
    requires k < |entries| && entries[k].0 in results && entries[k].1 in results[entries[k].0]
    ensures entries[k].0 + ": " + entries[k].1 in PrintedOf(results, entries)
    ensures forall l :: l in results[entries[k].0][entries[k].1] ==> LoadLine(l) in PrintedOf(results, entries)
  {
    var front, rest := Block(results, entries[0]), PrintedOf(results, entries[1..]);
    assert PrintedOf(results, entries) == front + rest;
    if k == 0 {
      assert front[0] in front;
      forall l | l in LoadsOf(results, entries[0])
        ensures LoadLine(l) in front
      {
        BlockHasLoad(results, entries[0], l);
      }
    } else {
      assert entries[1..][k - 1] == entries[k];
      PrintedOfShows(results, entries[1..], k - 1);
    }
  }

  /** printResults writes a header for every (class, method) of the report and a line for each of its findings. */
  lemma PrintedShowsReport(results: Report, c: string, m: string)
    requires c in results && m in results[c]
    ensures c + ": " + m in Printed(results)
    ensures forall l :: l in results[c][m] ==> LoadLine(l) in Printed(results)
  {
    EntriesAreOrdered(results);
    var entries := Entries(results);
    assert (c, m) in entries;
    var k :| 0 <= k < |entries| && entries[k] == (c, m);
    PrintedOfShows(results, entries, k);
  }
}
