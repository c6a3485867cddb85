/**
 * Findings and how files/PA2.java orders and groups them: RedundantLoadInfo
 * ordered by line, each method's list stably sorted, and the per-class,
 * per-method TreeMaps the report is printed from.
 */
module Results {
  import Strings

  datatype RedundantLoadInfo = RedundantLoadInfo(lineNumber: int, jimpleStmt: string, targetVar: string, replacementVar: string)

  /** compareTo: Integer.compare of the line numbers. */
  function CompareTo(a: RedundantLoadInfo, b: RedundantLoadInfo): (r: int)
    ensures -1 <= r <= 1
    ensures r < 0 <==> a.lineNumber < b.lineNumber
    ensures r == 0 <==> a.lineNumber == b.lineNumber
  {
    if a.lineNumber < b.lineNumber then -1 else if a.lineNumber == b.lineNumber then 0 else 1
  }

  /** The Comparable contract: sgn(a.compareTo(b)) == -sgn(b.compareTo(a)), and transitivity. */
  lemma CompareToIsTotalPreorder(a: RedundantLoadInfo, b: RedundantLoadInfo, c: RedundantLoadInfo)
    ensures CompareTo(a, b) == -CompareTo(b, a)
    ensures CompareTo(a, b) <= 0 && CompareTo(b, c) <= 0 ==> CompareTo(a, c) <= 0
  {
  }

  predicate SortedByLine(s: seq<RedundantLoadInfo>)
  {
    forall i, j :: 0 <= i < j < |s| ==> s[i].lineNumber <= s[j].lineNumber
  }

  /** The findings of s on one line, in their order in s. */
  function OnLine(s: seq<RedundantLoadInfo>, line: int): (r: seq<RedundantLoadInfo>)
    ensures |r| <= |s|
  {
    if s == [] then []
    else OnLine(s[..|s| - 1], line) + (if s[|s| - 1].lineNumber == line then [s[|s| - 1]] else [])
  }

  lemma {:induction false} OnLineAppend(s: seq<RedundantLoadInfo>, t: seq<RedundantLoadInfo>, line: int)
    ensures OnLine(s + t, line) == OnLine(s, line) + OnLine(t, line)
  {
    if t != [] {
      assert (s + t)[..|s + t| - 1] == s + t[..|t| - 1];
      OnLineAppend(s, t[..|t| - 1], line);
    } else {
      assert s + t == s;
    }
  }

  /** Puts x after every element whose line is not greater than its own. */
  function Insert(x: RedundantLoadInfo, s: seq<RedundantLoadInfo>): (r: seq<RedundantLoadInfo>)
    ensures |r| == |s| + 1
    ensures multiset(r) == multiset(s) + multiset{x}
  {
    if s == [] || s[|s| - 1].lineNumber <= x.lineNumber then s + [x]
    else
      assert s == s[..|s| - 1] + [s[|s| - 1]];
      Insert(x, s[..|s| - 1]) + [s[|s| - 1]]
  }

  lemma {:induction false} InsertSorted(x: RedundantLoadInfo, s: seq<RedundantLoadInfo>)
    requires SortedByLine(s)
    ensures SortedByLine(Insert(x, s))
  {
    if !(s == [] || s[|s| - 1].lineNumber <= x.lineNumber) {
      var init, last := s[..|s| - 1], s[|s| - 1];
      InsertSorted(x, init);
      var r := Insert(x, init) + [last];
      assert Insert(x, s) == r;
      forall i | 0 <= i < |r| - 1
        ensures r[i].lineNumber <= last.lineNumber
      {
        assert r[i] in multiset(Insert(x, init));
        if r[i] != x {
          assert r[i] in multiset(init);
          var k :| 0 <= k < |init| && init[k] == r[i];
          assert s[k] == init[k];
        }
      }
    }
  }

  lemma OnLineSnoc(s: seq<RedundantLoadInfo>, y: RedundantLoadInfo, line: int)
    ensures OnLine(s + [y], line) == OnLine(s, line) + (if y.lineNumber == line then [y] else [])
  {
    assert (s + [y])[..|s|] == s;
  }

  lemma {:induction false} InsertOnLine(x: RedundantLoadInfo, s: seq<RedundantLoadInfo>, line: int)
    ensures OnLine(Insert(x, s), line) == OnLine(s, line) + (if x.lineNumber == line then [x] else [])
  {
    if s == [] || s[|s| - 1].lineNumber <= x.lineNumber {
      OnLineSnoc(s, x, line);
    } else {
      var init, last := s[..|s| - 1], s[|s| - 1];
      assert s == init + [last];
      InsertOnLine(x, init, line);
      OnLineSnoc(Insert(x, init), last, line);
      OnLineSnoc(init, last, line);
      assert Insert(x, s) == Insert(x, init) + [last];
    }
  }

  /**
   * Collections.sort: a stable sort by compareTo, here an insertion sort.
   * Stability is stated as: the findings of every line keep their order.
   */
  function SortByLine(s: seq<RedundantLoadInfo>): (r: seq<RedundantLoadInfo>)
    ensures SortedByLine(r)
    ensures multiset(r) == multiset(s)
    ensures forall line :: OnLine(r, line) == OnLine(s, line)
  {
    if s == [] then []
    else
      var init := s[..|s| - 1];
      assert s == init + [s[|s| - 1]];
      var sortedInit := SortByLine(init);
      InsertSorted(s[|s| - 1], sortedInit);
      assert forall line :: OnLine(Insert(s[|s| - 1], sortedInit), line) == OnLine(s, line) by {
        forall line
          ensures OnLine(Insert(s[|s| - 1], sortedInit), line) == OnLine(s, line)
        {
          InsertOnLine(s[|s| - 1], sortedInit, line);
        }
      }
      Insert(s[|s| - 1], sortedInit)
  }

  /** A method of an application class as the driver sees it, with what analyzeMethod found in it. */
  datatype MethodInfo = MethodInfo(name: string, isConcrete: bool, hasBody: bool, redundantLoads: seq<RedundantLoadInfo>)

  datatype ClassInfo = ClassInfo(name: string, methods: seq<MethodInfo>)

  /** Constructors, static initialisers, abstract methods and methods without a body are skipped. */
  predicate IsAnalyzed(m: MethodInfo)
  {
    m.name != "<init>" && m.name != "<clinit>" && m.isConcrete && m.hasBody
  }

  type Report = map<string, map<string, seq<RedundantLoadInfo>>>

  /** One step of the driver: a method with findings is put under its class (putIfAbsent, then put). */
  function AddMethod(results: Report, className: string, m: MethodInfo): (r: Report)
  {
    if IsAnalyzed(m) && m.redundantLoads != [] then
      var inner := if className in results then results[className] else map[];
      results[className := inner[m.name := m.redundantLoads]]
    else results
  }

  function AddMethods(results: Report, className: string, methods: seq<MethodInfo>): Report
  {
    if methods == [] then results
    else AddMethod(AddMethods(results, className, methods[..|methods| - 1]), className, methods[|methods| - 1])
  }

  /** The report the driver builds from the classes in the order it visits them. */
  function Group(classes: seq<ClassInfo>): Report
  {
    if classes == [] then map[]
    else
      var c := classes[|classes| - 1];
      AddMethods(Group(classes[..|classes| - 1]), c.name, c.methods)
  }

  /** Only analysed methods with at least one finding appear, and no class without one. */
  ghost predicate WellFormed(results: Report)
  {
    forall c :: c in results ==>
      results[c] != map[] &&
      forall m :: m in results[c] ==> m != "<init>" && m != "<clinit>" && results[c][m] != []
  }

  /** Where a reported list comes from: an analysed method of that name in a class of that name. */
  ghost predicate Sourced(results: Report, classes: seq<ClassInfo>)
  {
    forall c, m :: c in results && m in results[c] ==>
      exists i, j ::
        && 0 <= i < |classes| && 0 <= j < |classes[i].methods|
        && classes[i].name == c && classes[i].methods[j].name == m && IsAnalyzed(classes[i].methods[j])
        && classes[i].methods[j].redundantLoads == results[c][m]
  }

  /** Every (class, method) entry of a report. */
  ghost predicate Includes(results: Report, c: string, m: string)
  {
    c in results && m in results[c]
  }

  lemma AddMethodWellFormed(prev: Report, className: string, m: MethodInfo)
    requires WellFormed(prev)
    ensures WellFormed(AddMethod(prev, className, m))
  {
    var r := AddMethod(prev, className, m);
    if IsAnalyzed(m) && m.redundantLoads != [] {
      forall c | c in r
        ensures r[c] != map[] && forall m' :: m' in r[c] ==> m' != "<init>" && m' != "<clinit>" && r[c][m'] != []
      {
        if c == className {
          assert m.name in r[c];
        } else {
          assert c in prev && r[c] == prev[c];
        }
      }
    }
  }

  lemma AddMethodSourced(prev: Report, classes: seq<ClassInfo>, n: nat, j: nat)
    requires n < |classes| && j < |classes[n].methods|
    requires Sourced(prev, classes)
    ensures Sourced(AddMethod(prev, classes[n].name, classes[n].methods[j]), classes)
  {
    var m := classes[n].methods[j];
    var r := AddMethod(prev, classes[n].name, m);
    if IsAnalyzed(m) && m.redundantLoads != [] {
      forall c, m' | c in r && m' in r[c]
        ensures exists i, j' ::
                  && 0 <= i < |classes| && 0 <= j' < |classes[i].methods|
                  && classes[i].name == c && classes[i].methods[j'].name == m' && IsAnalyzed(classes[i].methods[j'])
                  && classes[i].methods[j'].redundantLoads == r[c][m']
      {
        if c == classes[n].name && m' == m.name {
          assert classes[n].methods[j] == m;
        } else {
          assert c in prev && m' in prev[c] && r[c][m'] == prev[c][m'];
        }
      }
    }
  }

  lemma {:induction false} AddMethodsWellFormed(results: Report, className: string, methods: seq<MethodInfo>)
    requires WellFormed(results)
    ensures WellFormed(AddMethods(results, className, methods))
  {
    if methods != [] {
      AddMethodsWellFormed(results, className, methods[..|methods| - 1]);
      AddMethodWellFormed(AddMethods(results, className, methods[..|methods| - 1]), className, methods[|methods| - 1]);
    }
  }

  lemma {:induction false} AddMethodsSourced(results: Report, classes: seq<ClassInfo>, n: nat, k: nat)
    requires n < |classes| && k <= |classes[n].methods|
    requires Sourced(results, classes)
    ensures Sourced(AddMethods(results, classes[n].name, classes[n].methods[..k]), classes)
  {
    if k > 0 {
      var ms := classes[n].methods[..k];
      AddMethodsSourced(results, classes, n, k - 1);
      assert ms[..k - 1] == classes[n].methods[..k - 1];
      AddMethodSourced(AddMethods(results, classes[n].name, ms[..k - 1]), classes, n, k - 1);
      assert ms[k - 1] == classes[n].methods[k - 1];
    }
  }

  /** A later put never removes an entry. */
  lemma {:induction false} AddMethodsKeeps(results: Report, className: string, methods: seq<MethodInfo>, c: string, m: string)
    requires Includes(results, c, m)
    ensures Includes(AddMethods(results, className, methods), c, m)
  {
    if methods != [] {
      AddMethodsKeeps(results, className, methods[..|methods| - 1], c, m);
    }
  }

  /** An analysed method with findings ends up under its class. */
  lemma {:induction false} AddMethodsAdds(results: Report, className: string, methods: seq<MethodInfo>, j: nat)
    requires j < |methods| && IsAnalyzed(methods[j]) && methods[j].redundantLoads != []
    ensures Includes(AddMethods(results, className, methods), className, methods[j].name)
  {
    var init := methods[..|methods| - 1];
    if j < |methods| - 1 {
      assert init[j] == methods[j];
      AddMethodsAdds(results, className, init, j);
    }
  }

  lemma {:induction false} GroupWellFormed(classes: seq<ClassInfo>)
    ensures WellFormed(Group(classes))
  {
    if classes != [] {
      var init := classes[..|classes| - 1];
      GroupWellFormed(init);
      AddMethodsWellFormed(Group(init), classes[|classes| - 1].name, classes[|classes| - 1].methods);
    }
  }

  lemma SourcedExtends(results: Report, init: seq<ClassInfo>, classes: seq<ClassInfo>)
    requires |init| <= |classes| && init == classes[..|init|]
    requires Sourced(results, init)
    ensures Sourced(results, classes)
  {
    forall c, m | c in results && m in results[c]
      ensures exists i, j ::
                && 0 <= i < |classes| && 0 <= j < |classes[i].methods|
                && classes[i].name == c && classes[i].methods[j].name == m && IsAnalyzed(classes[i].methods[j])
                && classes[i].methods[j].redundantLoads == results[c][m]
    {
      var i, j :| 0 <= i < |init| && 0 <= j < |init[i].methods| &&
        init[i].name == c && init[i].methods[j].name == m && IsAnalyzed(init[i].methods[j]) &&
        init[i].methods[j].redundantLoads == results[c][m];
      assert classes[i] == init[i];
    }
  }

  lemma {:induction false} GroupSourced(classes: seq<ClassInfo>)
    ensures Sourced(Group(classes), classes)
  {
    if classes != [] {
      var n := |classes| - 1;
      var init := classes[..n];
      GroupSourced(init);
      SourcedExtends(Group(init), init, classes);
      AddMethodsSourced(Group(init), classes, n, |classes[n].methods|);
      assert classes[n].methods[..|classes[n].methods|] == classes[n].methods;
    }
  }

  lemma {:induction false} GroupComplete(classes: seq<ClassInfo>, i: nat, j: nat)
    requires i < |classes| && j < |classes[i].methods|
    requires IsAnalyzed(classes[i].methods[j]) && classes[i].methods[j].redundantLoads != []
    ensures Includes(Group(classes), classes[i].name, classes[i].methods[j].name)
  {
    var n := |classes| - 1;
    var init := classes[..n];
    if i == n {
      AddMethodsAdds(Group(init), classes[n].name, classes[n].methods, j);
    } else {
      assert classes[i] == init[i];
      GroupComplete(init, i, j);
      AddMethodsKeeps(Group(init), classes[n].name, classes[n].methods, classes[i].name, classes[i].methods[j].name);
    }
  }

  /** A method whose findings the driver puts into the report. */
  predicate Contributes(m: MethodInfo)
  {
    IsAnalyzed(m) && m.redundantLoads != []
  }

  /**
   * Method j of class i is the last method, in visit order, that puts findings under
   * its class name and method name: the report is keyed by the name alone, so a later
   * overload (or a later class of the same name) would overwrite its entry.
   */
  ghost predicate LastWriter(classes: seq<ClassInfo>, i: int, j: int)
  {
    && 0 <= i < |classes| && 0 <= j < |classes[i].methods| && Contributes(classes[i].methods[j])
    && (forall j' :: j < j' < |classes[i].methods| && Contributes(classes[i].methods[j'])
          ==> classes[i].methods[j'].name != classes[i].methods[j].name)
    && (forall i', j' :: i < i' < |classes| && 0 <= j' < |classes[i'].methods| && Contributes(classes[i'].methods[j'])
          ==> classes[i'].name != classes[i].name || classes[i'].methods[j'].name != classes[i].methods[j].name)
  }

  /** Puts of other names leave an entry as it was. */
  lemma {:induction false} AddMethodsPreserves(results: Report, className: string, methods: seq<MethodInfo>, c: string, m: string)
    requires Includes(results, c, m)
    requires forall j :: 0 <= j < |methods| && Contributes(methods[j]) ==> className != c || methods[j].name != m
    ensures Includes(AddMethods(results, className, methods), c, m)
    ensures AddMethods(results, className, methods)[c][m] == results[c][m]
  {
    if methods != [] {
      var init := methods[..|methods| - 1];
      assert forall j :: 0 <= j < |init| ==> init[j] == methods[j];
      AddMethodsPreserves(results, className, init, c, m);
    }
  }

  /** The entry for a method's name is the findings of the last method of that name put after it. */
  lemma {:induction false} AddMethodsLast(results: Report, className: string, methods: seq<MethodInfo>, j: nat)
    requires j < |methods| && Contributes(methods[j])
    requires forall j' :: j < j' < |methods| && Contributes(methods[j']) ==> methods[j'].name != methods[j].name
    ensures Includes(AddMethods(results, className, methods), className, methods[j].name)
    ensures AddMethods(results, className, methods)[className][methods[j].name] == methods[j].redundantLoads
  {
    var init := methods[..|methods| - 1];
    if j < |methods| - 1 {
      assert init[j] == methods[j];
      assert forall j' :: j < j' < |init| ==> init[j'] == methods[j'];
      AddMethodsLast(results, className, init, j);
      AddMethodsPreserves(AddMethods(results, className, init), className, [methods[|methods| - 1]], className, methods[j].name);
    }
  }

  /** The report's list for a (class, method) name pair is the findings of the last method put under it. */
  lemma {:induction false} GroupLast(classes: seq<ClassInfo>, i: nat, j: nat)
    requires LastWriter(classes, i, j)
    ensures Includes(Group(classes), classes[i].name, classes[i].methods[j].name)
    ensures Group(classes)[classes[i].name][classes[i].methods[j].name] == classes[i].methods[j].redundantLoads
  {
    var n := |classes| - 1;
    var init := classes[..n];
    if i == n {
      AddMethodsLast(Group(init), classes[n].name, classes[n].methods, j);
    } else {
      assert classes[i] == init[i];
      assert forall i' :: i < i' < |init| ==> init[i'] == classes[i'];
      assert LastWriter(init, i, j);
      GroupLast(init, i, j);
      AddMethodsPreserves(Group(init), classes[n].name, classes[n].methods, classes[i].name, classes[i].methods[j].name);
    }
  }

  /** Two overloads with findings in one class: only the second one's findings are reported. */
  lemma OverloadOverwritten(c: string, first: MethodInfo, second: MethodInfo)
    requires Contributes(first) && Contributes(second) && first.name == second.name
    ensures Group([ClassInfo(c, [first, second])])[c][first.name] == second.redundantLoads
  {
    var classes := [ClassInfo(c, [first, second])];
    assert LastWriter(classes, 0, 1);
    GroupLast(classes, 0, 1);
  }

  /** The driver's report holds only analysed methods with findings, each under its own class, and misses none. */
  lemma GroupProperties(classes: seq<ClassInfo>)
    ensures WellFormed(Group(classes)) && Sourced(Group(classes), classes)
    ensures forall i, j ::
              (&& 0 <= i < |classes| && 0 <= j < |classes[i].methods|
               && IsAnalyzed(classes[i].methods[j]) && classes[i].methods[j].redundantLoads != [])
              ==> classes[i].name in Group(classes) && classes[i].methods[j].name in Group(classes)[classes[i].name]
  {
    GroupWellFormed(classes);
    GroupSourced(classes);
    forall i, j | && 0 <= i < |classes| && 0 <= j < |classes[i].methods|
                  && IsAnalyzed(classes[i].methods[j]) && classes[i].methods[j].redundantLoads != []
      ensures classes[i].name in Group(classes) && classes[i].methods[j].name in Group(classes)[classes[i].name]
    {
      GroupComplete(classes, i, j);
    }
  }

  /** The main loop over classes and methods, building the report in place. */
  method CollectResults(classes: seq<ClassInfo>) returns (results: Report)
    ensures results == Group(classes)
  {
    results := map[];
    var i := 0;
    while i < |classes|
      invariant i <= |classes|
      invariant results == Group(classes[..i])
    {
      var className := classes[i].name;
      var methods := classes[i].methods;
      var j := 0;
      ghost var before := results;
      while j < |methods|
        invariant j <= |methods|
        invariant results == AddMethods(before, className, methods[..j])
      {
        var m := methods[j];
        ghost var prev := results;
        if IsAnalyzed(m) && m.redundantLoads != [] {
          if className !in results {
            results := results[className := map[]];
          }
          results := results[className := results[className][m.name := m.redundantLoads]];
        }
        assert results == AddMethod(prev, className, m);
        assert methods[..j + 1][..j] == methods[..j] && methods[..j + 1][j] == m;
        j := j + 1;
      }
      assert methods[..j] == methods;
      assert classes[..i + 1][..i] == classes[..i];
      i := i + 1;
    }
    assert classes[..i] == classes;
  }

  /** One printed finding: `line: descriptor target;`. */
  function LoadLine(l: RedundantLoadInfo): (s: string)
    ensures |s| == |Strings.IntToString(l.lineNumber)| + |l.jimpleStmt| + |l.targetVar| + 4
    ensures s[..|Strings.IntToString(l.lineNumber)|] == Strings.IntToString(l.lineNumber)
    ensures s[|Strings.IntToString(l.lineNumber)|..|Strings.IntToString(l.lineNumber)| + 2] == ": "
    ensures s[|Strings.IntToString(l.lineNumber)| + 2..|Strings.IntToString(l.lineNumber)| + 2 + |l.jimpleStmt|] == l.jimpleStmt
    ensures s[|s| - |l.targetVar| - 2] == ' ' && s[|s| - |l.targetVar| - 1..|s| - 1] == l.targetVar
    ensures s[|s| - 1] == ';'
  {
    Strings.IntToString(l.lineNumber) + ": " + l.jimpleStmt + " " + l.targetVar + ";"
  }

  lemma NumberTextHasNoColon(i: int, k: nat)
    requires k < |Strings.IntToString(i)|
    ensures Strings.IntToString(i)[k] != ':'
  {
  }

  /** The text before the first colon of a printed finding is its line number, so equal lines mean equal line numbers. */
  lemma LoadLineDeterminesLine(a: RedundantLoadInfo, b: RedundantLoadInfo)
    requires LoadLine(a) == LoadLine(b)
    ensures a.lineNumber == b.lineNumber
  {
    var s := LoadLine(a);
    var na, nb := Strings.IntToString(a.lineNumber), Strings.IntToString(b.lineNumber);
    if |na| < |nb| {
      NumberTextHasNoColon(b.lineNumber, |na|);
      assert false;
    } else if |nb| < |na| {
      NumberTextHasNoColon(a.lineNumber, |nb|);
      assert false;
    }
    assert na == s[..|na|] == nb;
    Strings.IntToStringInjective(a.lineNumber, b.lineNumber);
  }
}
