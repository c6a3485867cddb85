# Redundant field loads over Jimple: a Dafny model

This project models the core of a Soot-based detector of redundant field
loads in Java methods. For every method of every application class, the
detector does three things:

- It runs an intraprocedural points-to analysis. This is a may-analysis
  that maps each Jimple value to a set of abstract objects, named `O<line>`
  or `UNKNOWN`.
- It runs an available-loads analysis. This is a must-analysis over
  (base, field, target) facts. A write to `o.f` kills every fact on `f`
  whose base may alias `o`. A call kills everything.
- It reports every field read `x = o.f` for which a fact on the same field
  is available, either on the same base or on a base whose points-to set
  meets that of `o`.

The findings are sorted by line and grouped per class and per method in
sorted maps. The maps are keyed by names: when two overloads of a method
both have findings, the one visited later replaces the earlier one's list,
and the earlier findings are not printed (`Results.GroupLast`,
`Results.OverloadOverwritten`). A second, syntactic variant of the available-loads analysis
(`AvailableFieldLoadAnalysis` with its own `FieldLoad`) matches bases by
name only and propagates facts through local copies. It is modelled too.

The model is organised as follows:

- `jimple.dfy`: the slice of Jimple the analyses inspect. `Value` and
  `Stmt` carry exactly the `instanceof` distinctions the code makes.
- `dataflow.dfy`: the forward-flow framework, stated as the equations its
  fixed point satisfies. The in-flow of a unit merges the entry flow (when
  the unit is a head) and then its predecessors' out-flows, in order.
- `points_to.dfy`: the points-to transfer, merge, copy and snapshot query.
  It has a `PointsToAnalysis` class whose methods update the snapshot table
  in place.
- `available_loads.dfy`: facts under (base, field) equality, as a map from
  (base, field) to the target of the first load. It also holds the kill,
  gen and merge equations, the fixed point, and an `AvailableLoadsAnalysis`
  class.
- `detector.dfy`: the loop of `analyzeMethod` over converged flows.
- `results.dfy` and `printing.dfy`: `compareTo`, the stable sort, the
  per-class/per-method report and the order in which it is printed.
- `field_load.dfy` and `available_field_loads.dfy`: the syntactic variant.
- `straight_line.dfy`, `write_kills_scenario.dfy` and
  `aliasing_scenario.dfy` run the two test methods through the fixed-point
  equations. They prove exactly which findings come out.

## Model

| member | source | states |
|---|---|---|
| Jimple.ContainsInvokeExpr | files/PA2.java:389 | `containsInvokeExpr`: an invoke statement or an assignment from a call; what it makes both analyses do is stated by `AvailableLoads.InvokeKillsAll` and `AvailableFieldLoads.InvokeKillsAll` |
| Jimple.IsFieldLoad | files/PA2.java:150-156 | `isFieldLoad`: an assignment whose right side is an instance field reference; the detector reports only such units (`Detector.ReportedUnitsExact`) |
| Jimple.FieldRefText | files/PA2.java:128-130 | the descriptor of a field read; its pieces are stated by `Jimple.FieldRefTextParts` |
| Jimple.FieldRefTextParts | files/PA2.java:128-130 | the descriptor is, piece by piece, the base, `.<`, the declaring class, `: `, the field type, a space, the field name, and `>` |
| PointsTo.Lookup | files/PA2.java:270 | a value the map does not hold points nowhere; used by `PointsTo.TransferCopy` and `PointsTo.JoinAllLookup` |
| PointsTo.AllocSite | files/PA2.java:264 | the name of an allocation starts with `O` and is never `UNKNOWN` |
| PointsTo.AllocSitesDistinct | files/PA2.java:264 | allocations on different lines get different names |
| PointsTo.Transfer | files/PA2.java:249-283 | only an assignment can change the flow; only its left operand can gain a key or a new set; every other key keeps its set |
| PointsTo.TransferNew | files/PA2.java:261-266 | `x = new T` maps x to exactly the allocation's name |
| PointsTo.SameLineAllocationsShareObject | files/PA2.java:264 | two allocations on one line yield the same abstract object, whatever the flows |
| PointsTo.TransferCopy | files/PA2.java:268-271 | `lhs = y` maps lhs to y's set, or to the empty set when y is unknown |
| PointsTo.TransferFieldRead | files/PA2.java:273-281 | `x = o.f` maps x to exactly `{UNKNOWN}` |
| PointsTo.TransferIdentity | files/PA2.java:256-283 | any other statement leaves the flow unchanged |
| PointsTo.Join | files/PA2.java:300-318 | the merged keys are the union of both key sets; every set is the union of both sides' sets |
| PointsTo.JoinCommutative | files/PA2.java:300-318 | merge does not depend on the order of its inputs |
| PointsTo.JoinIdempotent | files/PA2.java:300-318 | merging a flow with itself gives that flow |
| PointsTo.JoinAssociative | files/PA2.java:300-318 | the order in which several predecessors are merged does not matter |
| PointsTo.JoinUpperBound | files/PA2.java:308-317 | neither side loses an object in the merge |
| PointsTo.JoinAll | files/PA2.java:300-318 | the in-flow of a unit with several sources: the first, with each further one merged in; its meaning is stated by `PointsTo.JoinAllLookup` |
| PointsTo.JoinAllLookup | files/PA2.java:300-318 | after merging all sources, v may point to o iff some source says so |
| PointsTo.IsSolution | files/PA2.java:289-318 | the converged analysis: empty entry and initial flows, each in-flow the merge of its sources, each out-flow the transfer of its in-flow; `PointsTo.SolutionCoversPredecessors` states what follows |
| PointsTo.SolutionCoversPredecessors | files/PA2.java:300-318 | at the fixed point, each unit's in-flow contains every predecessor's out-flow |
| PointsTo.Snapshot | files/PA2.java:328-333 | the table entry for a unit, or the empty map; `PointsTo.PointsToAt` and `PointsTo.PointsToAnalysis.GetPointsToSet` state the lookup built on it |
| PointsTo.PointsToAt | files/PA2.java:328-334 | the set stored for v at unit u, or empty when either is missing |
| PointsTo.PointsToAnalysis.constructor | files/PA2.java:241-246 | an analysis over the body starts with an empty snapshot table |
| PointsTo.PointsToAnalysis.FlowThrough | files/PA2.java:249-287 | the out-flow is the transfer of the in-flow, and it is stored as the unit's snapshot with nothing else in the table changed |
| PointsTo.PointsToAnalysis.Merge | files/PA2.java:300-318 | the key-by-key loop computes exactly the pointwise union |
| PointsTo.PointsToAnalysis.Copy | files/PA2.java:321-326 | the entry-by-entry copy equals its source |
| PointsTo.PointsToAnalysis.GetPointsToSet | files/PA2.java:328-334 | returns the stored set when unit and value are known, the empty set otherwise |
| AvailableLoads.FieldLoad.HashCode | files/PA2.java:224-226 | `Objects.hash(base, field)` in 32-bit int arithmetic: in int range, congruent to `961 + 31*h(base) + h(field)` |
| AvailableLoads.FieldLoad.ToString | files/PA2.java:229-231 | `base.name -> target`, piece by piece: the base, a dot, the field name, ` -> `, the target |
| AvailableLoads.EqualsIgnoresTarget | files/PA2.java:217-221 | two loads are equal iff base and field agree; the target is ignored |
| AvailableLoads.EqualsConsistentWithHashCode | files/PA2.java:217-226 | equal loads have equal hash codes |
| AvailableLoads.Transfer | files/PA2.java:349-392 | flowThrough as an equation; its cases are stated by `AvailableLoads.InvokeKillsAll`, `AvailableLoads.WriteKillsMayAliases`, `AvailableLoads.WriteThroughUntrackedBaseKillsNothing`, `AvailableLoads.ReadGeneratesFact`, `AvailableLoads.PlainAssignmentKeepsFacts` and `AvailableLoads.WriteSparesOtherFields` |
| AvailableLoads.Kill | files/PA2.java:361-372 | exactly the facts on the written field whose base's points-to set meets the written base's are removed; the rest keep their targets |
| AvailableLoads.Gen | files/PA2.java:376-385 | the read's (base, field) is added; a fact already there keeps its target, as with `HashSet.add` |
| AvailableLoads.InvokeKillsAll | files/PA2.java:389-391 | after a statement containing a call, nothing is available |
| AvailableLoads.WriteKillsMayAliases | files/PA2.java:361-372 | the facts after `o.f = e` are exactly those before, minus the may-aliasing facts on f, with unchanged targets |
| AvailableLoads.WriteThroughUntrackedBaseKillsNothing | files/PA2.java:365-372 | a write through a base with an empty points-to set kills no fact, not even one on that very base |
| AvailableLoads.ReadGeneratesFact | files/PA2.java:376-385 | after `x = o.f` the key set grows by (o, f) only; its target is x unless a fact was already there |
| AvailableLoads.PlainAssignmentKeepsFacts | files/PA2.java:349-392 | an assignment without a field reference or call keeps every fact, even one whose base or target it overwrites |
| AvailableLoads.WriteSparesOtherFields | files/PA2.java:368-372 | a write never removes a fact on another field |
| AvailableLoads.Meet | files/PA2.java:405-410 | keys are the intersection; targets come from the first flow |
| AvailableLoads.MeetIdempotent | files/PA2.java:405-410 | intersecting a flow with itself gives that flow |
| AvailableLoads.MeetAssociative | files/PA2.java:405-410 | grouping does not change a chain of merges |
| AvailableLoads.MeetKeysCommute | files/PA2.java:405-410 | the surviving facts do not depend on operand order; the surviving targets do |
| AvailableLoads.MeetAll | files/PA2.java:405-410 | the in-flow of a unit with several sources: the first, intersected with each further one; its meaning is stated by `AvailableLoads.MeetAllHas` |
| AvailableLoads.MeetAllHas | files/PA2.java:405-410 | a fact survives the merge of all sources iff every source has it, and it keeps the first source's target |
| AvailableLoads.IsSolution | files/PA2.java:394-410 | the converged analysis under each unit's points-to snapshot; `AvailableLoads.SolutionIsMust` and `AvailableLoads.SolutionClearsAtCalls` state what follows |
| AvailableLoads.SolutionIsMust | files/PA2.java:394-410 | at the fixed point, a fact available before a unit is in every predecessor's out-flow, and nothing is available before a head |
| AvailableLoads.SolutionClearsAtCalls | files/PA2.java:389-391 | at the fixed point, the out-flow of a unit containing a call is empty |
| AvailableLoads.AvailableLoadsAnalysis.constructor | files/PA2.java:342-346 | the analysis keeps its body and the points-to analysis it consults |
| AvailableLoads.AvailableLoadsAnalysis.FlowThrough | files/PA2.java:349-392 | the out-flow is the transfer of the in-flow under the unit's own points-to snapshot |
| AvailableLoads.AvailableLoadsAnalysis.Merge | files/PA2.java:405-410 | addAll then retainAll computes exactly the intersection with the first flow's targets |
| Detector.Witnesses | files/PA2.java:115-122 | the match: same field, and the same base or intersecting points-to sets; `Detector.FirstMatch` is stated with it |
| Detector.Reportable | files/PA2.java:101-126 | a field read with a positive line and a matching available fact; `Detector.ReportedUnitsExact` states the units it selects |
| Detector.ReportedUnits | files/PA2.java:97-142 | the reportable units in body order; `Detector.ReportedUnitsExact` states its properties |
| Detector.IsFindingFor | files/PA2.java:125-136 | the finding recorded for a read: its line, its descriptor, its target and a matching fact's target; `Detector.CollectFindings` and `Detector.FindingsForStep` are stated with it |
| Detector.FindingsFor | files/PA2.java:97-142 | one finding per reported unit, in order; `Detector.CollectFindings` and `Detector.AnalyzeMethod` are stated with it |
| Detector.ReportedUnitsExact | files/PA2.java:97-139 | the reported units come in body order, each once; a unit is reported iff it is a field read with a positive line and a matching available fact |
| Detector.FirstMatch | files/PA2.java:114-139 | the scan stops at a fact on the same field with the same base or a may-aliasing base; if it finds none, there is none |
| Detector.FindingsForStep | files/PA2.java:97-141 | handling one more unit appends its finding exactly when it is reportable |
| Detector.FindingsHavePositiveLines | files/PA2.java:125-126 | no finding has a line number of 0 or less |
| Detector.CollectFindings | files/PA2.java:97-142 | one finding per reportable unit, in body order, with the read's line, its descriptor, its target and the matched fact's target |
| Detector.AnalyzeMethod | files/PA2.java:84-148 | the result is those findings sorted by line: one per reported unit, all lines positive |
| Detector.ReportedFactReachesFromAllPredecessors | files/PA2.java:108-122 | at the fixed point, every reported read has a matching fact that all of its predecessors make available |
| FieldLoads.FieldLoad.HashCode | FieldLoad.java:24-29 | in int range and congruent to `h(base)*961 + h(field)*31 + h(value)` modulo 2^32 |
| FieldLoads.FieldLoad.ToString | FieldLoad.java:31-34 | `value = base.name`, piece by piece |
| FieldLoads.EqualsIsTripleEquality | FieldLoad.java:15-22 | equals holds iff the other object is a FieldLoad with the same base, field and value |
| FieldLoads.EqualsIsEquivalence | FieldLoad.java:15-22 | equals is reflexive, symmetric and transitive |
| FieldLoads.EqualsConsistentWithHashCode | FieldLoad.java:15-29 | equal loads have equal hash codes |
| FieldLoads.TargetDistinguishesFacts | FieldLoad.java:19-21 | loads into different locals are different facts |
| AvailableFieldLoads.Transfer | AvailableFieldLoadAnalysis.java:44-137 | flowThrough as an equation; its cases are stated by `AvailableFieldLoads.InvokeKillsAll`, `AvailableFieldLoads.NonAssignmentKeepsFacts`, `AvailableFieldLoads.CopyPropagatesFacts`, `AvailableFieldLoads.ReadAddsFact`, `AvailableFieldLoads.WriteKillsSameBaseOnly` and `AvailableFieldLoads.OtherAssignmentKeepsFacts` |
| AvailableFieldLoads.Redundant | AvailableFieldLoadAnalysis.java:89-111 | the condition under which reportRedundant is reached; stated by `AvailableFieldLoads.ReadAddsFact`, `AvailableFieldLoads.InvokeKillsAll` and `AvailableFieldLoads.FlowThrough` |
| AvailableFieldLoads.Copies | AvailableFieldLoadAnalysis.java:73-82 | for every fact loaded into y, the same load into x, and nothing else |
| AvailableFieldLoads.OnField | AvailableFieldLoadAnalysis.java:125-133 | exactly the facts with that base name and field |
| AvailableFieldLoads.InvokeKillsAll | AvailableFieldLoadAnalysis.java:53-58 | after a call nothing is available and nothing is reported |
| AvailableFieldLoads.NonAssignmentKeepsFacts | AvailableFieldLoadAnalysis.java:60 | a statement that is neither a call nor an assignment changes nothing |
| AvailableFieldLoads.CopyPropagatesFacts | AvailableFieldLoadAnalysis.java:69-84 | `x = y` keeps every fact and adds, for each fact loaded into y, the same load into x |
| AvailableFieldLoads.ReadAddsFact | AvailableFieldLoadAnalysis.java:89-115 | `x = o.f` adds exactly (o, f, x), and is reported iff a fact on o.f is available |
| AvailableFieldLoads.WriteKillsSameBaseOnly | AvailableFieldLoadAnalysis.java:120-136 | `o.f = e` removes exactly the facts whose base is named o and whose field is f |
| AvailableFieldLoads.OtherAssignmentKeepsFacts | AvailableFieldLoadAnalysis.java:62-136 | any other assignment leaves the facts as they are |
| AvailableFieldLoads.Meet | AvailableFieldLoadAnalysis.java:30-35 | the merge is the set intersection |
| AvailableFieldLoads.MeetAll | AvailableFieldLoadAnalysis.java:30-35 | the in-flow of a unit with several sources: the first, intersected with each further one; its meaning is stated by `AvailableFieldLoads.MeetAllHas` |
| AvailableFieldLoads.MeetAllHas | AvailableFieldLoadAnalysis.java:30-35 | a fact survives merging all sources iff every source has it |
| AvailableFieldLoads.IsSolution | AvailableFieldLoadAnalysis.java:19-35 | the converged analysis; `AvailableFieldLoads.SolutionIsMust` states what follows |
| AvailableFieldLoads.SolutionIsMust | AvailableFieldLoadAnalysis.java:19-35 | at the fixed point, a fact is available before a unit iff the unit is not a head and every predecessor's out-flow holds it |
| AvailableFieldLoads.FlowThrough | AvailableFieldLoadAnalysis.java:44-137 | the in-place edits of out compute the transfer, and reportRedundant is reached iff the read is redundant |
| Results.CompareTo | files/PA2.java:199-201 | negative, zero or positive as the first line is smaller, equal or larger |
| Results.CompareToIsTotalPreorder | files/PA2.java:199-201 | compareTo is antisymmetric and transitive, as the Comparable contract requires |
| Results.InsertSorted | files/PA2.java:145 | inserting into a sorted list keeps it sorted |
| Results.InsertOnLine | files/PA2.java:145 | inserting puts the new finding after the findings already on its line |
| Results.SortByLine | files/PA2.java:145 | the result is sorted by line, a permutation of the input, and keeps the input order within each line (stability) |
| Results.AddMethod | files/PA2.java:71-76 | one step of the driver: putIfAbsent of the class, then put under the method's name; stated by the lemmas below |
| Results.AddMethods | files/PA2.java:45-77 | the inner loop over one class's methods; stated by the lemmas below |
| Results.Group | files/PA2.java:42-78 | the report after the outer loop, keyed by class name and method name; stated by the lemmas below |
| Results.AddMethodsKeeps | files/PA2.java:74-75 | a later put never removes a (class name, method name) key |
| Results.AddMethodsAdds | files/PA2.java:71-76 | the name of every analysed method with findings becomes a key under its class's name (its list may be a later overload's) |
| Results.AddMethodsPreserves | files/PA2.java:74-75 | puts of other names leave an entry's list as it was |
| Results.AddMethodsLast | files/PA2.java:45-77 | under a class, a method name's list is the findings of the last method of that name that had findings |
| Results.GroupWellFormed | files/PA2.java:42-78 | the report holds no empty class, no constructor or initialiser, and no empty list |
| Results.GroupSourced | files/PA2.java:42-78 | every entry is the findings list of some analysed method of that name in a class of that name |
| Results.GroupComplete | files/PA2.java:42-78 | the name of every analysed method with findings is a key under its class's name |
| Results.GroupLast | files/PA2.java:42-78 | the list for a (class name, method name) key is exactly the findings of the last method, in visit order, that put under that key |
| Results.OverloadOverwritten | files/PA2.java:75 | of two overloads with findings in one class, only the second one's findings remain in the report |
| Results.GroupProperties | files/PA2.java:39-78 | well-formed, sourced, and every analysed method with findings has its name as a key under its class's name |
| Results.CollectResults | files/PA2.java:39-78 | the nested loop of putIfAbsent/put builds exactly the grouped report |
| Results.LoadLine | files/PA2.java:178 | a printed finding is the line number's text, then `: `, the descriptor, a space, the target, and a closing `;` |
| Results.LoadLineDeterminesLine | files/PA2.java:178 | the number before the first colon can be read back: findings printed identically have the same line number |
| Strings.SortedKeys | files/PA2.java:39 | TreeMap order: the keys, each once, in strictly ascending lexicographic order |
| Printing.ClassEntriesProperties | files/PA2.java:172-175 | a class's entries are its methods, each once, in ascending order |
| Printing.EntriesOfMembers | files/PA2.java:169-173 | the printed entries are exactly the (class, method) pairs of the report |
| Printing.EntriesOfOrdered | files/PA2.java:169-173 | the entries come ordered by class name, then by method name |
| Printing.EntriesAreOrdered | files/PA2.java:168-182 | printResults visits every (class, method) pair once, in ascending order |
| Printing.Printed | files/PA2.java:168-182 | the lines printResults writes; their exact layout is stated by `Printing.PrintedLayout`, with the order of the entries from `Printing.EntriesAreOrdered` |
| Printing.Block | files/PA2.java:176-179 | one entry's lines: the header `class: method` first, one line per finding after it (`Printing.BlockLines`) |
| Printing.BlockLines | files/PA2.java:177-178 | line 1 + j of an entry's block is the printed form of its j-th finding, so the findings keep their list order |
| Printing.PrintedOfLength | files/PA2.java:169-181 | the printed lines number exactly one header plus one line per finding for each entry: nothing else is written |
| Printing.PrintedOfLayout | files/PA2.java:169-181 | entry k's block occupies the lines right after the blocks of entries 0 to k - 1, so the blocks come back to back in entry order |
| Printing.PrintedLayout | files/PA2.java:168-182 | printResults' output is the blocks of the report's entries back to back, in the order `Printing.EntriesAreOrdered` gives (ascending class, then method), with no other line |
| Printing.PrintedOfShows | files/PA2.java:172-179 | the header of any entry and a line for each of its findings are among the lines printed for a list of entries |
| Printing.PrintedShowsReport | files/PA2.java:168-182 | every (class, method) of the report is printed as `class: method`, and every one of its findings as its `LoadLine` |
| WriteKillsScenario.Test4Available | files/Test4/Test.java:5-16 | at the fixed point, nothing is available before the reads on lines 9 and 14, because the call and the write on line 12 clear it; (a, f1) is available as i0 before line 10 and as i2 before line 15 |
| WriteKillsScenario.Test4Reported | files/Test4/Test.java:9-15 | with those facts available, the reported units are exactly the reads on lines 10 and 15 |
| WriteKillsScenario.Test4Findings | files/Test4/Test.java:5-16 | testWriteKills yields exactly the findings for lines 10 and 15, with replacements i0 and i2, already in sorted order |
| AliasingScenario.BasesPointTo | files/TestCase5.java:5-19 | obj1 and obj2 point to the objects of lines 5 and 6, and the alias to obj1's object |
| AliasingScenario.Reported | files/TestCase5.java:11-19 | with the facts available at the reads and the bases' points-to sets, the reported units are exactly the reads on lines 12, 15 and 19; the first read of obj2 on line 14 is not reported |
| AliasingScenario.AliasingFindings | files/TestCase5.java:4-20 | testAliasing yields exactly the findings for lines 12, 15 and 19; the alias read is replaced by i0, loaded from obj1 |

## Left out

- The worklist iteration of the dataflow framework (`doAnalysis`) belongs to Soot and is not part of this model. Both analyses are stated by the equations their converged result satisfies (`IsSolution`). The detector and the scenarios take converged flows as inputs; they do not compute them.
- Building the unit graph (`BriefUnitGraph`, `ExceptionalUnitGraph`) is left out: a graph is given as each unit's predecessor list.
- Scene loading, class-path options and body retrieval are I/O. A method that Soot cannot give a body to is modelled by the `hasBody` flag.
- Printing is modelled as the sequence of lines `printResults` would write (`Printing.Printed`). The console itself, and the `reportRedundant` message of the syntactic variant, are not modelled; only the condition under which it is reached is.
- Detector.FirstMatch: the order in which a `HashSet` is iterated is unknown, so the model says "some matching fact" rather than which one. When several facts match, the replacement local is only known to be the target of one of them.
- Locals are identified by name and field references by (base name, field). Soot compares `Value`s by identity, while the model compares them structurally. The points-to map does get keys for field-reference targets, but no query reads them, so this is not observable.
- Strings.SortedKeys: TreeMap order is modelled as lexicographic order on Dafny characters, which are Unicode scalar values. `String.compareTo` compares UTF-16 code units. The two orders agree only for names without supplementary characters (code points above U+FFFF, which Java stores as surrogate pairs); for other names the printed order may differ from the model's.
- The scenarios use Jimple as Soot produces it from the test methods, with one assumption: `alias = obj1` is kept as a copy between two locals (`r3 = $r1`). The local names follow Soot's naming scheme.
- files/Test3/Test.java is not run through the model. Its comment on line 16 expects `a.f1` to be reported, but `a.f1` is read only on the then-branch, so the intersection at the join (files/PA2.java:405-410, `AvailableLoads.MeetAllHas`) drops the fact. The model follows the code.
- files/Test16/Test.java, files/Test17/Test.java and RedundantLoadAnalysis.java are not part of this model. The last is an earlier draft that does not compile, and PA2.java and AnalysisTransformer.java at the repository root only register the syntactic variant with Soot.
- Findings carry their descriptor text as built from the field reference. Soot's own rendering of a whole statement is not modelled.
