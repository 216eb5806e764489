/** The scheduling engine's entry point (`PertService::compute`): build the
    name-keyed table, order it, and either report the tasks a cycle leaves
    unsorted or compute the dates, the slack, the critical tasks and the
    Mermaid flowchart text. */
module PertService {
  import opened Seqs
  import opened PertGraph
  import opened PertOrder
  import opened PertDates
  import opened PertSlack
  import opened ScheduleFacts

  /** The names of the tasks, in input order. */
  function Names(tasks: seq<Task>): (r: seq<string>)
    ensures |r| == |tasks|
    ensures forall i :: 0 <= i < |tasks| ==> r[i] == tasks[i].name
  {
    seq(|tasks|, i requires 0 <= i < |tasks| => tasks[i].name)
  }

  /** The table's map: each name bound to the last task that carries it
      (a later assignment to `$nameToTask[name]` replaces the earlier one). */
  function TableInfo(tasks: seq<Task>): (info: map<string, Task>)
    ensures forall k :: k in info <==> k in Names(tasks)
  {
    if tasks == [] then map[]
    else
      var init := tasks[..|tasks| - 1];
      var last := tasks[|tasks| - 1];
      assert Names(tasks) == Names(init) + [last.name];
      TableInfo(init)[last.name := last]
  }

  /** The task the table keeps for a name is the last task carrying it. */
  lemma {:induction false} LastWins(tasks: seq<Task>, k: string)
    requires k in TableInfo(tasks)
    ensures exists i :: && 0 <= i < |tasks| && tasks[i] == TableInfo(tasks)[k] && tasks[i].name == k
                        && forall j :: i < j < |tasks| ==> tasks[j].name != k
  {
    var init := tasks[..|tasks| - 1];
    var last := tasks[|tasks| - 1];
    if last.name == k {
      assert tasks[|tasks| - 1] == TableInfo(tasks)[k];
    } else {
      assert Names(tasks) == Names(init) + [last.name];
      LastWins(init, k);
      var i :| && 0 <= i < |init| && init[i] == TableInfo(init)[k] && init[i].name == k
               && forall j :: i < j < |init| ==> init[j].name != k;
      assert tasks[i] == TableInfo(tasks)[k];
    }
  }

  /** The table's key order: each name where it first occurs (assigning to an
      existing key of a PHP array keeps its position). */
  function TableKeys(tasks: seq<Task>): (keys: seq<string>)
  {
    Dedupe(Names(tasks))
  }

  /** PertService.php:10-16. Builds the name-keyed table. */
  method BuildTable(tasks: seq<Task>) returns (keys: seq<string>, info: map<string, Task>)
    ensures keys == TableKeys(tasks) && info == TableInfo(tasks)
    ensures Keyed(keys, info)
  {
    keys, info := [], map[];
    for i := 0 to |tasks|
      invariant keys == TableKeys(tasks[..i]) && info == TableInfo(tasks[..i])
    {
      var t := tasks[i];
      assert tasks[..i + 1][..i] == tasks[..i];
      assert Names(tasks[..i + 1]) == Names(tasks[..i]) + [t.name];
      if t.name !in info {
        keys := keys + [t.name];
      }
      info := info[t.name := t];
    }
    assert tasks[..|tasks|] == tasks;
  }

  /** What Kahn's algorithm leaves behind (the contract of
      `PertOrder.TopologicalOrder`). */
  ghost predicate KahnOutcome(keys: seq<string>, info: map<string, Task>, order: seq<string>)
    requires Keyed(keys, info)
  {
    && Distinct(order)
    && (forall n :: n in order ==> n in keys)
    && Precedes(order, info)
    && Roots(keys, info) <= order
    && forall k :: k in keys ==>
         (k in order <==> Distinct(info[k].preds) && forall p :: p in info[k].preds ==> p in order)
  }

  /** A table the engine can schedule: it has a topological order and no
      predecessor list repeats an entry. */
  ghost predicate Schedulable(keys: seq<string>, info: map<string, Task>) {
    && (exists w :: IsTopologicalOrder(w, keys, info))
    && forall k :: k in keys ==> Distinct(info[k].preds)
  }

  /** Kahn's algorithm orders every task exactly when the table is
      schedulable; otherwise some task is left over. */
  lemma OrderedAllIff(keys: seq<string>, info: map<string, Task>, order: seq<string>)
    requires Keyed(keys, info) && KahnOutcome(keys, info, order)
    ensures |order| <= |keys|
    ensures |order| == |keys| <==> Schedulable(keys, info)
    ensures |order| == |keys| ==> IsTopologicalOrder(order, keys, info)
    ensures |order| < |keys| <==> Without(keys, order) != []
  {
    SubsetLength(order, keys);
    if |order| == |keys| {
      assert IsTopologicalOrder(order, keys, info);
    } else if Schedulable(keys, info) {
      var w :| IsTopologicalOrder(w, keys, info);
      OrderComplete(keys, info, order, w);
    }
    if |order| < |keys| {
      if Without(keys, order) == [] {
        SubsetLength(keys, order);
      }
    } else {
      assert forall k :: k in keys ==> k in order;
    }
  }

  /** Every task on a cycle is among the tasks reported unsorted. */
  lemma CycleReported(keys: seq<string>, info: map<string, Task>, order: seq<string>, c: seq<string>)
    requires Keyed(keys, info) && KahnOutcome(keys, info, order)
    requires IsCycle(c, info)
    ensures forall i :: 0 <= i < |c| ==> c[i] in Without(keys, order)
  {
    CycleNeverOrdered(order, info, c);
    assert forall i :: 0 <= i < |c| ==> c[i] in info by {
      assert c[|c| - 1] == c[0];
    }
  }

  /** Two tasks that list each other are both reported unsorted. */
  lemma TwoCycleReported(keys: seq<string>, info: map<string, Task>, order: seq<string>, a: string, b: string)
    requires Keyed(keys, info) && KahnOutcome(keys, info, order)
    requires a in info && b in info && b in info[a].preds && a in info[b].preds
    ensures a in Without(keys, order) && b in Without(keys, order)
  {
    var c := [a, b, a];
    assert IsCycle(c, info);
    CycleReported(keys, info, order, c);
    assert c[0] == a && c[1] == b;
  }

  /** The flowchart lines. */
  function NodeLine(n: string): string { "  " + n + "[" + n + "]" }
  function EdgeLine(p: string, n: string): string { "  " + p + " --> " + n }
  const Header: string := "flowchart LR"
  const CriticalStyle: string := "classDef crit stroke:#d33,stroke-width:3px,color:#d33;"
  function CriticalClass(critical: seq<string>): string { "class " + Join(critical, ",") + " crit" }

  /** One node line per ordered task. */
  function NodeLines(order: seq<string>): (r: seq<string>)
    ensures |r| == |order|
    ensures forall i :: 0 <= i < |order| ==> r[i] == NodeLine(order[i])
  {
    if order == [] then [] else NodeLines(order[..|order| - 1]) + [NodeLine(order[|order| - 1])]
  }

  /** One edge line per entry of the predecessor list `ps` of task `n`. */
  function PredLines(ps: seq<string>, n: string): (r: seq<string>)
    ensures |r| == |ps|
    ensures forall i :: 0 <= i < |ps| ==> r[i] == EdgeLine(ps[i], n)
  {
    if ps == [] then [] else PredLines(ps[..|ps| - 1], n) + [EdgeLine(ps[|ps| - 1], n)]
  }

  /** The number of predecessor entries of the table. */
  function EdgeCount(keys: seq<string>, info: map<string, Task>): nat
    requires forall k :: k in keys ==> k in info
  {
    if keys == [] then 0 else EdgeCount(keys[..|keys| - 1], info) + |info[keys[|keys| - 1]].preds|
  }

  /** The edge lines of every task, in key order. */
  function EdgeLines(keys: seq<string>, info: map<string, Task>): (r: seq<string>)
    requires forall k :: k in keys ==> k in info
    ensures |r| == EdgeCount(keys, info)
  {
    if keys == [] then []
    else
      var k := keys[|keys| - 1];
      EdgeLines(keys[..|keys| - 1], info) + PredLines(info[k].preds, k)
  }

  /** The edge lines are exactly the lines `p --> k` for the predecessor
      entries `p` of the tasks `k`. */
  lemma {:induction false} EdgeLinesExact(keys: seq<string>, info: map<string, Task>)
    requires forall k :: k in keys ==> k in info
    ensures forall k, p :: k in keys && p in info[k].preds ==> EdgeLine(p, k) in EdgeLines(keys, info)
    ensures forall l :: l in EdgeLines(keys, info) ==>
              exists k, p :: k in keys && p in info[k].preds && l == EdgeLine(p, k)
  {
    if keys != [] {
      var init := keys[..|keys| - 1];
      var k := keys[|keys| - 1];
      var ps := info[k].preds;
      assert keys == init + [k];
      EdgeLinesExact(init, info);
      assert EdgeLines(keys, info) == EdgeLines(init, info) + PredLines(ps, k);
      forall p | p in ps ensures EdgeLine(p, k) in PredLines(ps, k) {
        var i :| 0 <= i < |ps| && ps[i] == p;
        assert PredLines(ps, k)[i] == EdgeLine(p, k);
      }
      forall l | l in PredLines(ps, k) ensures exists p :: p in ps && l == EdgeLine(p, k) {
        var i :| 0 <= i < |ps| && PredLines(ps, k)[i] == l;
        assert ps[i] in ps;
      }
    }
  }

  /** The lines of the Mermaid flowchart: the header, the node lines, the
      edge lines, the style of critical nodes, and the class line naming the
      critical tasks when there is one. */
  function MermaidLines(keys: seq<string>, info: map<string, Task>, order: seq<string>,
                        critical: seq<string>): seq<string>
    requires forall k :: k in keys ==> k in info
  {
    [Header] + NodeLines(order) + EdgeLines(keys, info) + [CriticalStyle]
      + (if critical == [] then [] else [CriticalClass(critical)])
  }

  /** Lines, each followed by a line feed. */
  function Unlines(lines: seq<string>): string {
    if lines == [] then "" else Unlines(lines[..|lines| - 1]) + lines[|lines| - 1] + "\n"
  }

  lemma UnlinesSnoc(lines: seq<string>, l: string)
    ensures Unlines(lines + [l]) == Unlines(lines) + l + "\n"
  {
    assert (lines + [l])[..|lines|] == lines;
  }

  /** The shape of the flowchart: one node line per ordered task, in order,
      right after the header; then one edge line `p --> n` per predecessor
      entry, and every such line stands for an entry; then the style line,
      and the class line exactly when some task is critical. */
  lemma MermaidShape(keys: seq<string>, info: map<string, Task>, order: seq<string>, critical: seq<string>)
    requires forall k :: k in keys ==> k in info
    ensures var lines := MermaidLines(keys, info, order, critical);
            && |lines| == |order| + EdgeCount(keys, info) + (if critical == [] then 2 else 3)
            && lines[0] == Header
            && (forall i :: 0 <= i < |order| ==> lines[1 + i] == NodeLine(order[i]))
            && (var edges := lines[1 + |order|..1 + |order| + EdgeCount(keys, info)];
                && (forall k, p :: k in keys && p in info[k].preds ==> EdgeLine(p, k) in edges)
                && (forall l :: l in edges ==> exists k, p :: k in keys && p in info[k].preds && l == EdgeLine(p, k)))
            && lines[1 + |order| + EdgeCount(keys, info)] == CriticalStyle
            && (critical != [] ==> lines[|lines| - 1] == CriticalClass(critical))
  {
    var lines := MermaidLines(keys, info, order, critical);
    var nodes, edges := NodeLines(order), EdgeLines(keys, info);
    var last := if critical == [] then [] else [CriticalClass(critical)];
    assert lines == [Header] + nodes + edges + [CriticalStyle] + last;
    Layout(Header, nodes, edges, CriticalStyle, last);
    assert lines[1 + |order|..1 + |order| + EdgeCount(keys, info)] == edges;
    EdgeLinesExact(keys, info);
  }

  /** Where each part of `[x] + a + b + [y] + last` lies. */
  lemma Layout(x: string, a: seq<string>, b: seq<string>, y: string, last: seq<string>)
    ensures var s := [x] + a + b + [y] + last;
            && |s| == |a| + |b| + 2 + |last|
            && s[0] == x
            && (forall i :: 0 <= i < |a| ==> s[1 + i] == a[i])
            && s[1 + |a|..1 + |a| + |b|] == b
            && s[1 + |a| + |b|] == y
            && (last != [] ==> s[|s| - 1] == last[|last| - 1])
  {
    var s := [x] + a + b + [y] + last;
    assert s[1 + |a|..1 + |a| + |b|] == b;
  }

  lemma {:induction false} UnlinesAppend(a: seq<string>, b: seq<string>)
    ensures Unlines(a + b) == Unlines(a) + Unlines(b)
    decreases |b|
  {
    if b != [] {
      var init, last := b[..|b| - 1], b[|b| - 1];
      assert a + b == (a + init) + [last];
      assert b == init + [last];
      UnlinesAppend(a, init);
      UnlinesSnoc(a + init, last);
      UnlinesSnoc(init, last);
    } else {
      assert a + b == a;
    }
  }

  /** PertService.php:140-142: appends the node line of every ordered task. */
  method AppendNodes(text0: string, order: seq<string>) returns (text: string)
    ensures text == text0 + Unlines(NodeLines(order))
  {
    text := text0;
    for i := 0 to |order|
      invariant text == text0 + Unlines(NodeLines(order[..i]))
    {
      assert order[..i + 1][..i] == order[..i];
      UnlinesSnoc(NodeLines(order[..i]), NodeLine(order[i]));
      text := text + NodeLine(order[i]) + "\n";
    }
    assert order[..|order|] == order;
  }

  /** PertService.php:144-146: appends the edge line of every entry of one
      predecessor list. */
  method AppendPreds(text0: string, ps: seq<string>, n: string) returns (text: string)
    ensures text == text0 + Unlines(PredLines(ps, n))
  {
    text := text0;
    for j := 0 to |ps|
      invariant text == text0 + Unlines(PredLines(ps[..j], n))
    {
      assert ps[..j + 1][..j] == ps[..j];
      UnlinesSnoc(PredLines(ps[..j], n), EdgeLine(ps[j], n));
      text := text + EdgeLine(ps[j], n) + "\n";
    }
    assert ps[..|ps|] == ps;
  }

  /** PertService.php:143-147: appends the edge lines of every task, in key
      order. */
  method AppendEdges(text0: string, keys: seq<string>, info: map<string, Task>) returns (text: string)
    requires forall k :: k in keys ==> k in info
    ensures text == text0 + Unlines(EdgeLines(keys, info))
  {
    text := text0;
    for i := 0 to |keys|
      invariant text == text0 + Unlines(EdgeLines(keys[..i], info))
    {
      var n := keys[i];
      EdgeTextSnoc(text0, keys, info, i);
      text := AppendPreds(text, info[n].preds, n);
    }
    assert keys[..|keys|] == keys;
  }

  /** The edge text of the first `i + 1` tasks extends that of the first `i`
      by the edge lines of task `keys[i]`. */
  lemma EdgeTextSnoc(text0: string, keys: seq<string>, info: map<string, Task>, i: nat)
    requires forall k :: k in keys ==> k in info
    requires i < |keys|
    ensures text0 + Unlines(EdgeLines(keys[..i + 1], info))
            == text0 + Unlines(EdgeLines(keys[..i], info)) + Unlines(PredLines(info[keys[i]].preds, keys[i]))
  {
    var a, b := EdgeLines(keys[..i], info), PredLines(info[keys[i]].preds, keys[i]);
    assert keys[..i + 1][..i] == keys[..i];
    assert EdgeLines(keys[..i + 1], info) == a + b;
    UnlinesAppend(a, b);
  }

  lemma UnlinesFrame(x: string, a: seq<string>, b: seq<string>, y: string, last: seq<string>)
    ensures Unlines([x] + a + b + [y] + last) == x + "\n" + Unlines(a) + Unlines(b) + y + "\n" + Unlines(last)
  {
    var head := [x] + a + b;
    UnlinesSnoc([], x);
    assert [] + [x] == [x];
    UnlinesAppend([x], a);
    UnlinesAppend([x] + a, b);
    UnlinesSnoc(head, y);
    UnlinesAppend(head + [y], last);
  }

  /** The flowchart text, piece by piece. */
  lemma MermaidText(keys: seq<string>, info: map<string, Task>, order: seq<string>, critical: seq<string>)
    requires forall k :: k in keys ==> k in info
    ensures Unlines(MermaidLines(keys, info, order, critical))
            == Header + "\n" + Unlines(NodeLines(order)) + Unlines(EdgeLines(keys, info)) + CriticalStyle + "\n"
               + (if critical == [] then "" else CriticalClass(critical) + "\n")
  {
    var last := if critical == [] then [] else [CriticalClass(critical)];
    UnlinesFrame(Header, NodeLines(order), EdgeLines(keys, info), CriticalStyle, last);
    if critical != [] {
      UnlinesSnoc([], CriticalClass(critical));
      assert [] + [CriticalClass(critical)] == last;
    }
  }

  /** PertService.php:138-151. Builds the flowchart text by appending lines. */
  method Mermaid(keys: seq<string>, info: map<string, Task>, order: seq<string>, critical: seq<string>)
    returns (text: string)
    requires forall k :: k in keys ==> k in info
    ensures text == Unlines(MermaidLines(keys, info, order, critical))
  {
    text := Header + "\n";
    text := AppendNodes(text, order);
    text := AppendEdges(text, keys, info);
    text := text + CriticalStyle + "\n";
    if critical != [] {
      text := text + CriticalClass(critical) + "\n";
    }
    MermaidText(keys, info, order, critical);
  }

  /** The engine's result. */
  datatype Schedule = Schedule(
    order: seq<string>,
    es: map<string, int>, ef: map<string, int>,
    ls: map<string, int>, lf: map<string, int>,
    slack: map<string, int>, freeSlack: map<string, int>,
    critical: seq<string>,
    duration: int, t0: int,
    mermaid: string)

  /** Either a schedule, or the exception thrown for a table Kahn's algorithm
      cannot order completely, with the unsorted names it lists. */
  datatype Outcome = Done(schedule: Schedule) | CycleDetected(unsorted: seq<string>)

  /** PertService.php:7-164. */
  method Compute(tasks: seq<Task>, t0: int) returns (r: Outcome, ghost sorted: seq<string>)
    ensures var keys, info := TableKeys(tasks), TableInfo(tasks);
            && Keyed(keys, info)
            && KahnOutcome(keys, info, sorted)
            && (r.Done? <==> Schedulable(keys, info))
            && (r.CycleDetected? ==> r.unsorted == Without(keys, sorted) && r.unsorted != [])
    ensures var keys, info := TableKeys(tasks), TableInfo(tasks);
            r.Done? ==>
              var s := r.schedule;
              && s.order == sorted && s.t0 == t0
              && IsTopologicalOrder(s.order, keys, info)
              && Scheduled(keys, info, s.order, t0, s.es, s.ef, s.duration, s.ls, s.lf)
              && SlackRule(s.order, keys, info, s.duration, s.es, s.ef, s.ls, s.slack, s.freeSlack)
              && s.critical == Critical(s.order, s.slack)
              && s.mermaid == Unlines(MermaidLines(keys, info, s.order, s.critical))
    ensures r.Done? && t0 >= 0 ==>
              var s := r.schedule;
              && (forall n :: n in s.order ==>
                    && t0 <= s.es[n] <= s.ef[n] <= s.lf[n] <= s.duration
                    && 0 <= s.freeSlack[n] <= s.slack[n])
              && (|s.order| > 0 ==> s.critical != [])
  {
    var keys, info := BuildTable(tasks);
    var order := TopologicalOrder(keys, info);
    sorted := order;
    assert KahnOutcome(keys, info, order);
    OrderedAllIff(keys, info, order);
    if |order| != |keys| {
      r := CycleDetected(Without(keys, order));
      return;
    }
    var es, ef := ForwardPass(order, info, t0);
    var finish := ProjectFinish(order, ef, t0);
    var ls, lf := BackwardPass(order, keys, info, finish);
    var slack, freeSlack, critical := SlackAnalysis(order, keys, info, finish, es, ef, ls);
    var mermaid := Mermaid(keys, info, order, critical);
    r := Done(Schedule(order, es, ef, ls, lf, slack, freeSlack, critical, finish, t0, mermaid));
    assert Scheduled(keys, info, order, t0, es, ef, finish, ls, lf);
    if t0 >= 0 {
      ScheduleSound(keys, info, order, t0, es, ef, finish, ls, lf);
      SlackSound(keys, info, order, t0, es, ef, finish, ls, lf, slack, freeSlack);
    }
  }
}
