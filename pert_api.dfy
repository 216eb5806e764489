/** The JSON endpoint `PertApiController::calculate`: it normalises the
    submitted tasks, rejects a predecessor that names no task, runs the
    engine, and shapes its result into rows, the critical path and the
    critical edges; `calculateLevel` gives each row a diagram level. */
module PertApi {
  import opened Wrappers
  import opened Seqs
  import opened Text
  import opened PertGraph
  import opened PertOrder
  import opened PertDates
  import opened PertSlack
  import opened ScheduleFacts
  import opened PertService

  /** One task as the request lists it. */
  datatype ApiTask = ApiTask(id: string, duration: int, predecessors: seq<string>)

  /** A name as the endpoint normalises it: trimmed, then upper-cased. */
  function Normalize(s: string): string {
    Upper(Trim(s, IsPhpSpace))
  }

  /** PertApiController.php:35-37 (`array_map`): every entry normalised. */
  function NormalizeAll(raw: seq<string>): (r: seq<string>)
    ensures |r| == |raw|
    ensures forall i :: 0 <= i < |raw| ==> r[i] == Normalize(raw[i])
  {
    if raw == [] then [] else NormalizeAll(raw[..|raw| - 1]) + [Normalize(raw[|raw| - 1])]
  }

  /** PertApiController.php:40-42 (`array_filter`): the entries that are
      neither `name` nor empty in PHP's sense, in their original order. */
  function KeepPredecessors(ps: seq<string>, name: string): seq<string> {
    if ps == [] then []
    else
      var p := ps[|ps| - 1];
      KeepPredecessors(ps[..|ps| - 1], name) + (if p != name && !PhpEmpty(p) then [p] else [])
  }

  /** The cleaned predecessor list of task `name`. */
  function CleanPredecessors(raw: seq<string>, name: string): seq<string> {
    KeepPredecessors(NormalizeAll(raw), name)
  }

  /** The filter keeps exactly the entries that are neither the task itself
      nor empty. */
  lemma {:induction false} KeepPredecessorsExact(ps: seq<string>, name: string)
    ensures forall x :: x in KeepPredecessors(ps, name) <==> x in ps && x != name && !PhpEmpty(x)
  {
    if ps != [] {
      var init := ps[..|ps| - 1];
      KeepPredecessorsExact(init, name);
      assert forall x :: x in ps <==> x in init || x == ps[|ps| - 1];
    }
  }

  /** The filter works entry by entry, so it keeps repeated entries:
      filtering two lists one after the other is filtering their
      concatenation. */
  lemma {:induction false} KeepPredecessorsAppend(a: seq<string>, b: seq<string>, name: string)
    ensures KeepPredecessors(a + b, name) == KeepPredecessors(a, name) + KeepPredecessors(b, name)
    decreases |b|
  {
    if b == [] {
      assert a + b == a;
    } else {
      var init := b[..|b| - 1];
      assert (a + b)[..|a + b| - 1] == a + init;
      KeepPredecessorsAppend(a, init, name);
    }
  }

  /** PertApiController.php:31-48: one prepared task. */
  function PrepareTask(t: ApiTask): Task {
    var name := Normalize(t.id);
    Task(name, if t.duration < 1 then 1 else t.duration, CleanPredecessors(t.predecessors, name))
  }

  /** Every prepared task has a duration of at least 1, and its predecessor
      list names neither the task itself nor an empty name. */
  lemma PrepareTaskFacts(t: ApiTask)
    ensures var p := PrepareTask(t);
            && p.name == Normalize(t.id)
            && p.duration >= 1 && (t.duration >= 1 ==> p.duration == t.duration)
            && forall x :: x in p.preds ==> x != p.name && !PhpEmpty(x)
  {
    KeepPredecessorsExact(NormalizeAll(t.predecessors), Normalize(t.id));
  }

  function Prepared(tasks: seq<ApiTask>): (r: seq<Task>)
    ensures |r| == |tasks|
    ensures forall i :: 0 <= i < |tasks| ==> r[i] == PrepareTask(tasks[i])
  {
    if tasks == [] then [] else Prepared(tasks[..|tasks| - 1]) + [PrepareTask(tasks[|tasks| - 1])]
  }

  /** PertApiController.php:27-49. */
  method Prepare(tasks: seq<ApiTask>) returns (prepared: seq<Task>, validNames: seq<string>)
    ensures |prepared| == |tasks|
    ensures forall i :: 0 <= i < |tasks| ==> prepared[i] == PrepareTask(tasks[i])
    ensures validNames == Names(prepared)
  {
    prepared, validNames := [], [];
    for i := 0 to |tasks|
      invariant |prepared| == i
      invariant forall k :: 0 <= k < i ==> prepared[k] == PrepareTask(tasks[k])
      invariant validNames == Names(prepared)
    {
      var t := PrepareTask(tasks[i]);
      validNames := validNames + [t.name];
      prepared := prepared + [t];
    }
  }

  /** The first entry of `ps` that is not in `names`. */
  function MissingIn(ps: seq<string>, names: seq<string>): (r: Option<string>)
    ensures r.None? <==> forall p :: p in ps ==> p in names
    ensures r.Some? ==> r.value in ps && r.value !in names
  {
    if ps == [] then None
    else if ps[0] !in names then Some(ps[0])
    else
      var r := MissingIn(ps[1..], names);
      assert forall p :: p in ps ==> p == ps[0] || p in ps[1..];
      r
  }

  /** The first predecessor entry, task by task and entry by entry, that is
      not in `names`. */
  function FirstUnknown(tasks: seq<Task>, names: seq<string>): (r: Option<string>)
  {
    if tasks == [] then None
    else if MissingIn(tasks[0].preds, names).Some? then MissingIn(tasks[0].preds, names)
    else FirstUnknown(tasks[1..], names)
  }

  /** There is no unknown predecessor exactly when every entry names a task;
      the one reported is unknown, and every entry before it, in earlier
      tasks or earlier in the same list, is known. */
  lemma FirstUnknownExact(tasks: seq<Task>, names: seq<string>)
    ensures FirstUnknown(tasks, names).None? <==>
              forall i, p :: 0 <= i < |tasks| && p in tasks[i].preds ==> p in names
    ensures FirstUnknown(tasks, names).Some? ==>
              var v := FirstUnknown(tasks, names).value;
              && v !in names
              && exists i, j :: && 0 <= i < |tasks| && 0 <= j < |tasks[i].preds| && tasks[i].preds[j] == v
                                && (forall k, p :: 0 <= k < i && p in tasks[k].preds ==> p in names)
                                && (forall k :: 0 <= k < j ==> tasks[i].preds[k] in names)
  {
    FirstUnknownNone(tasks, names);
    if FirstUnknown(tasks, names).Some? {
      FirstUnknownAt(tasks, names);
    }
  }

  lemma {:induction false} FirstUnknownNone(tasks: seq<Task>, names: seq<string>)
    ensures FirstUnknown(tasks, names).None? <==>
              forall i, p :: 0 <= i < |tasks| && p in tasks[i].preds ==> p in names
  {
    if tasks != [] && MissingIn(tasks[0].preds, names).None? {
      var rest := tasks[1..];
      FirstUnknownNone(rest, names);
      if FirstUnknown(rest, names).None? {
        forall i, p | 0 <= i < |tasks| && p in tasks[i].preds ensures p in names {
          if i > 0 { assert tasks[i] == rest[i - 1]; }
        }
      } else {
        var i, p :| 0 <= i < |rest| && p in rest[i].preds && p !in names;
        assert tasks[i + 1] == rest[i];
      }
    }
  }

  lemma {:induction false} FirstUnknownAt(tasks: seq<Task>, names: seq<string>)
    requires FirstUnknown(tasks, names).Some?
    ensures var v := FirstUnknown(tasks, names).value;
            && v !in names
            && exists i, j :: && 0 <= i < |tasks| && 0 <= j < |tasks[i].preds| && tasks[i].preds[j] == v
                              && (forall k, p :: 0 <= k < i && p in tasks[k].preds ==> p in names)
                              && (forall k :: 0 <= k < j ==> tasks[i].preds[k] in names)
  {
    var ps := tasks[0].preds;
    if MissingIn(ps, names).Some? {
      MissingFirst(ps, names);
    } else {
      var rest := tasks[1..];
      FirstUnknownAt(rest, names);
      var v := FirstUnknown(rest, names).value;
      var i, j :| && 0 <= i < |rest| && 0 <= j < |rest[i].preds| && rest[i].preds[j] == v
                  && (forall k, p :: 0 <= k < i && p in rest[k].preds ==> p in names)
                  && (forall k :: 0 <= k < j ==> rest[i].preds[k] in names);
      assert tasks[i + 1] == rest[i];
      forall k, p | 0 <= k < i + 1 && p in tasks[k].preds ensures p in names {
        if k > 0 { assert tasks[k] == rest[k - 1]; }
      }
    }
  }

  lemma {:induction false} MissingFirst(ps: seq<string>, names: seq<string>)
    requires MissingIn(ps, names).Some?
    ensures exists j :: 0 <= j < |ps| && ps[j] == MissingIn(ps, names).value
                        && forall k :: 0 <= k < j ==> ps[k] in names
  {
    if ps[0] in names {
      MissingFirst(ps[1..], names);
      var j :| 0 <= j < |ps[1..]| && ps[1..][j] == MissingIn(ps[1..], names).value
               && forall k :: 0 <= k < j ==> ps[1..][k] in names;
      assert ps[j + 1] == MissingIn(ps, names).value;
      forall k | 0 <= k < j + 1 ensures ps[k] in names {
        if k > 0 { assert ps[k] == ps[1..][k - 1]; }
      }
    } else {
      assert ps[0] == MissingIn(ps, names).value;
    }
  }

  /** PertApiController.php:52-60: the scan for a predecessor that names no
      task, which stops at the first one. */
  method CheckPredecessors(prepared: seq<Task>, validNames: seq<string>) returns (missing: Option<string>)
    ensures missing == FirstUnknown(prepared, validNames)
  {
    for i := 0 to |prepared|
      invariant FirstUnknown(prepared, validNames) == FirstUnknown(prepared[i..], validNames)
    {
      var ps := prepared[i].preds;
      for j := 0 to |ps|
        invariant MissingIn(ps, validNames) == MissingIn(ps[j..], validNames)
      {
        if ps[j] !in validNames {
          missing := Some(ps[j]);
          assert prepared[i..][0] == prepared[i];
          return;
        }
        assert ps[j..][1..] == ps[j + 1..];
      }
      assert ps[|ps|..] == [];
      assert prepared[i..][0] == prepared[i] && prepared[i..][1..] == prepared[i + 1..];
    }
    missing := None;
  }

  /** The first prepared task with name `n` (what `array_search` over the
      prepared names finds). */
  function FirstEntry(tasks: seq<Task>, n: string): (t: Task)
    requires n in Names(tasks)
    ensures t.name == n
  {
    tasks[IndexOf(Names(tasks), n)]
  }

  /** The first entry is a task named `n` that no earlier task's name
      matches. */
  lemma FirstEntryFirst(tasks: seq<Task>, n: string)
    requires n in Names(tasks)
    ensures exists i :: 0 <= i < |tasks| && tasks[i] == FirstEntry(tasks, n)
                        && forall j :: 0 <= j < i ==> tasks[j].name != n
  {
    var i := IndexOf(Names(tasks), n);
    IndexOfFirst(Names(tasks), n);
    assert forall j :: 0 <= j < i ==> Names(tasks)[j] == tasks[j].name;
  }

  /** With unique names, the first entry is the task the engine's table
      keeps. */
  lemma FirstEntryIsTableEntry(tasks: seq<Task>, n: string)
    requires Distinct(Names(tasks)) && n in Names(tasks)
    ensures n in TableInfo(tasks) && FirstEntry(tasks, n) == TableInfo(tasks)[n]
  {
    LastWins(tasks, n);
    var i :| && 0 <= i < |tasks| && tasks[i] == TableInfo(tasks)[n] && tasks[i].name == n
             && forall j :: i < j < |tasks| ==> tasks[j].name != n;
    assert Names(tasks)[i] == n;
    assert IndexOf(Names(tasks), n) == i;
  }

  /** PertApiController.php:258-279 (`calculateLevel`): 0 for a name no
      task has or a task without predecessors, otherwise one more than the
      highest level among the predecessors of its first entry. The PHP
      recursion has no bound; `fuel` bounds its depth, and `None` stands for
      a recursion deeper than `fuel`, the model of one that never ends. */
  function Level(n: string, tasks: seq<Task>, fuel: nat): Option<nat>
    decreases fuel, 0
  {
    if fuel == 0 then None
    else if n !in Names(tasks) then Some(0)
    else
      var ps := FirstEntry(tasks, n).preds;
      if ps == [] then Some(0)
      else
        match MaxLevel(ps, tasks, fuel - 1)
        case None => None
        case Some(m) => Some(m + 1)
  }

  /** The highest level among `ps`, or 0 when `ps` is empty. */
  function MaxLevel(ps: seq<string>, tasks: seq<Task>, fuel: nat): Option<nat>
    decreases fuel, 1, |ps|
  {
    if ps == [] then Some(0)
    else
      match MaxLevel(ps[..|ps| - 1], tasks, fuel)
      case None => None
      case Some(m) =>
        match Level(ps[|ps| - 1], tasks, fuel)
        case None => None
        case Some(v) => Some(if m >= v then m else v)
  }

  /** The highest level is defined exactly when every level is, and then
      it bounds every level of `ps`. */
  lemma {:induction false} MaxLevelBounds(ps: seq<string>, tasks: seq<Task>, fuel: nat)
    ensures MaxLevel(ps, tasks, fuel).Some? <==> forall p :: p in ps ==> Level(p, tasks, fuel).Some?
    ensures MaxLevel(ps, tasks, fuel).Some? ==>
              forall p :: p in ps ==> Level(p, tasks, fuel).value <= MaxLevel(ps, tasks, fuel).value
  {
    if ps != [] {
      var init, last := ps[..|ps| - 1], ps[|ps| - 1];
      MaxLevelBounds(init, tasks, fuel);
      assert forall p :: p in ps <==> p in init || p == last;
      if MaxLevel(init, tasks, fuel).None? {
        var q :| q in init && Level(q, tasks, fuel).None?;
        assert q in ps;
      } else if Level(last, tasks, fuel).None? {
        assert last in ps;
      }
    }
  }

  /** A task's level is 0 exactly when no task has its name or its first
      entry lists no predecessor; otherwise it exceeds the level of each of
      those predecessors. */
  lemma LevelAbovePredecessors(n: string, tasks: seq<Task>, fuel: nat)
    requires Level(n, tasks, fuel).Some?
    ensures fuel > 0
    ensures Level(n, tasks, fuel).value == 0 <==> n !in Names(tasks) || FirstEntry(tasks, n).preds == []
    ensures n in Names(tasks) ==>
              forall p :: p in FirstEntry(tasks, n).preds ==>
                Level(p, tasks, fuel - 1).Some? && Level(p, tasks, fuel - 1).value < Level(n, tasks, fuel).value
  {
    if n in Names(tasks) && FirstEntry(tasks, n).preds != [] {
      MaxLevelBounds(FirstEntry(tasks, n).preds, tasks, fuel - 1);
    }
  }

  /** More fuel never changes a level that is defined: the fuel decides
      only whether the recursion ends, never the value. */
  lemma {:induction false} LevelMoreFuel(n: string, tasks: seq<Task>, fuel: nat, more: nat)
    requires fuel <= more && Level(n, tasks, fuel).Some?
    ensures Level(n, tasks, more) == Level(n, tasks, fuel)
    decreases fuel, 0
  {
    if n in Names(tasks) && FirstEntry(tasks, n).preds != [] {
      MaxLevelMoreFuel(FirstEntry(tasks, n).preds, tasks, fuel - 1, more - 1);
    }
  }

  lemma {:induction false} MaxLevelMoreFuel(ps: seq<string>, tasks: seq<Task>, fuel: nat, more: nat)
    requires fuel <= more && MaxLevel(ps, tasks, fuel).Some?
    ensures MaxLevel(ps, tasks, more) == MaxLevel(ps, tasks, fuel)
    decreases fuel, 1, |ps|
  {
    if ps != [] {
      MaxLevelMoreFuel(ps[..|ps| - 1], tasks, fuel, more);
      LevelMoreFuel(ps[|ps| - 1], tasks, fuel, more);
    }
  }

  /** Two tasks whose first entries list each other send `calculateLevel`
      into a recursion that never ends: no fuel is enough. */
  lemma {:induction false} LevelTwoCycle(a: string, b: string, tasks: seq<Task>, fuel: nat)
    requires a in Names(tasks) && b in Names(tasks)
    requires b in FirstEntry(tasks, a).preds && a in FirstEntry(tasks, b).preds
    ensures Level(a, tasks, fuel).None? && Level(b, tasks, fuel).None?
  {
    if fuel > 0 {
      LevelTwoCycle(a, b, tasks, fuel - 1);
      MaxLevelBounds(FirstEntry(tasks, a).preds, tasks, fuel - 1);
      MaxLevelBounds(FirstEntry(tasks, b).preds, tasks, fuel - 1);
    }
  }

  /** `w` lists names of tasks so that the first entry of each lists only
      names that come earlier in `w`. */
  ghost predicate FirstEntriesPrecede(w: seq<string>, tasks: seq<Task>) {
    forall i :: 0 <= i < |w| ==> FirstEntryPrecedes(w, tasks, i)
  }

  /** The name at position `i` of `w` belongs to a task whose first entry
      lists only names that come earlier in `w`. */
  ghost predicate FirstEntryPrecedes(w: seq<string>, tasks: seq<Task>, i: nat)
    requires i < |w|
  {
    && w[i] in Names(tasks)
    && forall p :: p in FirstEntry(tasks, w[i]).preds ==> p in w[..i]
  }

  /** Along such an order the recursion ends: the task at position `i`
      needs a depth of at most `i + 1`. */
  lemma {:induction false} LevelDefined(w: seq<string>, tasks: seq<Task>, i: nat)
    requires FirstEntriesPrecede(w, tasks) && i < |w|
    ensures Level(w[i], tasks, i + 1).Some?
    decreases i
  {
    assert FirstEntryPrecedes(w, tasks, i);
    var ps := FirstEntry(tasks, w[i]).preds;
    if ps != [] {
      forall p | p in ps ensures Level(p, tasks, i).Some? {
        assert p in w[..i];
        var j :| 0 <= j < i && w[j] == p;
        LevelDefined(w, tasks, j);
        LevelMoreFuel(p, tasks, j + 1, i);
      }
      MaxLevelBounds(ps, tasks, i);
    }
  }

  /** The `?? 0` lookups of the response. */
  function Lookup(m: map<string, int>, k: string): int {
    if k in m then m[k] else 0
  }

  /** One row of the response's task list. */
  datatype Row = Row(
    id: string, duration: int, predecessors: seq<string>,
    earliestStart: int, earliestFinish: int, latestStart: int, latestFinish: int,
    totalFloat: int, freeFloat: int, isCritical: bool, level: Option<nat>)

  /** PertApiController.php:70-82: the row of task `n`; the duration and the
      predecessors come from the first prepared entry named `n`. */
  function RowOf(n: string, prepared: seq<Task>, s: Schedule): Row
    requires n in Names(prepared)
  {
    var t := FirstEntry(prepared, n);
    Row(n, t.duration, t.preds,
        Lookup(s.es, n), Lookup(s.ef, n), Lookup(s.ls, n), Lookup(s.lf, n),
        Lookup(s.slack, n), Lookup(s.freeSlack, n),
        n in s.critical, Level(n, prepared, |prepared| + 1))
  }

  /** PertApiController.php:68-83: one row per ordered name, in order. */
  method BuildRows(order: seq<string>, prepared: seq<Task>, s: Schedule) returns (rows: seq<Row>)
    requires forall n :: n in order ==> n in Names(prepared)
    ensures |rows| == |order|
    ensures forall i :: 0 <= i < |order| ==> rows[i] == RowOf(order[i], prepared, s)
  {
    rows := [];
    for i := 0 to |order|
      invariant |rows| == i
      invariant forall k :: 0 <= k < i ==> rows[k] == RowOf(order[k], prepared, s)
    {
      rows := rows + [RowOf(order[i], prepared, s)];
    }
  }

  /** An arrow of the critical path. */
  datatype Edge = Edge(from: string, to: string)

  /** The edges into `c` from those of its predecessor entries `ps` that
      are critical. */
  function EdgesInto(c: string, ps: seq<string>, critical: seq<string>): (r: seq<Edge>)
    ensures forall e :: e in r <==> e.to == c && e.from in ps && e.from in critical
  {
    if ps == [] then []
    else
      var p := ps[|ps| - 1];
      var r := EdgesInto(c, ps[..|ps| - 1], critical) + (if p in critical then [Edge(p, c)] else []);
      assert forall x :: x in ps <==> x in ps[..|ps| - 1] || x == p;
      r
  }

  /** PertApiController.php:86-97: the critical edges, grouped by the
      critical task they lead to, in the order of `todo`. */
  function CriticalEdges(todo: seq<string>, critical: seq<string>, prepared: seq<Task>): seq<Edge>
    requires forall c :: c in todo ==> c in Names(prepared)
  {
    if todo == [] then []
    else
      var c := todo[|todo| - 1];
      CriticalEdges(todo[..|todo| - 1], critical, prepared) + EdgesInto(c, FirstEntry(prepared, c).preds, critical)
  }

  /** An edge `(p, c)` is critical exactly when `c` is a critical task, `p`
      is one of its predecessor entries, and `p` is critical too. */
  lemma {:induction false} CriticalEdgesExact(todo: seq<string>, critical: seq<string>, prepared: seq<Task>)
    requires forall c :: c in todo ==> c in Names(prepared)
    ensures forall e :: e in CriticalEdges(todo, critical, prepared) <==>
              e.to in todo && e.from in FirstEntry(prepared, e.to).preds && e.from in critical
  {
    if todo != [] {
      var init := todo[..|todo| - 1];
      CriticalEdgesExact(init, critical, prepared);
      assert forall x :: x in todo <==> x in init || x == todo[|todo| - 1];
    }
  }

  /** The edges of `r` come grouped by their target, in the order of `todo`. */
  ghost predicate GroupedBy(r: seq<Edge>, todo: seq<string>) {
    forall i, j :: 0 <= i < j < |r| ==>
      r[i].to in todo && r[j].to in todo && IndexOf(todo, r[i].to) <= IndexOf(todo, r[j].to)
  }

  /** The critical edges come grouped by their target, in the order of `todo`. */
  lemma {:induction false} CriticalEdgesGrouped(todo: seq<string>, critical: seq<string>, prepared: seq<Task>)
    requires Distinct(todo) && forall c :: c in todo ==> c in Names(prepared)
    ensures GroupedBy(CriticalEdges(todo, critical, prepared), todo)
  {
    if todo != [] {
      var init := todo[..|todo| - 1];
      var c := todo[|todo| - 1];
      var front := CriticalEdges(init, critical, prepared);
      var group := EdgesInto(c, FirstEntry(prepared, c).preds, critical);
      var r := front + group;
      assert CriticalEdges(todo, critical, prepared) == r;
      assert Distinct(init);
      CriticalEdgesGrouped(init, critical, prepared);
      assert GroupedBy(front, init);
      GroupPositions(todo, critical, prepared, front, group);
      forall i, j | 0 <= i < j < |r| ensures r[i].to in todo && r[j].to in todo
                                           && IndexOf(todo, r[i].to) <= IndexOf(todo, r[j].to)
      {
        if j < |front| {
          assert r[i] == front[i] && r[j] == front[j];
        } else if i < |front| {
          assert r[i] == front[i] && r[j] == group[j - |front|];
        } else {
          assert r[i] == group[i - |front|] && r[j] == group[j - |front|];
        }
      }
    }
  }

  /** The edges of the earlier targets sit at positions of `todo` before the
      last one, and the last group all leads to the last target. */
  lemma GroupPositions(todo: seq<string>, critical: seq<string>, prepared: seq<Task>,
                       front: seq<Edge>, group: seq<Edge>)
    requires todo != [] && Distinct(todo) && forall c :: c in todo ==> c in Names(prepared)
    requires front == CriticalEdges(todo[..|todo| - 1], critical, prepared)
    requires group == EdgesInto(todo[|todo| - 1], FirstEntry(prepared, todo[|todo| - 1]).preds, critical)
    ensures forall i :: 0 <= i < |front| ==>
              && front[i].to in todo[..|todo| - 1] && front[i].to in todo
              && IndexOf(todo, front[i].to) == IndexOf(todo[..|todo| - 1], front[i].to) < |todo| - 1
    ensures forall j :: 0 <= j < |group| ==> group[j].to == todo[|todo| - 1]
    ensures IndexOf(todo, todo[|todo| - 1]) == |todo| - 1
  {
    var init := todo[..|todo| - 1];
    CriticalEdgesExact(init, critical, prepared);
    forall i | 0 <= i < |front|
      ensures front[i].to in init && front[i].to in todo
              && IndexOf(todo, front[i].to) == IndexOf(init, front[i].to) < |todo| - 1
    {
      assert front[i] in front;
      IndexOfPrefix(todo, |todo| - 1, front[i].to);
    }
    forall j | 0 <= j < |group| ensures group[j].to == todo[|todo| - 1] {
      assert group[j] in group;
    }
  }

  lemma IndexOfPrefix(s: seq<string>, k: nat, x: string)
    requires k <= |s| && x in s[..k]
    ensures x in s && IndexOf(s, x) == IndexOf(s[..k], x)
  {
    var i := IndexOf(s[..k], x);
    assert s[i] == x;
    var j := IndexOf(s, x);
    IndexOfFirst(s, x);
    assert j <= i;
    assert s[..k][j] == x;
    IndexOfFirst(s[..k], x);
  }

  /** PertApiController.php:86-97. */
  method CollectCriticalEdges(critical: seq<string>, prepared: seq<Task>) returns (edges: seq<Edge>)
    requires forall c :: c in critical ==> c in Names(prepared)
    ensures edges == CriticalEdges(critical, critical, prepared)
  {
    edges := [];
    for i := 0 to |critical|
      invariant edges == CriticalEdges(critical[..i], critical, prepared)
    {
      var c := critical[i];
      var ps := FirstEntry(prepared, c).preds;
      assert critical[..i + 1][..i] == critical[..i];
      for j := 0 to |ps|
        invariant edges == CriticalEdges(critical[..i], critical, prepared) + EdgesInto(c, ps[..j], critical)
      {
        assert ps[..j + 1][..j] == ps[..j];
        if ps[j] in critical {
          edges := edges + [Edge(ps[j], c)];
        }
      }
      assert ps[..|ps|] == ps;
    }
    assert critical[..|critical|] == critical;
  }

  /** The response body. */
  datatype Response = Response(tasks: seq<Row>, projectDuration: int, criticalPath: seq<string>,
                               criticalEdges: seq<Edge>)

  /** The endpoint's answers: the response, a rejected request (status 422
      for a failed validation or an unknown predecessor) or the engine's
      cycle exception (status 500). */
  datatype ApiResult =
    | Ok(response: Response)
    | ValidationFailed
    | UnknownPredecessor(pred: string)
    | CalculationFailed(unsorted: seq<string>)

  /** PertApiController.php:17-24, the rules the model keeps: at least one
      task, every id not blank (`required` refuses a string that trims to
      nothing), durations above 0, and `t0`, when given, at least 1. */
  predicate Valid(tasks: seq<ApiTask>, t0: Option<int>) {
    && |tasks| >= 1
    && (forall i :: 0 <= i < |tasks| ==> Trim(tasks[i].id, IsPhpSpace) != "")
    && (forall i :: 0 <= i < |tasks| ==> tasks[i].duration > 0)
    && (t0.Some? ==> t0.value >= 1)
  }

  /** The rows keep the engine's guarantees: each task's window lies
      between the start and the project finish, its total float is the
      same measured at either end, its free float lies between 0 and the
      total float, and it is critical exactly when its total float is 0. */
  ghost predicate SoundRows(rows: seq<Row>, start: int, duration: int) {
    forall i :: 0 <= i < |rows| ==>
      var w := rows[i];
      && start <= w.earliestStart <= w.earliestFinish <= w.latestFinish <= duration
      && w.latestStart - w.earliestStart == w.latestFinish - w.earliestFinish == w.totalFloat
      && 0 <= w.freeFloat <= w.totalFloat
      && (w.isCritical <==> w.totalFloat == 0)
  }

  /** What a response promises: sound rows, a non-empty critical path,
      exactly the critical edges, and, for unique task names, a level in
      every row. */
  ghost predicate SoundResponse(resp: Response, start: int, prepared: seq<Task>)
    requires forall c :: c in resp.criticalPath ==> c in Names(prepared)
  {
    && SoundRows(resp.tasks, start, resp.projectDuration)
    && resp.criticalPath != []
    && (forall e :: e in resp.criticalEdges <==>
          e.to in resp.criticalPath && e.from in resp.criticalPath
          && e.from in FirstEntry(prepared, e.to).preds)
    && (Distinct(Names(prepared)) ==> forall i :: 0 <= i < |resp.tasks| ==> resp.tasks[i].level.Some?)
  }

  /** What the engine guarantees of a schedule that starts at `start`:
      every ordered task has its dates, its window lies between the start
      and the project finish, its total float is the same measured at
      either end, its free float lies between 0 and the total float, and it
      is critical exactly when its total float is 0; a non-empty order has
      a critical task and a task that finishes at the project finish. */
  ghost predicate SoundSchedule(s: Schedule, start: int) {
    && (forall n :: n in s.order ==>
          && n in s.es && n in s.ef && n in s.ls && n in s.lf && n in s.slack && n in s.freeSlack
          && start <= s.es[n] <= s.ef[n] <= s.lf[n] <= s.duration
          && s.ls[n] - s.es[n] == s.lf[n] - s.ef[n] == s.slack[n]
          && 0 <= s.freeSlack[n] <= s.slack[n]
          && (n in s.critical <==> s.slack[n] == 0))
    && (forall n :: n in s.critical ==> n in s.order)
    && (|s.order| > 0 ==> s.critical != [])
    && (|s.order| > 0 ==> exists n :: n in s.order && s.ef[n] == s.duration)
  }

  /** The schedules the engine returns for a start of at least 0 are sound. */
  lemma ScheduleIsSound(keys: seq<string>, info: map<string, Task>, s: Schedule, start: int)
    requires start >= 0
    requires Scheduled(keys, info, s.order, start, s.es, s.ef, s.duration, s.ls, s.lf)
    requires SlackRule(s.order, keys, info, s.duration, s.es, s.ef, s.ls, s.slack, s.freeSlack)
    requires s.critical == Critical(s.order, s.slack)
    ensures SoundSchedule(s, start)
  {
    ScheduleSound(keys, info, s.order, start, s.es, s.ef, s.duration, s.ls, s.lf);
    SlackSound(keys, info, s.order, start, s.es, s.ef, s.duration, s.ls, s.lf, s.slack, s.freeSlack);
  }

  /** The ids of the rows, in order. */
  function RowIds(rows: seq<Row>): (r: seq<string>)
    ensures |r| == |rows|
    ensures forall i :: 0 <= i < |rows| ==> r[i] == rows[i].id
  {
    seq(|rows|, i requires 0 <= i < |rows| => rows[i].id)
  }

  /** The ids of the rows marked critical, in row order. */
  function CriticalIds(rows: seq<Row>): seq<string> {
    if rows == [] then []
    else
      var last := rows[|rows| - 1];
      CriticalIds(rows[..|rows| - 1]) + (if last.isCritical then [last.id] else [])
  }

  /** What the response is made of: one row per task of the project, in an
      order in which every task follows its predecessors; each row with the
      duration, the predecessors and the diagram level of its task; the
      critical path listing the critical rows in row order; and the project
      duration equal to the latest earliest finish of a row. */
  ghost predicate ResponseOf(resp: Response, prepared: seq<Task>) {
    var rows := resp.tasks;
    && IsTopologicalOrder(RowIds(rows), TableKeys(prepared), TableInfo(prepared))
    && (forall i :: 0 <= i < |rows| ==>
          && rows[i].id in Names(prepared)
          && rows[i].duration == FirstEntry(prepared, rows[i].id).duration
          && rows[i].predecessors == FirstEntry(prepared, rows[i].id).preds
          && rows[i].level == Level(rows[i].id, prepared, |prepared| + 1))
    && resp.criticalPath == CriticalIds(rows)
    && exists i :: 0 <= i < |rows| && rows[i].earliestFinish == resp.projectDuration
  }

  /** The answer to a cycle (PertService.php:38-41): Kahn's algorithm
      stopped at `sorted`, and the tasks named in the error are the keys it
      never reached, of which there is at least one. */
  ghost predicate CycleAnswer(prepared: seq<Task>, unsorted: seq<string>, sorted: seq<string>) {
    var keys, info := TableKeys(prepared), TableInfo(prepared);
    && Keyed(keys, info)
    && KahnOutcome(keys, info, sorted)
    && unsorted == Without(keys, sorted)
    && unsorted != []
  }

  /** The response is the engine's schedule `s` of the prepared tasks from
      `start`, shaped as PertApiController.php:68-104 does: `s` is a
      topological order dated by the forward, finish and backward rules,
      with the slack rule and the zero-slack tasks as critical ones; there
      is one row per ordered task, in order, each with that task's dates and
      floats; the project duration and critical path are the engine's; and
      the critical edges are those between critical tasks. */
  ghost predicate EngineResponse(resp: Response, prepared: seq<Task>, start: int, s: Schedule) {
    var keys, info := TableKeys(prepared), TableInfo(prepared);
    && s.t0 == start
    && IsTopologicalOrder(s.order, keys, info)
    && Scheduled(keys, info, s.order, start, s.es, s.ef, s.duration, s.ls, s.lf)
    && SlackRule(s.order, keys, info, s.duration, s.es, s.ef, s.ls, s.slack, s.freeSlack)
    && s.critical == Critical(s.order, s.slack)
    && (forall n :: n in s.order ==> n in Names(prepared))
    && |resp.tasks| == |s.order|
    && (forall i :: 0 <= i < |s.order| ==> resp.tasks[i] == RowOf(s.order[i], prepared, s))
    && resp.projectDuration == s.duration
    && resp.criticalPath == s.critical
    && resp.criticalEdges == CriticalEdges(s.critical, s.critical, prepared)
  }

  /** Stands for the schedule on the paths where the engine produced none. */
  ghost const NoSchedule: Schedule := Schedule([], map[], map[], map[], map[], map[], map[], [], 0, 0, "")

  /** PertApiController.php:62-104: runs the engine on the prepared tasks
      and shapes its result; `s` and `sorted` are the engine's schedule and
      the order its queue reached. */
  method Respond(prepared: seq<Task>, start: int) returns (r: ApiResult, ghost s: Schedule, ghost sorted: seq<string>)
    requires |prepared| >= 1 && start >= 1
    ensures r.Ok? || r.CalculationFailed?
    ensures r.CalculationFailed? <==> !Schedulable(TableKeys(prepared), TableInfo(prepared))
    ensures r.CalculationFailed? ==> CycleAnswer(prepared, r.unsorted, sorted)
    ensures r.Ok? ==> && EngineResponse(r.response, prepared, start, s)
                      && (forall c :: c in r.response.criticalPath ==> c in Names(prepared))
                      && SoundResponse(r.response, start, prepared)
                      && ResponseOf(r.response, prepared)
  {
    var outcome;
    outcome, sorted := Compute(prepared, start);
    ghost var keys, info := TableKeys(prepared), TableInfo(prepared);
    if outcome.CycleDetected? {
      assert Keyed(keys, info) && KahnOutcome(keys, info, sorted);
      assert outcome.unsorted == Without(keys, sorted) && outcome.unsorted != [];
      r := CalculationFailed(outcome.unsorted);
      s := NoSchedule;
      return;
    }
    s := outcome.schedule;
    ScheduleIsSound(TableKeys(prepared), TableInfo(prepared), s, start);
    r := Shape(prepared, start, outcome.schedule);
  }

  /** PertApiController.php:68-104: the response built from a schedule. */
  method Shape(prepared: seq<Task>, start: int, s: Schedule) returns (r: ApiResult)
    requires |prepared| >= 1
    requires IsTopologicalOrder(s.order, TableKeys(prepared), TableInfo(prepared))
    requires SoundSchedule(s, start)
    requires s.critical == Critical(s.order, s.slack)
    ensures r.Ok? && (forall c :: c in r.response.criticalPath ==> c in Names(prepared))
    ensures |r.response.tasks| == |s.order|
    ensures forall i :: 0 <= i < |s.order| ==> r.response.tasks[i] == RowOf(s.order[i], prepared, s)
    ensures r.response.projectDuration == s.duration && r.response.criticalPath == s.critical
    ensures r.response.criticalEdges == CriticalEdges(s.critical, s.critical, prepared)
    ensures SoundResponse(r.response, start, prepared)
    ensures ResponseOf(r.response, prepared)
  {
    assert forall n :: n in s.order ==> n in Names(prepared);
    assert |s.order| > 0 by {
      assert Names(prepared)[0] in TableKeys(prepared);
    }
    var rows := BuildRows(s.order, prepared, s);
    var edges := CollectCriticalEdges(s.critical, prepared);
    CriticalEdgesExact(s.critical, s.critical, prepared);
    RowsSound(prepared, s, start, rows);
    if Distinct(Names(prepared)) {
      RowLevels(prepared, s.order, s, rows);
    }
    r := Ok(Response(rows, s.duration, s.critical, edges));
    ResponseOfSchedule(prepared, s, start, r.response);
  }

  /** A response built row by row along a sound schedule is made of that
      schedule. */
  lemma ResponseOfSchedule(prepared: seq<Task>, s: Schedule, start: int, resp: Response)
    requires IsTopologicalOrder(s.order, TableKeys(prepared), TableInfo(prepared))
    requires SoundSchedule(s, start)
    requires s.critical == Critical(s.order, s.slack)
    requires forall n :: n in s.order ==> n in Names(prepared)
    requires |resp.tasks| == |s.order| > 0
    requires forall i :: 0 <= i < |s.order| ==> resp.tasks[i] == RowOf(s.order[i], prepared, s)
    requires resp.projectDuration == s.duration && resp.criticalPath == s.critical
    ensures ResponseOf(resp, prepared)
  {
    var rows := resp.tasks;
    RowsOfSchedule(prepared, s, start, rows);
    forall i | 0 <= i < |rows|
      ensures rows[i].id in Names(prepared)
      ensures rows[i].duration == FirstEntry(prepared, rows[i].id).duration
      ensures rows[i].predecessors == FirstEntry(prepared, rows[i].id).preds
      ensures rows[i].level == Level(rows[i].id, prepared, |prepared| + 1)
    {
      assert s.order[i] in s.order;
      assert rows[i] == RowOf(s.order[i], prepared, s);
    }
  }

  /** Rows built from a sound schedule along its order are the response's
      rows: their ids are the order, the critical ones are the critical
      tasks, and some row finishes at the project finish. */
  lemma RowsOfSchedule(prepared: seq<Task>, s: Schedule, start: int, rows: seq<Row>)
    requires SoundSchedule(s, start)
    requires s.critical == Critical(s.order, s.slack)
    requires forall n :: n in s.order ==> n in Names(prepared)
    requires |rows| == |s.order| > 0
    requires forall i :: 0 <= i < |s.order| ==> rows[i] == RowOf(s.order[i], prepared, s)
    ensures RowIds(rows) == s.order
    ensures CriticalIds(rows) == s.critical
    ensures exists i :: 0 <= i < |rows| && rows[i].earliestFinish == s.duration
  {
    forall i | 0 <= i < |rows|
      ensures rows[i].id == s.order[i]
      ensures rows[i].isCritical <==> s.slack[s.order[i]] == 0
      ensures rows[i].earliestFinish == s.ef[s.order[i]]
    {
      RowOfSchedule(prepared, s, start, s.order[i]);
    }
    RowsAlong(rows, s.order, s.slack, s.ef, s.duration);
  }

  /** Rows that follow `order` id by id list the zero-slack tasks as their
      critical ones, and one of them finishes at `finish` when one ordered
      task does. */
  lemma RowsAlong(rows: seq<Row>, order: seq<string>, slack: map<string, int>,
                  ef: map<string, int>, finish: int)
    requires |rows| == |order| && forall n :: n in order ==> n in slack && n in ef
    requires forall i :: 0 <= i < |rows| ==>
               && rows[i].id == order[i]
               && (rows[i].isCritical <==> slack[order[i]] == 0)
               && rows[i].earliestFinish == ef[order[i]]
    requires exists n :: n in order && ef[n] == finish
    ensures RowIds(rows) == order
    ensures CriticalIds(rows) == Critical(order, slack)
    ensures exists i :: 0 <= i < |rows| && rows[i].earliestFinish == finish
  {
    assert RowIds(rows) == order;
    CriticalIdsMatch(rows, order, slack);
    var n :| n in order && ef[n] == finish;
    var k := IndexOf(order, n);
    assert rows[k].earliestFinish == finish;
  }

  /** The row of an ordered task carries its id, its finish and its
      criticality. */
  lemma RowOfSchedule(prepared: seq<Task>, s: Schedule, start: int, n: string)
    requires SoundSchedule(s, start)
    requires n in s.order && n in Names(prepared)
    ensures RowOf(n, prepared, s).id == n
    ensures RowOf(n, prepared, s).isCritical <==> s.slack[n] == 0
    ensures RowOf(n, prepared, s).earliestFinish == s.ef[n]
  {
  }

  /** The critical rows, in row order, are the zero-slack tasks of the
      order the rows follow. */
  lemma {:induction false} CriticalIdsMatch(rows: seq<Row>, order: seq<string>, slack: map<string, int>)
    requires |rows| == |order| && forall n :: n in order ==> n in slack
    requires forall i :: 0 <= i < |rows| ==>
               rows[i].id == order[i] && (rows[i].isCritical <==> slack[order[i]] == 0)
    ensures CriticalIds(rows) == Critical(order, slack)
  {
    if rows != [] {
      var n := |rows| - 1;
      var init, rowsInit := order[..n], rows[..n];
      assert forall m :: m in init ==> m in order by {
        forall m | m in init ensures m in order {
          var j :| 0 <= j < |init| && init[j] == m;
          assert order[j] == m;
        }
      }
      forall i | 0 <= i < |rowsInit|
        ensures rowsInit[i].id == init[i] && (rowsInit[i].isCritical <==> slack[init[i]] == 0)
      {
        assert rowsInit[i] == rows[i] && init[i] == order[i];
      }
      CriticalIdsMatch(rowsInit, init, slack);
      assert CriticalIds(rows) == CriticalIds(rowsInit) + (if rows[n].isCritical then [rows[n].id] else []);
      assert Critical(order, slack) == Critical(init, slack) + (if slack[order[n]] == 0 then [order[n]] else []);
    }
  }

  /** PertApiController.php:13-126 (`calculate`), without the file the
      endpoint saves. */
  method Calculate(tasks: seq<ApiTask>, t0: Option<int>) returns (r: ApiResult, ghost s: Schedule, ghost sorted: seq<string>)
    ensures r.ValidationFailed? <==> !Valid(tasks, t0)
    ensures Valid(tasks, t0) ==>
              var prepared := Prepared(tasks);
              && (r.UnknownPredecessor? <==> FirstUnknown(prepared, Names(prepared)).Some?)
              && (r.UnknownPredecessor? ==> r.pred == FirstUnknown(prepared, Names(prepared)).value)
              && (r.CalculationFailed? <==>
                    FirstUnknown(prepared, Names(prepared)).None?
                    && !Schedulable(TableKeys(prepared), TableInfo(prepared)))
              && (r.CalculationFailed? ==> CycleAnswer(prepared, r.unsorted, sorted))
    ensures r.Ok? ==>
              var start := if t0.Some? then t0.value else 1;
              && EngineResponse(r.response, Prepared(tasks), start, s)
              && (forall c :: c in r.response.criticalPath ==> c in Names(Prepared(tasks)))
              && SoundResponse(r.response, start, Prepared(tasks))
              && ResponseOf(r.response, Prepared(tasks))
  {
    if !Valid(tasks, t0) {
      r, s, sorted := ValidationFailed, NoSchedule, [];
      return;
    }
    var prepared, validNames := Prepare(tasks);
    assert prepared == Prepared(tasks);
    var missing := CheckPredecessors(prepared, validNames);
    if missing.Some? {
      r, s, sorted := UnknownPredecessor(missing.value), NoSchedule, [];
      return;
    }
    r, s, sorted := Respond(prepared, if t0.Some? then t0.value else 1);
  }

  /** The rows carry the engine's guarantees. */
  lemma RowsSound(prepared: seq<Task>, s: Schedule, start: int, rows: seq<Row>)
    requires SoundSchedule(s, start)
    requires forall n :: n in s.order ==> n in Names(prepared)
    requires |rows| == |s.order|
    requires forall i :: 0 <= i < |s.order| ==> rows[i] == RowOf(s.order[i], prepared, s)
    ensures SoundRows(rows, start, s.duration)
  {
    forall i | 0 <= i < |rows|
      ensures var w := rows[i];
              && start <= w.earliestStart <= w.earliestFinish <= w.latestFinish <= s.duration
              && w.latestStart - w.earliestStart == w.latestFinish - w.earliestFinish == w.totalFloat
              && 0 <= w.freeFloat <= w.totalFloat
              && (w.isCritical <==> w.totalFloat == 0)
    {
      assert s.order[i] in s.order;
    }
  }

  /** With unique task names every row of the engine's order has a level. */
  lemma RowLevels(prepared: seq<Task>, order: seq<string>, s: Schedule, rows: seq<Row>)
    requires Distinct(Names(prepared))
    requires IsTopologicalOrder(order, TableKeys(prepared), TableInfo(prepared))
    requires forall n :: n in order ==> n in Names(prepared)
    requires |rows| == |order|
    requires forall i :: 0 <= i < |order| ==> rows[i] == RowOf(order[i], prepared, s)
    ensures forall i :: 0 <= i < |rows| ==> rows[i].level.Some?
  {
    var info := TableInfo(prepared);
    assert Distinct(order) && Precedes(order, info);
    OrderPrecedesFirstEntries(prepared, info, order);
    SubsetLength(order, Names(prepared));
    LevelsDefined(prepared, order);
    forall i | 0 <= i < |rows| ensures rows[i].level.Some? {
      assert rows[i].level == Level(order[i], prepared, |prepared| + 1);
    }
  }

  /** With unique task names, the engine's order lists every name after
      the predecessors of its first entry. */
  lemma OrderPrecedesFirstEntries(prepared: seq<Task>, info: map<string, Task>, order: seq<string>)
    requires Distinct(Names(prepared)) && info == TableInfo(prepared)
    requires Distinct(order) && Precedes(order, info)
    requires forall n :: n in order ==> n in Names(prepared)
    ensures FirstEntriesPrecede(order, prepared)
  {
    forall i | 0 <= i < |order| ensures FirstEntryPrecedes(order, prepared, i) {
      PrecedesFirstEntryAt(prepared, info, order, i);
    }
  }

  lemma PrecedesFirstEntryAt(prepared: seq<Task>, info: map<string, Task>, order: seq<string>, i: nat)
    requires Distinct(Names(prepared)) && info == TableInfo(prepared)
    requires Precedes(order, info) && i < |order|
    requires forall n :: n in order ==> n in Names(prepared)
    ensures FirstEntryPrecedes(order, prepared, i)
  {
    assert order[i] in order;
    FirstEntryIsTableEntry(prepared, order[i]);
  }

  /** With unique task names every level recursion ends within the depth
      the model allows. */
  lemma LevelsDefined(prepared: seq<Task>, order: seq<string>)
    requires FirstEntriesPrecede(order, prepared) && |order| <= |prepared|
    ensures forall i :: 0 <= i < |order| ==> Level(order[i], prepared, |prepared| + 1).Some?
  {
    forall i | 0 <= i < |order| ensures Level(order[i], prepared, |prepared| + 1).Some? {
      LevelDefinedAt(order, prepared, i);
    }
  }

  lemma LevelDefinedAt(w: seq<string>, tasks: seq<Task>, i: nat)
    requires FirstEntriesPrecede(w, tasks) && i < |w| <= |tasks|
    ensures Level(w[i], tasks, |tasks| + 1).Some?
  {
    LevelDefined(w, tasks, i);
    LevelMoreFuel(w[i], tasks, i + 1, |tasks| + 1);
  }
}
