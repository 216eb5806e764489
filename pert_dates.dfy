/** The date computations of the scheduling engine: the forward pass (earliest
    start and finish), the project finish, the backward pass (latest start and
    finish), and total and free slack with the critical tasks. All dates are
    integers; a task of duration d that starts on day s finishes on day
    s + d - 1. */
module PertDates {
  import opened Wrappers
  import opened Seqs
  import opened PertGraph

  /** The larger of `base` and the earliest finishes recorded in `ef` for the
      entries of `ps` (entries without a recorded finish are skipped). */
  function LatestFinish(base: int, ps: seq<string>, ef: map<string, int>): (r: int)
    ensures r >= base
    ensures forall p :: p in ps && p in ef ==> r >= ef[p]
    ensures r == base || exists p :: p in ps && p in ef && r == ef[p]
  {
    if ps == [] then base
    else
      var r0 := LatestFinish(base, ps[..|ps| - 1], ef);
      var p := ps[|ps| - 1];
      assert ps == ps[..|ps| - 1] + [p];
      if p in ef && ef[p] > r0 then ef[p] else r0
  }

  /** The smallest date recorded in `m` for the names of `ss`, or None when
      none of them has one (PHP's `PHP_INT_MAX` sentinel). */
  function EarliestOf(ss: seq<string>, m: map<string, int>): (r: Option<int>)
    ensures r.None? <==> forall s :: s in ss ==> s !in m
    ensures r.Some? ==> forall s :: s in ss && s in m ==> r.value <= m[s]
    ensures r.Some? ==> exists s :: s in ss && s in m && r.value == m[s]
  {
    if ss == [] then None
    else
      var r0 := EarliestOf(ss[..|ss| - 1], m);
      var s := ss[|ss| - 1];
      assert ss == ss[..|ss| - 1] + [s];
      if s in m && (r0.None? || m[s] < r0.value) then Some(m[s]) else r0
  }

  lemma {:induction false} LatestFinishFrame(base: int, ps: seq<string>, ef: map<string, int>, n: string, v: int)
    requires n !in ps
    ensures LatestFinish(base, ps, ef[n := v]) == LatestFinish(base, ps, ef)
  {
    if ps != [] {
      LatestFinishFrame(base, ps[..|ps| - 1], ef, n, v);
    }
  }

  lemma {:induction false} EarliestOfFrame(ss: seq<string>, m: map<string, int>, n: string, v: int)
    requires n !in ss
    ensures EarliestOf(ss, m[n := v]) == EarliestOf(ss, m)
  {
    if ss != [] {
      EarliestOfFrame(ss[..|ss| - 1], m, n, v);
    }
  }

  /** The earliest start of a task: the project start for a task without
      predecessors, otherwise the day after the latest predecessor finish (but
      never before the project start). */
  function EarliestStart(t0: int, ps: seq<string>, ef: map<string, int>): int {
    if |ps| == 0 then t0 else LatestFinish(t0 - 1, ps, ef) + 1
  }

  /** The forward-pass equations, for every ordered task. */
  ghost predicate ForwardRule(order: seq<string>, info: map<string, Task>, t0: int,
                              es: map<string, int>, ef: map<string, int>)
  {
    forall n :: n in order ==>
      && n in info && n in es && n in ef
      && es[n] == EarliestStart(t0, info[n].preds, ef)
      && ef[n] == es[n] + Duration(info[n]) - 1
  }

  /** The forward-pass equations hold for the first `i` tasks of the order,
      and the date maps hold exactly those tasks. */
  ghost predicate ForwardUpTo(order: seq<string>, info: map<string, Task>, t0: int,
                              es: map<string, int>, ef: map<string, int>, i: nat)
    requires i <= |order| && Precedes(order, info)
  {
    && es.Keys == Elements(order[..i]) && ef.Keys == Elements(order[..i])
    && forall j :: 0 <= j < i ==>
         && es[order[j]] == EarliestStart(t0, info[order[j]].preds, ef)
         && ef[order[j]] == es[order[j]] + Duration(info[order[j]]) - 1
  }

  /** Scheduling task `order[i]` keeps the forward-pass equations of the tasks
      before it: none of them lists a task that comes later. */
  lemma ForwardStep(order: seq<string>, info: map<string, Task>, t0: int,
                    es: map<string, int>, ef: map<string, int>, i: nat, start: int, finish: int)
    requires Distinct(order) && Precedes(order, info) && i < |order|
    requires ForwardUpTo(order, info, t0, es, ef, i)
    requires start == EarliestStart(t0, info[order[i]].preds, ef)
    requires finish == start + Duration(info[order[i]]) - 1
    ensures ForwardUpTo(order, info, t0, es[order[i] := start], ef[order[i] := finish], i + 1)
  {
    var n := order[i];
    var ps := info[n].preds;
    assert n !in ps by {
      if n in ps {
        PredecessorEarlier(order, info, i, n);
      }
    }
    LatestFinishFrame(t0 - 1, ps, ef, n, finish);
    forall j | 0 <= j < i
      ensures EarliestStart(t0, info[order[j]].preds, ef[n := finish]) == EarliestStart(t0, info[order[j]].preds, ef)
    {
      ForwardKeeps(order, info, t0, ef, i, j, finish);
    }
    ForwardExtend(order, info, t0, es, ef, i, start, finish);
  }

  /** The bookkeeping half of `ForwardStep`: adding the dates of `order[i]`
      to maps that hold the earlier tasks. */
  lemma ForwardExtend(order: seq<string>, info: map<string, Task>, t0: int,
                      es: map<string, int>, ef: map<string, int>, i: nat, start: int, finish: int)
    requires Precedes(order, info) && Distinct(order) && i < |order|
    requires ForwardUpTo(order, info, t0, es, ef, i)
    requires start == EarliestStart(t0, info[order[i]].preds, ef[order[i] := finish])
    requires finish == start + Duration(info[order[i]]) - 1
    requires forall j :: 0 <= j < i ==>
      EarliestStart(t0, info[order[j]].preds, ef[order[i] := finish]) == EarliestStart(t0, info[order[j]].preds, ef)
    ensures ForwardUpTo(order, info, t0, es[order[i] := start], ef[order[i] := finish], i + 1)
  {
    var n := order[i];
    assert order[..i + 1] == order[..i] + [n];
    assert Elements(order[..i + 1]) == Elements(order[..i]) + {n};
    assert forall j :: 0 <= j < i ==> order[j] != n;
  }

  /** Recording a finish for `order[i]` does not change the earliest start of
      an earlier task. */
  lemma ForwardKeeps(order: seq<string>, info: map<string, Task>, t0: int, ef: map<string, int>,
                     i: nat, j: nat, v: int)
    requires Distinct(order) && Precedes(order, info) && j < i < |order|
    ensures EarliestStart(t0, info[order[j]].preds, ef[order[i] := v])
         == EarliestStart(t0, info[order[j]].preds, ef)
  {
    assert order[i] !in order[..j];
    LatestFinishFrame(t0 - 1, info[order[j]].preds, ef, order[i], v);
  }

  /** PertService.php:51-62: the earliest start of a task with predecessor
      list `ps`, by a scan of the list. */
  method StartOf(t0: int, ps: seq<string>, ef: map<string, int>) returns (start: int)
    ensures start == EarliestStart(t0, ps, ef)
  {
    if |ps| == 0 {
      return t0;
    }
    var latest := t0 - 1;
    for k := 0 to |ps|
      invariant latest == LatestFinish(t0 - 1, ps[..k], ef)
    {
      assert ps[..k + 1][..k] == ps[..k];
      if ps[k] in ef && ef[ps[k]] > latest {
        latest := ef[ps[k]];
      }
    }
    assert ps[..|ps|] == ps;
    start := latest + 1;
  }

  /** PertService.php:46-66. Forward pass over the topological order. */
  method ForwardPass(order: seq<string>, info: map<string, Task>, t0: int)
    returns (es: map<string, int>, ef: map<string, int>)
    requires Distinct(order) && Precedes(order, info)
    ensures es.Keys == Elements(order) && ef.Keys == Elements(order)
    ensures ForwardRule(order, info, t0, es, ef)
    ensures forall n :: n in order ==> es[n] >= t0 && ef[n] >= es[n]
    ensures forall n, p :: n in order && p in info[n].preds ==> p in ef && es[n] > ef[p]
  {
    es, ef := map[], map[];
    for i := 0 to |order|
      invariant ForwardUpTo(order, info, t0, es, ef, i)
    {
      es, ef := ScheduleEarliest(order, info, t0, es, ef, i);
    }
    ForwardDone(order, info, t0, es, ef);
  }

  /** PertService.php:50-65, one task of the forward pass: records the
      earliest start and finish of `order[i]`. */
  method ScheduleEarliest(order: seq<string>, info: map<string, Task>, t0: int,
                          es0: map<string, int>, ef0: map<string, int>, i: nat)
    returns (es: map<string, int>, ef: map<string, int>)
    requires Distinct(order) && Precedes(order, info) && i < |order|
    requires ForwardUpTo(order, info, t0, es0, ef0, i)
    ensures ForwardUpTo(order, info, t0, es, ef, i + 1)
  {
    var start := StartOf(t0, info[order[i]].preds, ef0);
    var finish := start + Duration(info[order[i]]) - 1;
    ForwardStep(order, info, t0, es0, ef0, i, start, finish);
    es, ef := es0[order[i] := start], ef0[order[i] := finish];
  }

  /** Once every task is scheduled, the forward-pass equations hold for the
      whole order: each task starts no earlier than the project start, after
      every predecessor finishes, and finishes no earlier than it starts. */
  lemma ForwardDone(order: seq<string>, info: map<string, Task>, t0: int,
                    es: map<string, int>, ef: map<string, int>)
    requires Distinct(order) && Precedes(order, info)
    requires ForwardUpTo(order, info, t0, es, ef, |order|)
    ensures es.Keys == Elements(order) && ef.Keys == Elements(order)
    ensures ForwardRule(order, info, t0, es, ef)
    ensures forall n :: n in order ==> es[n] >= t0 && ef[n] >= es[n]
    ensures forall n, p :: n in order && p in info[n].preds ==> p in ef && es[n] > ef[p]
  {
    assert order[..|order|] == order;
    forall n, p | n in order && p in info[n].preds ensures p in ef && es[n] > ef[p] {
      var i :| 0 <= i < |order| && order[i] == n;
      assert p in order[..i];
    }
  }

  /** PertService.php:69-74. The project finish: the project start, raised to
      every positive earliest finish. */
  method ProjectFinish(order: seq<string>, ef: map<string, int>, t0: int) returns (finish: int)
    requires forall n :: n in order ==> n in ef
    ensures finish >= t0
    ensures forall n :: n in order && ef[n] > 0 ==> finish >= ef[n]
    ensures finish == t0 || exists n :: n in order && ef[n] > 0 && finish == ef[n]
  {
    finish := t0;
    for i := 0 to |order|
      invariant finish >= t0
      invariant forall j :: 0 <= j < i && ef[order[j]] > 0 ==> finish >= ef[order[j]]
      invariant finish == t0 || exists j :: 0 <= j < i && ef[order[j]] > 0 && finish == ef[order[j]]
    {
      var value := ef[order[i]];
      if value > 0 && value > finish {
        finish := value;
      }
    }
  }

  /** The latest finish of a task: the project finish for a task nobody
      depends on, otherwise the day before the earliest latest start of its
      successors (the project finish standing in when none has one yet). */
  function LatestFinishOf(finish: int, succ: seq<string>, ls: map<string, int>): int {
    if succ == [] then finish
    else match EarliestOf(succ, ls)
      case None => finish - 1
      case Some(v) => v - 1
  }

  /** The backward-pass equations, for every ordered task. */
  ghost predicate BackwardRule(order: seq<string>, keys: seq<string>, info: map<string, Task>, finish: int,
                               ls: map<string, int>, lf: map<string, int>)
    requires forall k :: k in keys ==> k in info
  {
    forall n :: n in order ==>
      && n in info && n in ls && n in lf
      && lf[n] == LatestFinishOf(finish, Successors(keys, info, n), ls)
      && ls[n] == lf[n] - Duration(info[n]) + 1
  }

  /** PertService.php:81-84, 118-119: the tasks that list `n`, by a scan of
      the table. */
  method SuccessorList(keys: seq<string>, info: map<string, Task>, n: string) returns (succ: seq<string>)
    requires forall k :: k in keys ==> k in info
    ensures succ == Successors(keys, info, n)
  {
    succ := [];
    for i := 0 to |keys|
      invariant succ == Successors(keys[..i], info, n)
    {
      assert keys[..i + 1] == keys[..i] + [keys[i]];
      if n in info[keys[i]].preds {
        succ := succ + [keys[i]];
      }
    }
    assert keys[..|keys|] == keys;
  }

  /** The backward-pass equations hold for the tasks of the order from
      position `i` on, and the date maps hold exactly those tasks. */
  ghost predicate BackwardFrom(order: seq<string>, keys: seq<string>, info: map<string, Task>, finish: int,
                               ls: map<string, int>, lf: map<string, int>, i: nat)
    requires (forall k :: k in keys ==> k in info) && Precedes(order, info) && i <= |order|
  {
    && ls.Keys == Elements(order[i..]) && lf.Keys == Elements(order[i..])
    && BackwardEquations(order, keys, info, finish, ls, lf, i)
  }

  ghost predicate BackwardEquations(order: seq<string>, keys: seq<string>, info: map<string, Task>, finish: int,
                                    ls: map<string, int>, lf: map<string, int>, i: nat)
    requires (forall k :: k in keys ==> k in info) && Precedes(order, info) && i <= |order|
  {
    forall j :: i <= j < |order| ==>
      && order[j] in ls && order[j] in lf
      && lf[order[j]] == LatestFinishOf(finish, Successors(keys, info, order[j]), ls)
      && ls[order[j]] == lf[order[j]] - Duration(info[order[j]]) + 1
  }

  /** Scheduling task `order[i]` keeps the backward-pass equations of the
      tasks after it: none of them is a successor of a task that comes later. */
  lemma BackwardStep(order: seq<string>, keys: seq<string>, info: map<string, Task>, finish: int,
                     ls: map<string, int>, lf: map<string, int>, i: nat, latest: int, start: int)
    requires (forall k :: k in keys ==> k in info) && Distinct(order) && Precedes(order, info) && i < |order|
    requires BackwardFrom(order, keys, info, finish, ls, lf, i + 1)
    requires latest == LatestFinishOf(finish, Successors(keys, info, order[i]), ls)
    requires start == latest - Duration(info[order[i]]) + 1
    ensures BackwardFrom(order, keys, info, finish, ls[order[i] := start], lf[order[i] := latest], i)
  {
    BackwardKeepsAll(order, keys, info, finish, ls, i, start);
    BackwardExtend(order, keys, info, finish, ls, lf, i, start, latest);
  }

  lemma BackwardKeepsAll(order: seq<string>, keys: seq<string>, info: map<string, Task>, finish: int,
                         ls: map<string, int>, i: nat, v: int)
    requires (forall k :: k in keys ==> k in info) && Distinct(order) && Precedes(order, info) && i < |order|
    ensures forall j :: i <= j < |order| ==>
      LatestFinishOf(finish, Successors(keys, info, order[j]), ls[order[i] := v])
        == LatestFinishOf(finish, Successors(keys, info, order[j]), ls)
  {
    forall j | i <= j < |order|
      ensures LatestFinishOf(finish, Successors(keys, info, order[j]), ls[order[i] := v])
           == LatestFinishOf(finish, Successors(keys, info, order[j]), ls)
    {
      BackwardKeeps(order, keys, info, finish, ls, i, j, v);
    }
  }

  /** Recording a latest start for `order[i]` does not change the latest
      finish of `order[i]` itself or of a later task. */
  lemma BackwardKeeps(order: seq<string>, keys: seq<string>, info: map<string, Task>, finish: int,
                      ls: map<string, int>, i: nat, j: nat, v: int)
    requires (forall k :: k in keys ==> k in info) && Distinct(order) && Precedes(order, info) && i <= j < |order|
    ensures LatestFinishOf(finish, Successors(keys, info, order[j]), ls[order[i] := v])
         == LatestFinishOf(finish, Successors(keys, info, order[j]), ls)
  {
    var succ := Successors(keys, info, order[j]);
    assert order[j] !in order[..i];
    EarliestOfFrame(succ, ls, order[i], v);
  }

  /** The bookkeeping half of `BackwardStep`: adding the dates of `order[i]`
      to maps that hold the later tasks. */
  lemma BackwardExtend(order: seq<string>, keys: seq<string>, info: map<string, Task>, finish: int,
                       ls: map<string, int>, lf: map<string, int>, i: nat, start: int, latest: int)
    requires (forall k :: k in keys ==> k in info) && Precedes(order, info)
    requires Distinct(order) && i < |order|
    requires BackwardFrom(order, keys, info, finish, ls, lf, i + 1)
    requires latest == LatestFinishOf(finish, Successors(keys, info, order[i]), ls[order[i] := start])
    requires start == latest - Duration(info[order[i]]) + 1
    requires forall j :: i < j < |order| ==>
      LatestFinishOf(finish, Successors(keys, info, order[j]), ls[order[i] := start])
        == LatestFinishOf(finish, Successors(keys, info, order[j]), ls)
    ensures BackwardFrom(order, keys, info, finish, ls[order[i] := start], lf[order[i] := latest], i)
  {
    KeysExtend(ls, order, i, start);
    KeysExtend(lf, order, i, latest);
    BackwardEquationsExtend(order, keys, info, finish, ls, lf, i, start, latest);
  }

  /** Recording `order[i]` in a map that holds the tasks after it makes it
      hold the tasks from `i` on. */
  lemma KeysExtend(m: map<string, int>, order: seq<string>, i: nat, v: int)
    requires i < |order| && m.Keys == Elements(order[i + 1..])
    ensures m[order[i] := v].Keys == Elements(order[i..])
  {
    ElementsFrom(order, i);
  }

  lemma BackwardEquationsExtend(order: seq<string>, keys: seq<string>, info: map<string, Task>, finish: int,
                                ls: map<string, int>, lf: map<string, int>, i: nat, start: int, latest: int)
    requires (forall k :: k in keys ==> k in info) && Precedes(order, info)
    requires Distinct(order) && i < |order|
    requires BackwardEquations(order, keys, info, finish, ls, lf, i + 1)
    requires latest == LatestFinishOf(finish, Successors(keys, info, order[i]), ls[order[i] := start])
    requires start == latest - Duration(info[order[i]]) + 1
    requires forall j :: i < j < |order| ==>
      LatestFinishOf(finish, Successors(keys, info, order[j]), ls[order[i] := start])
        == LatestFinishOf(finish, Successors(keys, info, order[j]), ls)
    ensures BackwardEquations(order, keys, info, finish, ls[order[i] := start], lf[order[i] := latest], i)
  {
    var n := order[i];
    var ls', lf' := ls[n := start], lf[n := latest];
    forall j | i <= j < |order|
      ensures && order[j] in ls' && order[j] in lf'
              && lf'[order[j]] == LatestFinishOf(finish, Successors(keys, info, order[j]), ls')
              && ls'[order[j]] == lf'[order[j]] - Duration(info[order[j]]) + 1
    {
      if j > i {
        assert order[j] != n;
      }
    }
  }

  lemma ElementsUpTo(s: seq<string>, i: nat)
    requires i < |s|
    ensures Elements(s[..i + 1]) == Elements(s[..i]) + {s[i]}
  {
    assert s[..i + 1] == s[..i] + [s[i]];
  }

  lemma ElementsFrom(s: seq<string>, i: nat)
    requires i < |s|
    ensures Elements(s[i..]) == Elements(s[i + 1..]) + {s[i]}
  {
    assert s[i..] == [s[i]] + s[i + 1..];
  }

  /** PertService.php:80-102: the latest finish of a task with successors
      `succ`, by a scan of the successors. */
  method FinishOf(finish: int, succ: seq<string>, ls: map<string, int>) returns (latest: int)
    ensures latest == LatestFinishOf(finish, succ, ls)
  {
    if succ == [] {
      return finish;
    }
    var earliest: Option<int> := None;
    for k := 0 to |succ|
      invariant earliest == EarliestOf(succ[..k], ls)
    {
      assert succ[..k + 1][..k] == succ[..k];
      if succ[k] in ls && (earliest.None? || ls[succ[k]] < earliest.value) {
        earliest := Some(ls[succ[k]]);
      }
    }
    assert succ[..|succ|] == succ;
    latest := if earliest.None? then finish - 1 else earliest.value - 1;
  }

  /** PertService.php:79-104: the dates of one task of the reversed order. */
  method BackwardVisit(order: seq<string>, keys: seq<string>, info: map<string, Task>, finish: int,
                       ls: map<string, int>, lf: map<string, int>, i: nat)
    returns (ls': map<string, int>, lf': map<string, int>)
    requires (forall k :: k in keys ==> k in info) && Distinct(order) && Precedes(order, info) && i < |order|
    requires BackwardFrom(order, keys, info, finish, ls, lf, i + 1)
    ensures BackwardFrom(order, keys, info, finish, ls', lf', i)
  {
    var succ := SuccessorList(keys, info, order[i]);
    var latest := FinishOf(finish, succ, ls);
    var start := latest - Duration(info[order[i]]) + 1;
    BackwardStep(order, keys, info, finish, ls, lf, i, latest, start);
    ls' := ls[order[i] := start];
    lf' := lf[order[i] := latest];
  }

  /** PertService.php:77-106. Backward pass over the reversed topological
      order. */
  method BackwardPass(order: seq<string>, keys: seq<string>, info: map<string, Task>, finish: int)
    returns (ls: map<string, int>, lf: map<string, int>)
    requires Keyed(keys, info) && IsTopologicalOrder(order, keys, info)
    ensures ls.Keys == Elements(order) && lf.Keys == Elements(order)
    ensures BackwardRule(order, keys, info, finish, ls, lf)
  {
    ls, lf := map[], map[];
    var i := |order|;
    assert forall k :: k in keys ==> k in info;
    while i > 0
      invariant 0 <= i <= |order|
      invariant BackwardFrom(order, keys, info, finish, ls, lf, i)
    {
      i := i - 1;
      ls, lf := BackwardVisit(order, keys, info, finish, ls, lf, i);
    }
    assert order[0..] == order;
  }
}

module PertSlack {
  import opened Wrappers
  import opened Seqs
  import opened PertGraph
  import opened PertDates

  /** The free slack of a task finishing on `ef`: the days until the earliest
      start of its successors, or until the project finish for a task nobody
      depends on (or whose successors have no date). */
  function FreeSlackOf(finish: int, succ: seq<string>, es: map<string, int>, ef: int): int {
    if succ == [] then finish - ef
    else match EarliestOf(succ, es)
      case None => finish - ef
      case Some(v) => v - 1 - ef
  }

  /** The tasks of `order` whose total slack is zero, in order. */
  function Critical(order: seq<string>, slack: map<string, int>): (r: seq<string>)
    requires forall n :: n in order ==> n in slack
    ensures forall n :: n in r <==> n in order && slack[n] == 0
    ensures Distinct(order) ==> Distinct(r)
    ensures |r| <= |order|
  {
    if order == [] then []
    else
      var init := order[..|order| - 1];
      var last := order[|order| - 1];
      assert order == init + [last];
      Critical(init, slack) + (if slack[last] == 0 then [last] else [])
  }

  /** The slack equations, for every ordered task. */
  ghost predicate SlackRule(order: seq<string>, keys: seq<string>, info: map<string, Task>, finish: int,
                            es: map<string, int>, ef: map<string, int>, ls: map<string, int>,
                            slack: map<string, int>, freeSlack: map<string, int>)
    requires forall k :: k in keys ==> k in info
  {
    forall n :: n in order ==>
      && n in es && n in ef && n in ls && n in slack && n in freeSlack
      && slack[n] == ls[n] - es[n]
      && freeSlack[n] == FreeSlackOf(finish, Successors(keys, info, n), es, ef[n])
  }

  /** PertService.php:119-128: the free slack of one task, by a scan of its
      successors. */
  method FreeSlackScan(finish: int, succ: seq<string>, es: map<string, int>, ef: int) returns (free: int)
    ensures free == FreeSlackOf(finish, succ, es, ef)
  {
    if succ == [] {
      return finish - ef;
    }
    var earliest: Option<int> := None;
    for k := 0 to |succ|
      invariant earliest == EarliestOf(succ[..k], es)
    {
      assert succ[..k + 1][..k] == succ[..k];
      if succ[k] in es && (earliest.None? || es[succ[k]] < earliest.value) {
        earliest := Some(es[succ[k]]);
      }
    }
    assert succ[..|succ|] == succ;
    free := if earliest.None? then finish - ef else earliest.value - 1 - ef;
  }

  /** The slack equations and the critical list hold for the first `i` tasks
      of the order, and the slack maps hold exactly those tasks. */
  ghost predicate SlackUpTo(order: seq<string>, keys: seq<string>, info: map<string, Task>, finish: int,
                            es: map<string, int>, ef: map<string, int>, ls: map<string, int>,
                            slack: map<string, int>, freeSlack: map<string, int>, critical: seq<string>, i: nat)
    requires forall k :: k in keys ==> k in info
    requires forall n :: n in order ==> n in es && n in ef && n in ls
    requires i <= |order|
  {
    && slack.Keys == Elements(order[..i]) && freeSlack.Keys == Elements(order[..i])
    && SlackEquations(order, keys, info, finish, es, ef, ls, slack, freeSlack, i)
    && critical == Critical(order[..i], slack)
  }

  ghost predicate SlackEquations(order: seq<string>, keys: seq<string>, info: map<string, Task>, finish: int,
                                 es: map<string, int>, ef: map<string, int>, ls: map<string, int>,
                                 slack: map<string, int>, freeSlack: map<string, int>, i: nat)
    requires forall k :: k in keys ==> k in info
    requires forall n :: n in order ==> n in es && n in ef && n in ls
    requires i <= |order|
  {
    forall j :: 0 <= j < i ==>
      && order[j] in slack && order[j] in freeSlack
      && slack[order[j]] == ls[order[j]] - es[order[j]]
      && freeSlack[order[j]] == FreeSlackOf(finish, Successors(keys, info, order[j]), es, ef[order[j]])
  }

  lemma SlackEquationsExtend(order: seq<string>, keys: seq<string>, info: map<string, Task>, finish: int,
                             es: map<string, int>, ef: map<string, int>, ls: map<string, int>,
                             slack: map<string, int>, freeSlack: map<string, int>, i: nat, total: int, free: int)
    requires forall k :: k in keys ==> k in info
    requires Distinct(order)
    requires forall n :: n in order ==> n in es && n in ef && n in ls
    requires i < |order|
    requires SlackEquations(order, keys, info, finish, es, ef, ls, slack, freeSlack, i)
    requires total == ls[order[i]] - es[order[i]]
    requires free == FreeSlackOf(finish, Successors(keys, info, order[i]), es, ef[order[i]])
    ensures SlackEquations(order, keys, info, finish, es, ef, ls, slack[order[i] := total],
                           freeSlack[order[i] := free], i + 1)
  {
    assert forall j :: 0 <= j < i ==> order[j] != order[i];
  }

  lemma SlackStep(order: seq<string>, keys: seq<string>, info: map<string, Task>, finish: int,
                  es: map<string, int>, ef: map<string, int>, ls: map<string, int>,
                  slack: map<string, int>, freeSlack: map<string, int>, critical: seq<string>, i: nat,
                  total: int, free: int)
    requires forall k :: k in keys ==> k in info
    requires Distinct(order)
    requires forall n :: n in order ==> n in es && n in ef && n in ls
    requires i < |order|
    requires SlackUpTo(order, keys, info, finish, es, ef, ls, slack, freeSlack, critical, i)
    requires total == ls[order[i]] - es[order[i]]
    requires free == FreeSlackOf(finish, Successors(keys, info, order[i]), es, ef[order[i]])
    ensures SlackUpTo(order, keys, info, finish, es, ef, ls, slack[order[i] := total], freeSlack[order[i] := free],
                      critical + (if total == 0 then [order[i]] else []), i + 1)
  {
    CriticalStep(order, slack, critical, i, total);
    KeysStep(freeSlack, order, i, free);
    SlackEquationsExtend(order, keys, info, finish, es, ef, ls, slack, freeSlack, i, total, free);
  }

  lemma KeysStep(m: map<string, int>, order: seq<string>, i: nat, v: int)
    requires i < |order| && m.Keys == Elements(order[..i])
    ensures m[order[i] := v].Keys == Elements(order[..i + 1])
  {
    ElementsUpTo(order, i);
  }

  /** Recording the total slack of `order[i]` extends the critical list by
      that task exactly when its slack is zero. */
  lemma CriticalStep(order: seq<string>, slack: map<string, int>, critical: seq<string>, i: nat, total: int)
    requires Distinct(order) && i < |order|
    requires slack.Keys == Elements(order[..i])
    requires critical == Critical(order[..i], slack)
    ensures slack[order[i] := total].Keys == Elements(order[..i + 1])
    ensures critical + (if total == 0 then [order[i]] else []) == Critical(order[..i + 1], slack[order[i] := total])
  {
    var n := order[i];
    assert n !in order[..i] by {
      assert forall j :: 0 <= j < i ==> order[j] != order[i];
    }
    KeysStep(slack, order, i, total);
    CriticalFrame(order[..i], slack, n, total);
    CriticalSnoc(order, slack[n := total], i);
  }

  lemma SlackDone(order: seq<string>, keys: seq<string>, info: map<string, Task>, finish: int,
                  es: map<string, int>, ef: map<string, int>, ls: map<string, int>,
                  slack: map<string, int>, freeSlack: map<string, int>, critical: seq<string>)
    requires forall k :: k in keys ==> k in info
    requires forall n :: n in order ==> n in es && n in ef && n in ls
    requires SlackUpTo(order, keys, info, finish, es, ef, ls, slack, freeSlack, critical, |order|)
    ensures slack.Keys == Elements(order) && freeSlack.Keys == Elements(order)
    ensures SlackRule(order, keys, info, finish, es, ef, ls, slack, freeSlack)
    ensures critical == Critical(order, slack)
  {
    assert order[..|order|] == order;
    forall n | n in order
      ensures n in slack && n in freeSlack
      ensures slack[n] == ls[n] - es[n]
      ensures freeSlack[n] == FreeSlackOf(finish, Successors(keys, info, n), es, ef[n])
    {
      var j := IndexOf(order, n);
      assert order[j] == n;
    }
  }

  /** PertService.php:108-136. Total slack, free slack and the critical
      tasks, over the topological order. */
  method SlackAnalysis(order: seq<string>, keys: seq<string>, info: map<string, Task>, finish: int,
                       es: map<string, int>, ef: map<string, int>, ls: map<string, int>)
    returns (slack: map<string, int>, freeSlack: map<string, int>, critical: seq<string>)
    requires forall k :: k in keys ==> k in info
    requires Distinct(order)
    requires forall n :: n in order ==> n in es && n in ef && n in ls
    ensures slack.Keys == Elements(order) && freeSlack.Keys == Elements(order)
    ensures SlackRule(order, keys, info, finish, es, ef, ls, slack, freeSlack)
    ensures critical == Critical(order, slack)
  {
    slack, freeSlack, critical := map[], map[], [];
    for i := 0 to |order|
      invariant SlackUpTo(order, keys, info, finish, es, ef, ls, slack, freeSlack, critical, i)
    {
      var n := order[i];
      var succ := SuccessorList(keys, info, n);
      var free := FreeSlackScan(finish, succ, es, ef[n]);
      var total := ls[n] - es[n];
      SlackStep(order, keys, info, finish, es, ef, ls, slack, freeSlack, critical, i, total, free);
      slack := slack[n := total];
      freeSlack := freeSlack[n := free];
      if total == 0 {
        critical := critical + [n];
      }
    }
    SlackDone(order, keys, info, finish, es, ef, ls, slack, freeSlack, critical);
  }

  lemma CriticalSnoc(order: seq<string>, slack: map<string, int>, i: nat)
    requires i < |order| && forall m :: m in order[..i + 1] ==> m in slack
    ensures Critical(order[..i + 1], slack)
         == Critical(order[..i], slack) + (if slack[order[i]] == 0 then [order[i]] else [])
  {
    assert order[..i + 1][..i] == order[..i];
  }

  lemma {:induction false} CriticalFrame(order: seq<string>, slack: map<string, int>, n: string, v: int)
    requires forall m :: m in order ==> m in slack
    requires n !in order
    ensures Critical(order, slack[n := v]) == Critical(order, slack)
  {
    if order != [] {
      CriticalFrame(order[..|order| - 1], slack, n, v);
    }
  }
}
