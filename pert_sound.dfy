/** What the computed dates mean: for a start day that is not negative, every
    task fits in its window (earliest finish no later than latest finish, no
    later than the project finish), total and free slack are never negative,
    free slack never exceeds total slack, and a non-empty schedule has a
    critical task. A negative start day breaks these promises. */
module ScheduleFacts {
  import opened Wrappers
  import opened Seqs
  import opened PertGraph
  import opened PertDates
  import opened PertSlack

  /** The project finish equations (PertService.php:69-74). */
  ghost predicate FinishRule(order: seq<string>, ef: map<string, int>, t0: int, finish: int) {
    && (forall n :: n in order ==> n in ef)
    && finish >= t0
    && (forall n :: n in order && ef[n] > 0 ==> finish >= ef[n])
    && (finish == t0 || exists n :: n in order && ef[n] > 0 && finish == ef[n])
  }

  /** The dates of a topologically ordered table obey the forward-pass, finish
      and backward-pass equations. */
  ghost predicate Scheduled(keys: seq<string>, info: map<string, Task>, order: seq<string>, t0: int,
                            es: map<string, int>, ef: map<string, int>, finish: int,
                            ls: map<string, int>, lf: map<string, int>)
  {
    && Keyed(keys, info)
    && IsTopologicalOrder(order, keys, info)
    && ForwardRule(order, info, t0, es, ef)
    && FinishRule(order, ef, t0, finish)
    && BackwardRule(order, keys, info, finish, ls, lf)
  }

  /** Every task from position `i` on has both finishes, and finishes at the
      earliest no later than at the latest, and at the latest no later than
      the project finish. */
  ghost predicate FitsFrom(order: seq<string>, ef: map<string, int>, lf: map<string, int>, finish: int, i: nat) {
    forall j :: i <= j < |order| ==>
      order[j] in ef && order[j] in lf && ef[order[j]] <= lf[order[j]] <= finish
  }

  /** Every successor of `order[i]` starts, at the latest, after `order[i]`
      finishes at the earliest, provided the tasks after position `i` fit in
      their windows. */
  lemma SuccessorsStartLater(keys: seq<string>, info: map<string, Task>, order: seq<string>, t0: int,
                             es: map<string, int>, ef: map<string, int>, finish: int,
                             ls: map<string, int>, lf: map<string, int>, i: nat)
    requires Scheduled(keys, info, order, t0, es, ef, finish, ls, lf) && i < |order|
    requires FitsFrom(order, ef, lf, finish, i + 1)
    ensures forall s :: s in Successors(keys, info, order[i]) ==>
              s in es && s in ls && ef[order[i]] < es[s] <= ls[s] <= finish
  {
    var n := order[i];
    forall s | s in Successors(keys, info, n)
      ensures s in es && s in ls && ef[n] < es[s] <= ls[s] <= finish
    {
      assert s in order;
      var j := IndexOf(order, s);
      PredecessorEarlier(order, info, j, n);
      assert IndexOf(order, n) == i;
      assert n in info[s].preds && n in ef;
    }
  }

  /** One position of the descending induction of `FinishWindow`. */
  lemma WindowAt(keys: seq<string>, info: map<string, Task>, order: seq<string>, t0: int,
                 es: map<string, int>, ef: map<string, int>, finish: int,
                 ls: map<string, int>, lf: map<string, int>, i: nat)
    requires Scheduled(keys, info, order, t0, es, ef, finish, ls, lf) && t0 >= 0 && i < |order|
    requires FitsFrom(order, ef, lf, finish, i + 1)
    ensures order[i] in ef && order[i] in lf && ef[order[i]] <= lf[order[i]] <= finish
  {
    var n := order[i];
    var succ := Successors(keys, info, n);
    assert n in order;
    assert ef[n] <= finish by {
      assert es[n] >= t0;
    }
    if succ != [] {
      SuccessorsStartLater(keys, info, order, t0, es, ef, finish, ls, lf, i);
      assert succ[0] in ls;
      var v := EarliestOf(succ, ls).value;
      var s :| s in succ && s in ls && v == ls[s];
      assert lf[n] == v - 1;
    }
  }

  /** The tasks from position `i` on fit in their windows, by descending
      induction over the positions. */
  lemma {:induction false} FinishWindow(keys: seq<string>, info: map<string, Task>, order: seq<string>, t0: int,
                                        es: map<string, int>, ef: map<string, int>, finish: int,
                                        ls: map<string, int>, lf: map<string, int>, i: nat)
    requires Scheduled(keys, info, order, t0, es, ef, finish, ls, lf) && t0 >= 0 && i <= |order|
    ensures FitsFrom(order, ef, lf, finish, i)
    decreases |order| - i
  {
    if i < |order| {
      FinishWindow(keys, info, order, t0, es, ef, finish, ls, lf, i + 1);
      WindowAt(keys, info, order, t0, es, ef, finish, ls, lf, i);
      FitsExtend(order, ef, lf, finish, i);
    }
  }

  lemma FitsExtend(order: seq<string>, ef: map<string, int>, lf: map<string, int>, finish: int, i: nat)
    requires i < |order| && FitsFrom(order, ef, lf, finish, i + 1)
    requires order[i] in ef && order[i] in lf && ef[order[i]] <= lf[order[i]] <= finish
    ensures FitsFrom(order, ef, lf, finish, i)
  {
  }

  /** The schedule is consistent when the start day is not negative: each
      task lies inside the project, its total slack (latest start minus
      earliest start, equally latest finish minus earliest finish) is never
      negative, and when there is a task some task finishes exactly at the
      project finish with no slack. */
  lemma ScheduleSound(keys: seq<string>, info: map<string, Task>, order: seq<string>, t0: int,
                      es: map<string, int>, ef: map<string, int>, finish: int,
                      ls: map<string, int>, lf: map<string, int>)
    requires Scheduled(keys, info, order, t0, es, ef, finish, ls, lf) && t0 >= 0
    ensures forall n :: n in order ==> t0 <= es[n] <= ef[n] <= lf[n] <= finish
    ensures forall n :: n in order ==> ls[n] - es[n] == lf[n] - ef[n] >= 0
    ensures |order| > 0 ==> exists n :: n in order && ef[n] == lf[n] == finish && ls[n] == es[n]
  {
    FinishWindow(keys, info, order, t0, es, ef, finish, ls, lf, 0);
    forall n | n in order {
      TaskWindow(keys, info, order, t0, es, ef, finish, ls, lf, n);
    }
    if |order| > 0 {
      FinishingTask(keys, info, order, t0, es, ef, finish, ls, lf);
    }
  }

  /** One task of the schedule lies inside the project, with a total slack
      that is never negative. */
  lemma TaskWindow(keys: seq<string>, info: map<string, Task>, order: seq<string>, t0: int,
                   es: map<string, int>, ef: map<string, int>, finish: int,
                   ls: map<string, int>, lf: map<string, int>, n: string)
    requires Scheduled(keys, info, order, t0, es, ef, finish, ls, lf) && t0 >= 0 && n in order
    requires FitsFrom(order, ef, lf, finish, 0)
    ensures t0 <= es[n] <= ef[n] <= lf[n] <= finish
    ensures ls[n] - es[n] == lf[n] - ef[n] >= 0
  {
    var j := IndexOf(order, n);
    assert order[j] in ef && ef[order[j]] <= lf[order[j]] <= finish;
  }

  /** Some task of a non-empty schedule finishes exactly at the project
      finish, with no slack. */
  lemma FinishingTask(keys: seq<string>, info: map<string, Task>, order: seq<string>, t0: int,
                      es: map<string, int>, ef: map<string, int>, finish: int,
                      ls: map<string, int>, lf: map<string, int>)
    requires Scheduled(keys, info, order, t0, es, ef, finish, ls, lf) && t0 >= 0 && |order| > 0
    requires FitsFrom(order, ef, lf, finish, 0)
    ensures exists n :: n in order && ef[n] == lf[n] == finish && ls[n] == es[n]
  {
    var m;
    if finish == t0 {
      m := order[0];
      assert m in order;
      assert ef[m] == finish;
    } else {
      m :| m in order && ef[m] > 0 && finish == ef[m];
    }
    var j := IndexOf(order, m);
    assert order[j] in lf && lf[m] <= finish;
  }

  /** Free slack of one task lies between zero and its total slack. */
  lemma FreeSlackAt(keys: seq<string>, info: map<string, Task>, order: seq<string>, t0: int,
                    es: map<string, int>, ef: map<string, int>, finish: int,
                    ls: map<string, int>, lf: map<string, int>,
                    slack: map<string, int>, freeSlack: map<string, int>, i: nat)
    requires Scheduled(keys, info, order, t0, es, ef, finish, ls, lf) && t0 >= 0 && i < |order|
    requires SlackRule(order, keys, info, finish, es, ef, ls, slack, freeSlack)
    requires FitsFrom(order, ef, lf, finish, 0)
    ensures 0 <= freeSlack[order[i]] <= slack[order[i]]
  {
    var n := order[i];
    assert n in order;
    var succ := Successors(keys, info, n);
    if succ != [] {
      assert FitsFrom(order, ef, lf, finish, i + 1);
      SuccessorsStartLater(keys, info, order, t0, es, ef, finish, ls, lf, i);
      assert succ[0] in succ && succ[0] in es && succ[0] in ls;
      var byLatest, byEarliest := EarliestOf(succ, ls), EarliestOf(succ, es);
      assert byLatest.Some? && byEarliest.Some?;
      var late :| late in succ && late in ls && byLatest.value == ls[late];
      assert late in es && byEarliest.value <= es[late] <= ls[late];
      assert lf[n] == byLatest.value - 1;
      assert freeSlack[n] == byEarliest.value - 1 - ef[n];
    } else {
      assert lf[n] == finish;
    }
  }

  /** Free slack lies between zero and total slack, and a non-empty schedule
      has a critical task. */
  lemma SlackSound(keys: seq<string>, info: map<string, Task>, order: seq<string>, t0: int,
                   es: map<string, int>, ef: map<string, int>, finish: int,
                   ls: map<string, int>, lf: map<string, int>,
                   slack: map<string, int>, freeSlack: map<string, int>)
    requires Scheduled(keys, info, order, t0, es, ef, finish, ls, lf) && t0 >= 0
    requires SlackRule(order, keys, info, finish, es, ef, ls, slack, freeSlack)
    ensures forall n :: n in order ==> 0 <= freeSlack[n] <= slack[n]
    ensures |order| > 0 ==> Critical(order, slack) != []
  {
    FinishWindow(keys, info, order, t0, es, ef, finish, ls, lf, 0);
    forall n | n in order
      ensures 0 <= freeSlack[n] <= slack[n]
    {
      FreeSlackAt(keys, info, order, t0, es, ef, finish, ls, lf, slack, freeSlack, IndexOf(order, n));
    }
    if |order| > 0 {
      ScheduleSound(keys, info, order, t0, es, ef, finish, ls, lf);
      var m :| m in order && ef[m] == lf[m] == finish && ls[m] == es[m];
      assert m in Critical(order, slack);
    }
  }

  /** A two-task table used to show what a negative start day does: task A
      takes one day, task B takes three days and comes after A. */
  const ExampleKeys: seq<string> := ["A", "B"]
  const ExampleInfo: map<string, Task> := map["A" := Task("A", 1, []), "B" := Task("B", 3, ["A"])]
  const ExampleStart: map<string, int> := map["A" := -5, "B" := -4]
  const ExampleFinish: map<string, int> := map["A" := -5, "B" := -2]
  const ExampleLateStart: map<string, int> := map["A" := -8, "B" := -7]
  const ExampleLateFinish: map<string, int> := map["A" := -8, "B" := -5]
  const ExampleSlack: map<string, int> := map["A" := -3, "B" := -3]
  const ExampleFreeSlack: map<string, int> := map["A" := 0, "B" := -3]

  lemma ExampleTable()
    ensures Keyed(ExampleKeys, ExampleInfo) && IsTopologicalOrder(ExampleKeys, ExampleKeys, ExampleInfo)
    ensures Successors(ExampleKeys, ExampleInfo, "A") == ["B"]
    ensures Successors(ExampleKeys, ExampleInfo, "B") == []
  {
    assert ExampleKeys[..1] == ["A"];
    assert Precedes(ExampleKeys, ExampleInfo) by {
      assert ExampleKeys[..0] == [];
    }
  }

  lemma ExampleForward()
    ensures ForwardRule(ExampleKeys, ExampleInfo, -5, ExampleStart, ExampleFinish)
  {
    assert LatestFinish(-6, ["A"], ExampleFinish) == -5 by {
      assert ["A"][..0] == [];
    }
    assert forall n :: n in ExampleKeys ==> n == "A" || n == "B";
  }

  lemma ExampleBackwardAt(n: string)
    requires n in ExampleKeys
    ensures n in ExampleInfo && n in ExampleLateStart && n in ExampleLateFinish
    ensures ExampleLateFinish[n] == LatestFinishOf(-5, Successors(ExampleKeys, ExampleInfo, n), ExampleLateStart)
    ensures ExampleLateStart[n] == ExampleLateFinish[n] - Duration(ExampleInfo[n]) + 1
  {
    ExampleTable();
    if n == "A" {
      assert EarliestOf(["B"], ExampleLateStart) == Some(-7) by {
        assert ["B"][..0] == [];
      }
    } else {
      assert n == "B";
    }
  }

  lemma ExampleBackward()
    ensures BackwardRule(ExampleKeys, ExampleKeys, ExampleInfo, -5, ExampleLateStart, ExampleLateFinish)
  {
    forall n | n in ExampleKeys {
      ExampleBackwardAt(n);
    }
  }

  lemma ExampleScheduled()
    ensures Scheduled(ExampleKeys, ExampleInfo, ExampleKeys, -5, ExampleStart, ExampleFinish, -5,
                      ExampleLateStart, ExampleLateFinish)
  {
    ExampleTable();
    ExampleForward();
    ExampleBackward();
    assert forall n :: n in ExampleKeys ==> n == "A" || n == "B";
  }

  lemma ExampleSlackAt(n: string)
    requires n in ExampleKeys
    ensures n in ExampleStart && n in ExampleFinish && n in ExampleLateStart
    ensures n in ExampleSlack && n in ExampleFreeSlack
    ensures ExampleSlack[n] == ExampleLateStart[n] - ExampleStart[n]
    ensures ExampleFreeSlack[n] == FreeSlackOf(-5, Successors(ExampleKeys, ExampleInfo, n), ExampleStart, ExampleFinish[n])
  {
    ExampleTable();
    if n == "A" {
      assert EarliestOf(["B"], ExampleStart) == Some(-4) by {
        assert ["B"][..0] == [];
      }
    } else {
      assert n == "B";
    }
  }

  lemma ExampleSlackRule()
    ensures SlackRule(ExampleKeys, ExampleKeys, ExampleInfo, -5, ExampleStart, ExampleFinish, ExampleLateStart,
                      ExampleSlack, ExampleFreeSlack)
  {
    ExampleTable();
    forall n | n in ExampleKeys {
      ExampleSlackAt(n);
    }
  }

  /** The equations themselves do not rule out a negative start day, and
      with one the promises fail: starting on day -5, the project finish stays
      at -5 because only positive finishes raise it, both tasks of the example
      get a total slack of -3, and no task is critical. */
  lemma NegativeStartBreaksSlack()
    ensures Scheduled(ExampleKeys, ExampleInfo, ExampleKeys, -5, ExampleStart, ExampleFinish, -5,
                      ExampleLateStart, ExampleLateFinish)
    ensures SlackRule(ExampleKeys, ExampleKeys, ExampleInfo, -5, ExampleStart, ExampleFinish, ExampleLateStart,
                      ExampleSlack, ExampleFreeSlack)
    ensures ExampleSlack["A"] < 0 && ExampleSlack["B"] < 0
    ensures Critical(ExampleKeys, ExampleSlack) == []
  {
    ExampleScheduled();
    ExampleSlackRule();
    assert ExampleKeys[..1] == ["A"];
  }
}
