/** The topological sort of the scheduling engine (Kahn's algorithm with a FIFO
    queue seeded in key order), and what its outcome means: which tasks it
    orders, that it finds every task of an acyclic, closed table, and that
    tasks on a cycle are never ordered. */
module PertOrder {
  import opened Seqs
  import opened PertGraph

  /** How many names of `order` occur in `ps`: the amount by which the loop
      has decremented the in-degree of a task whose predecessor list is
      `ps` (each dequeued task decrements it at most once). */
  function Hits(order: seq<string>, ps: seq<string>): nat {
    if order == [] then 0
    else Hits(order[..|order| - 1], ps) + (if order[|order| - 1] in ps then 1 else 0)
  }

  lemma HitsSnoc(order: seq<string>, n: string, ps: seq<string>)
    ensures Hits(order + [n], ps) == Hits(order, ps) + (if n in ps then 1 else 0)
  {
    assert (order + [n])[..|order|] == order;
  }

  lemma {:induction false} HitsCons(order: seq<string>, x: string, r: seq<string>)
    requires Distinct(order)
    ensures Hits(order, [x] + r) == Hits(order, r) + (if x in order && x !in r then 1 else 0)
  {
    if order != [] {
      var init := order[..|order| - 1];
      var last := order[|order| - 1];
      assert order == init + [last];
      assert Distinct(init);
      HitsCons(init, x, r);
    }
  }

  lemma {:induction false} HitsNone(order: seq<string>)
    ensures Hits(order, []) == 0
  {
    if order != [] {
      HitsNone(order[..|order| - 1]);
    }
  }

  /** The in-degree never drops below zero. */
  lemma {:induction false} HitsBound(order: seq<string>, ps: seq<string>)
    requires Distinct(order)
    ensures Hits(order, ps) <= |ps|
  {
    if ps == [] {
      HitsNone(order);
    } else {
      assert ps == [ps[0]] + ps[1..];
      HitsCons(order, ps[0], ps[1..]);
      HitsBound(order, ps[1..]);
    }
  }

  /** The in-degree of a task reaches zero exactly when its predecessor list
      has no repeated entry and every entry has been ordered. */
  lemma {:induction false} HitsComplete(order: seq<string>, ps: seq<string>)
    requires Distinct(order)
    ensures Hits(order, ps) == |ps| <==> Distinct(ps) && forall p :: p in ps ==> p in order
  {
    if ps == [] {
      HitsNone(order);
    } else {
      var x, r := ps[0], ps[1..];
      assert ps == [x] + r;
      HitsCons(order, x, r);
      HitsBound(order, r);
      HitsComplete(order, r);
      DistinctCons(x, r);
    }
  }

  /** The loop invariant of Kahn's algorithm between two dequeues. */
  ghost predicate KahnState(keys: seq<string>, info: map<string, Task>, inDeg: map<string, int>,
                            order: seq<string>, queue: seq<string>)
    requires Keyed(keys, info)
  {
    && Distinct(order + queue)
    && (forall x :: x in order + queue ==> x in keys)
    && (forall k :: k in inDeg <==> k in keys)
    && (forall k :: k in keys ==> inDeg[k] == |info[k].preds| - Hits(order, info[k].preds))
    && (forall k :: k in keys ==> (k in order + queue <==> inDeg[k] == 0))
    && Precedes(order, info)
    && Roots(keys, info) <= order + queue
  }

  /** PertService.php:19-22: the in-degree of a task is the length of its
      predecessor list, repeats included. */
  method InDegrees(keys: seq<string>, info: map<string, Task>) returns (inDeg: map<string, int>)
    requires Keyed(keys, info)
    ensures forall k :: k in inDeg <==> k in keys
    ensures forall k :: k in keys ==> inDeg[k] == |info[k].preds|
  {
    inDeg := map[];
    for i := 0 to |keys|
      invariant forall k :: k in inDeg <==> k in keys[..i]
      invariant forall k :: k in inDeg ==> inDeg[k] == |info[k].preds|
    {
      inDeg := inDeg[keys[i] := |info[keys[i]].preds|];
    }
    assert keys[..|keys|] == keys;
  }

  /** PertService.php:23-24: the queue starts with the in-degree-0 tasks, in
      key order. */
  method SeedQueue(keys: seq<string>, info: map<string, Task>, inDeg: map<string, int>)
    returns (queue: seq<string>)
    requires Keyed(keys, info)
    requires forall k :: k in keys ==> k in inDeg && inDeg[k] == |info[k].preds|
    ensures queue == Roots(keys, info)
  {
    queue := [];
    for i := 0 to |keys|
      invariant queue == Roots(keys[..i], info)
    {
      assert keys[..i + 1] == keys[..i] + [keys[i]];
      if inDeg[keys[i]] == 0 {
        queue := queue + [keys[i]];
      }
    }
    assert keys[..|keys|] == keys;
  }

  /** What the loop of `Release` keeps once the first `j` keys have been
      visited, `n` having just been appended to `before`. */
  ghost predicate ReleaseState(keys: seq<string>, info: map<string, Task>, n: string, before: seq<string>,
                               seen: seq<string>, inDeg: map<string, int>, queue: seq<string>, j: nat)
    requires Keyed(keys, info) && j <= |keys|
  {
    var order := before + [n];
    && Distinct(order + queue)
    && (forall x :: x in order + queue ==> x in keys)
    && seen <= order + queue
    && (forall k :: k in inDeg <==> k in keys)
    && (forall i :: 0 <= i < j ==>
          inDeg[keys[i]] == |info[keys[i]].preds| - Hits(order, info[keys[i]].preds))
    && (forall i :: j <= i < |keys| ==>
          inDeg[keys[i]] == |info[keys[i]].preds| - Hits(before, info[keys[i]].preds))
    && (forall k :: k in keys ==> (k in order + queue <==> inDeg[k] == 0))
  }

  lemma ReleaseStart(keys: seq<string>, info: map<string, Task>, n: string, before: seq<string>,
                     inDeg: map<string, int>, queue: seq<string>)
    requires Keyed(keys, info)
    requires KahnState(keys, info, inDeg, before, [n] + queue)
    ensures ReleaseState(keys, info, n, before, before + [n] + queue, inDeg, queue, 0)
    ensures Roots(keys, info) <= before + [n] + queue
  {
    assert before + ([n] + queue) == before + [n] + queue;
  }

  /** The dequeued task `n` was not ordered before, and all its
      predecessors were, so appending it keeps the order's precedence. */
  lemma ReleaseOrder(keys: seq<string>, info: map<string, Task>, n: string, before: seq<string>,
                     inDeg: map<string, int>, queue: seq<string>)
    requires Keyed(keys, info)
    requires KahnState(keys, info, inDeg, before, [n] + queue)
    ensures n !in before
    ensures forall p :: p in info[n].preds ==> p in before
    ensures Precedes(before + [n], info)
  {
    var order := before + [n];
    assert before + ([n] + queue) == order + queue;
    DistinctAppend(order, queue);
    DistinctAppend(before, [n]);
    HitsComplete(before, info[n].preds);
    forall i | 0 <= i < |before| ensures order[..i] == before[..i] { }
    assert order[..|before|] == before;
  }

  /** One visit of the loop of `Release` (the key `keys[j]`) keeps its
      invariant. */
  lemma ReleaseStep(keys: seq<string>, info: map<string, Task>, n: string, before: seq<string>,
                    seen: seq<string>, inDeg: map<string, int>, queue: seq<string>, j: nat,
                    inDeg': map<string, int>, queue': seq<string>)
    requires Keyed(keys, info) && j < |keys|
    requires ReleaseState(keys, info, n, before, seen, inDeg, queue, j)
    requires var m := keys[j];
             if n in info[m].preds then
               && inDeg' == inDeg[m := inDeg[m] - 1]
               && queue' == (if inDeg'[m] == 0 then queue + [m] else queue)
             else inDeg' == inDeg && queue' == queue
    ensures ReleaseState(keys, info, n, before, seen, inDeg', queue', j + 1)
  {
    var m := keys[j];
    HitsSnoc(before, n, info[m].preds);
    if n in info[m].preds {
      ReleaseHit(keys, info, n, before, seen, inDeg, queue, j, inDeg', queue');
    }
  }

  /** The visited key lists `n`: its in-degree drops by one, and it joins
      the queue when that makes it 0. */
  lemma ReleaseHit(keys: seq<string>, info: map<string, Task>, n: string, before: seq<string>,
                   seen: seq<string>, inDeg: map<string, int>, queue: seq<string>, j: nat,
                   inDeg': map<string, int>, queue': seq<string>)
    requires Keyed(keys, info) && j < |keys| && n in info[keys[j]].preds
    requires ReleaseState(keys, info, n, before, seen, inDeg, queue, j)
    requires inDeg' == inDeg[keys[j] := inDeg[keys[j]] - 1]
    requires queue' == (if inDeg'[keys[j]] == 0 then queue + [keys[j]] else queue)
    ensures ReleaseState(keys, info, n, before, seen, inDeg', queue', j + 1)
  {
    var m := keys[j];
    var ps := info[m].preds;
    var order := before + [n];
    HitsSnoc(before, n, ps);
    assert Distinct(order) by { DistinctAppend(order, queue); }
    HitsComplete(before, ps);
    HitsBound(order, ps);
    assert Distinct(before) && n !in before by { DistinctAppend(before, [n]); }
    assert m !in order + queue;
    if inDeg'[m] == 0 {
      assert order + queue' == (order + queue) + [m];
      DistinctAppend(order + queue, [m]);
    }
  }

  lemma ReleaseEnd(keys: seq<string>, info: map<string, Task>, n: string, before: seq<string>,
                   seen: seq<string>, inDeg: map<string, int>, queue: seq<string>)
    requires Keyed(keys, info)
    requires ReleaseState(keys, info, n, before, seen, inDeg, queue, |keys|)
    requires Precedes(before + [n], info)
    requires Roots(keys, info) <= seen
    ensures KahnState(keys, info, inDeg, before + [n], queue)
  {
    forall k | k in keys
      ensures inDeg[k] == |info[k].preds| - Hits(before + [n], info[k].preds)
    {
      var i :| 0 <= i < |keys| && keys[i] == k;
    }
  }

  /** PertService.php:30-35: after `n` has been appended to the order, every
      task listing `n` has its in-degree decremented once, and joins the
      queue when it reaches zero. The Kahn invariant holds again afterwards. */
  method Release(keys: seq<string>, info: map<string, Task>, n: string, ghost before: seq<string>,
                 inDeg0: map<string, int>, queue0: seq<string>)
    returns (inDeg: map<string, int>, queue: seq<string>)
    requires Keyed(keys, info)
    requires KahnState(keys, info, inDeg0, before, [n] + queue0)
    ensures KahnState(keys, info, inDeg, before + [n], queue)
    ensures before + [n] + queue0 <= before + [n] + queue
  {
    ghost var seen := before + [n] + queue0;
    ReleaseStart(keys, info, n, before, inDeg0, queue0);
    ReleaseOrder(keys, info, n, before, inDeg0, queue0);
    inDeg, queue := ReleaseScan(keys, info, n, before, seen, inDeg0, queue0);
    ReleaseEnd(keys, info, n, before, seen, inDeg, queue);
  }

  /** PertService.php:30-35, the loop over the keys. */
  method ReleaseScan(keys: seq<string>, info: map<string, Task>, n: string, ghost before: seq<string>,
                     ghost seen: seq<string>, inDeg0: map<string, int>, queue0: seq<string>)
    returns (inDeg: map<string, int>, queue: seq<string>)
    requires Keyed(keys, info)
    requires ReleaseState(keys, info, n, before, seen, inDeg0, queue0, 0)
    ensures ReleaseState(keys, info, n, before, seen, inDeg, queue, |keys|)
  {
    inDeg, queue := inDeg0, queue0;
    for j := 0 to |keys|
      invariant ReleaseState(keys, info, n, before, seen, inDeg, queue, j)
    {
      var m := keys[j];
      ghost var inDeg1, queue1 := inDeg, queue;
      if n in info[m].preds {
        inDeg := inDeg[m := inDeg[m] - 1];
        if inDeg[m] == 0 {
          queue := queue + [m];
        }
      }
      ReleaseStep(keys, info, n, before, seen, inDeg1, queue1, j, inDeg, queue);
    }
  }

  /** PertService.php:19-36. Kahn's algorithm: in-degree = length of the
      predecessor list; the queue is seeded with the in-degree-0 tasks in key
      order; each dequeued task is appended to the order and decrements, once,
      every task that lists it. The result is what has been ordered when the
      queue runs dry: a duplicate-free order of table names that respects
      precedence, starts with the tasks that have no predecessors, and holds a
      task exactly when its predecessor list is free of repeats and all of its
      entries have been ordered. */
  method TopologicalOrder(keys: seq<string>, info: map<string, Task>) returns (order: seq<string>)
    requires Keyed(keys, info)
    ensures Distinct(order)
    ensures forall n :: n in order ==> n in keys
    ensures Precedes(order, info)
    ensures Roots(keys, info) <= order
    ensures forall k :: k in keys ==>
              (k in order <==> Distinct(info[k].preds) && forall p :: p in info[k].preds ==> p in order)
  {
    var inDeg := InDegrees(keys, info);
    var queue := SeedQueue(keys, info, inDeg);
    order := [];
    forall k | k in keys ensures inDeg[k] == |info[k].preds| - Hits(order, info[k].preds) {
      HitsNone(info[k].preds);
    }
    while queue != []
      invariant KahnState(keys, info, inDeg, order, queue)
      decreases |keys| - |order|
    {
      SubsetLength(order + queue, keys);
      var n := queue[0];
      assert queue == [n] + queue[1..];
      inDeg, queue := Release(keys, info, n, order, inDeg, queue[1..]);
      order := order + [n];
    }
    assert order + queue == order;
    KahnDone(keys, info, inDeg, order);
  }

  /** When the queue runs dry, a task has been ordered exactly when its
      predecessor list is free of repeats and all its entries are ordered. */
  lemma KahnDone(keys: seq<string>, info: map<string, Task>, inDeg: map<string, int>, order: seq<string>)
    requires Keyed(keys, info)
    requires KahnState(keys, info, inDeg, order, [])
    ensures forall k :: k in keys ==>
              (k in order <==> Distinct(info[k].preds) && forall p :: p in info[k].preds ==> p in order)
  {
    assert order + [] == order;
    forall k | k in keys
      ensures k in order <==> Distinct(info[k].preds) && forall p :: p in info[k].preds ==> p in order
    {
      HitsComplete(order, info[k].preds);
      HitsBound(order, info[k].preds);
    }
  }

  /** Every task of an acyclic table whose predecessor lists are free of
      repeats is ordered: Kahn's algorithm does not report a cycle there. */
  lemma {:induction false} OrderComplete(keys: seq<string>, info: map<string, Task>,
                                         order: seq<string>, w: seq<string>)
    requires Keyed(keys, info)
    requires Distinct(order) && forall n :: n in order ==> n in keys
    requires forall k :: k in keys ==>
               (k in order <==> Distinct(info[k].preds) && forall p :: p in info[k].preds ==> p in order)
    requires IsTopologicalOrder(w, keys, info)
    requires forall k :: k in keys ==> Distinct(info[k].preds)
    ensures |order| == |keys|
    ensures forall k :: k in keys ==> k in order
  {
    for i := 0 to |w|
      invariant forall i' :: 0 <= i' < i ==> w[i'] in order
    {
      forall p | p in info[w[i]].preds ensures p in order {
        assert p in w[..i];
      }
    }
    SubsetLength(order, keys);
    SubsetLength(keys, order);
  }

  /** A task on a cycle of the predecessor relation is never ordered. */
  lemma CycleNeverOrdered(order: seq<string>, info: map<string, Task>, c: seq<string>)
    requires Distinct(order) && Precedes(order, info)
    requires IsCycle(c, info)
    ensures forall i :: 0 <= i < |c| ==> c[i] !in order
  {
    forall i | 0 <= i < |c| ensures c[i] !in order {
      if c[i] in order {
        var s := if i == |c| - 1 then 0 else i;
        WalkDescends(order, info, c, s, |c| - 1);
        if s > 0 {
          WalkDescends(order, info, c, 0, s);
        }
      }
    }
  }

  /** Along a walk of predecessors, positions in the order strictly decrease. */
  lemma {:induction false} WalkDescends(order: seq<string>, info: map<string, Task>, c: seq<string>,
                                        i: nat, j: nat)
    requires Distinct(order) && Precedes(order, info)
    requires i < j < |c|
    requires forall k :: 0 <= k < |c| - 1 ==> c[k] in info && c[k + 1] in info[c[k]].preds
    requires c[i] in order
    ensures c[j] in order && IndexOf(order, c[j]) < IndexOf(order, c[i])
    decreases j - i
  {
    PredecessorEarlier(order, info, IndexOf(order, c[i]), c[i + 1]);
    if i + 1 < j {
      WalkDescends(order, info, c, i + 1, j);
    }
  }
}
