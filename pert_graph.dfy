/** The task graph the scheduling engine works on: a task record as the
    controllers prepare it, and the engine's name-keyed table of tasks
    (PHP's ordered array `$nameToTask`), split into the key order and a map. */
module PertGraph {
  import opened Seqs

  /** One prepared task: its name, its expected duration and the names of its
      predecessors, in the order the caller listed them (repeats possible). */
  datatype Task = Task(name: string, duration: int, preds: seq<string>)

  /** The duration the engine schedules with: `max(1, round(d))`; for an
      integer duration the rounding is the identity. */
  function Duration(t: Task): (d: int)
    ensures d >= 1
    ensures t.duration >= 1 ==> d == t.duration
    ensures t.duration < 1 ==> d == 1
  {
    if t.duration < 1 then 1 else t.duration
  }

  /** `keys` lists every name of `info` exactly once: the two together are an
      ordered map. */
  ghost predicate Keyed(keys: seq<string>, info: map<string, Task>) {
    && Distinct(keys)
    && forall k :: k in keys <==> k in info
  }

  /** Every task of `order` comes after all of the entries of its predecessor
      list. */
  predicate Precedes(order: seq<string>, info: map<string, Task>) {
    forall i :: 0 <= i < |order| ==>
      && order[i] in info
      && forall p :: p in info[order[i]].preds ==> p in order[..i]
  }

  /** `w` is a topological order of the table: a duplicate-free listing of
      exactly its names in which each task follows all of its predecessors.
      One exists exactly when the predecessor lists only name tasks of the
      table and the graph they form has no cycle. */
  ghost predicate IsTopologicalOrder(w: seq<string>, keys: seq<string>, info: map<string, Task>) {
    && Distinct(w)
    && (forall k :: k in keys <==> k in w)
    && Precedes(w, info)
  }

  /** `c` is a cycle of the predecessor relation: a closed walk (first name
      equals last name) in which each name lists the next one as a
      predecessor. */
  ghost predicate IsCycle(c: seq<string>, info: map<string, Task>) {
    && |c| >= 2 && c[0] == c[|c| - 1]
    && forall i :: 0 <= i < |c| - 1 ==> c[i] in info && c[i + 1] in info[c[i]].preds
  }

  /** The tasks whose predecessor list is empty, in key order: what Kahn's
      algorithm seeds its queue with. */
  function Roots(keys: seq<string>, info: map<string, Task>): (r: seq<string>)
    requires forall k :: k in keys ==> k in info
    ensures forall k :: k in r <==> k in keys && |info[k].preds| == 0
    ensures Distinct(keys) ==> Distinct(r)
    ensures |r| <= |keys|
  {
    if keys == [] then []
    else
      var init := keys[..|keys| - 1];
      var last := keys[|keys| - 1];
      assert keys == init + [last];
      Roots(init, info) + (if |info[last].preds| == 0 then [last] else [])
  }

  /** The tasks that list `n` among their predecessors, in key order. */
  function Successors(keys: seq<string>, info: map<string, Task>, n: string): (r: seq<string>)
    requires forall k :: k in keys ==> k in info
    ensures forall m :: m in r <==> m in keys && n in info[m].preds
  {
    if keys == [] then []
    else
      var init := keys[..|keys| - 1];
      var last := keys[|keys| - 1];
      assert keys == init + [last];
      Successors(init, info, n) + (if n in info[last].preds then [last] else [])
  }

  /** In an order that respects precedence, every predecessor sits at an
      earlier position than the task that lists it. */
  lemma PredecessorEarlier(order: seq<string>, info: map<string, Task>, i: nat, p: string)
    requires Distinct(order) && Precedes(order, info)
    requires i < |order| && p in info[order[i]].preds
    ensures p in order && IndexOf(order, p) < i
  {
    assert p in order[..i];
    var j :| 0 <= j < i && order[j] == p;
  }
}
