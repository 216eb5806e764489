/** PHP's array keys, and what they do to the scheduling engine's Kahn loop
    as written: a task name that reads as a decimal integer ("1", "42") is
    stored in `$nameToTask` under an integer key, so the name the loop
    dequeues is an integer, and the strict `in_array` of PertService.php:31
    never finds it among the string entries of a predecessor list. A task
    whose predecessor has such a name therefore never becomes ready, and the
    engine reports it as part of a cycle. The rest of the model compares
    names as strings, which is what the engine evidently intends. */
module PhpKeys {
  import opened Seqs
  import opened Text
  import opened PertGraph
  import PertOrder
  import PertService

  /** A key of a PHP array. */
  datatype Key = IntKey(value: int) | StrKey(text: string)

  /** PHP_INT_MAX on a 64-bit build. */
  const PhpIntMax: int := 0x7FFF_FFFF_FFFF_FFFF

  /** A decimal numeral without a superfluous leading zero. */
  predicate IsCanonicalNumeral(s: string) {
    || s == "0"
    || (|s| >= 1 && '1' <= s[0] <= '9' && forall i :: 1 <= i < |s| ==> IsDecimalDigit(s[i]))
  }

  /** A string key PHP stores as an integer: a canonical decimal numeral,
      optionally negative (but not "-0"), within the 64-bit range. */
  predicate IsIntegerKey(s: string) {
    || (IsCanonicalNumeral(s) && DigitsValue(s, 10) <= PhpIntMax)
    || (|s| >= 2 && s[0] == '-' && s[1] != '0' && IsCanonicalNumeral(s[1..])
        && DigitsValue(s[1..], 10) <= PhpIntMax + 1)
  }

  /** The key `$array[$s]` is stored under. */
  function ToKey(s: string): (k: Key)
    ensures k.StrKey? <==> !IsIntegerKey(s)
    ensures k.StrKey? ==> k.text == s
  {
    if !IsIntegerKey(s) then StrKey(s)
    else if s[0] == '-' then IntKey(-(DigitsValue(s[1..], 10) as int))
    else IntKey(DigitsValue(s, 10))
  }

  /** `in_array($k, $ps, true)` for a key read back from the table and a list
      of string names: an integer is never identical to a string. */
  predicate StrictIn(k: Key, ps: seq<string>) {
    k.StrKey? && k.text in ps
  }

  /** PertService.php:30-31 as written: the tasks whose in-degree the
      dequeued task `n` decrements, `n` being the table's key for it. */
  function AsWrittenDependents(keys: seq<string>, info: map<string, Task>, n: string): (r: seq<string>)
    requires forall k :: k in keys ==> k in info
    ensures forall m :: m in r <==> m in keys && StrictIn(ToKey(n), info[m].preds)
  {
    if keys == [] then []
    else
      var init, last := keys[..|keys| - 1], keys[|keys| - 1];
      assert keys == init + [last];
      AsWrittenDependents(init, info, n) + (if StrictIn(ToKey(n), info[last].preds) then [last] else [])
  }

  /** Dequeuing a task whose name is integer-like releases nobody. */
  lemma {:induction false} IntegerNameReleasesNobody(keys: seq<string>, info: map<string, Task>, n: string)
    requires forall k :: k in keys ==> k in info
    requires IsIntegerKey(n)
    ensures AsWrittenDependents(keys, info, n) == []
  {
    if keys != [] {
      var init := keys[..|keys| - 1];
      assert forall k :: k in init ==> k in keys;
      IntegerNameReleasesNobody(init, info, n);
    }
  }

  /** For every other name the loop as written finds exactly the successors. */
  lemma {:induction false} StringNameReleasesSuccessors(keys: seq<string>, info: map<string, Task>, n: string)
    requires forall k :: k in keys ==> k in info
    requires !IsIntegerKey(n)
    ensures AsWrittenDependents(keys, info, n) == Successors(keys, info, n)
  {
    if keys != [] {
      var init := keys[..|keys| - 1];
      assert forall k :: k in init ==> k in keys;
      StringNameReleasesSuccessors(init, info, n);
    }
  }

  /** The names of `order` that stay strings as keys, in order. */
  function StringNames(order: seq<string>): (r: seq<string>)
    ensures forall x :: x in r <==> x in order && !IsIntegerKey(x)
  {
    if order == [] then []
    else
      var init, last := order[..|order| - 1], order[|order| - 1];
      assert order == init + [last];
      StringNames(init) + (if IsIntegerKey(last) then [] else [last])
  }

  lemma {:induction false} StringNamesDistinct(order: seq<string>)
    requires Distinct(order)
    ensures Distinct(StringNames(order))
  {
    if order != [] {
      var init, last := order[..|order| - 1], order[|order| - 1];
      assert order == init + [last];
      DistinctAppend(init, [last]);
      StringNamesDistinct(init);
      if !IsIntegerKey(last) {
        DistinctAppend(StringNames(init), [last]);
      }
    }
  }

  /** How far the loop as written has decremented the in-degree of a task
      with predecessor list `ps` once the tasks of `order` have been
      dequeued. */
  function AsWrittenHits(order: seq<string>, ps: seq<string>): nat {
    if order == [] then 0
    else AsWrittenHits(order[..|order| - 1], ps) + (if StrictIn(ToKey(order[|order| - 1]), ps) then 1 else 0)
  }

  lemma {:induction false} AsWrittenHitsStrings(order: seq<string>, ps: seq<string>)
    ensures AsWrittenHits(order, ps) == PertOrder.Hits(StringNames(order), ps)
  {
    if order != [] {
      var init, last := order[..|order| - 1], order[|order| - 1];
      AsWrittenHitsStrings(init, ps);
      var k := ToKey(last);
      if !IsIntegerKey(last) {
        assert StringNames(order) == StringNames(init) + [last];
        assert StrictIn(k, ps) <==> last in ps;
        PertOrder.HitsSnoc(StringNames(init), last, ps);
      } else {
        assert StringNames(order) == StringNames(init);
        assert !StrictIn(k, ps);
      }
    }
  }

  /** A task listing an integer-like predecessor never reaches in-degree 0 as
      written, whatever has been dequeued: it is never queued, never ordered,
      and ends up in the cycle message. */
  lemma NeverReady(order: seq<string>, ps: seq<string>, p: string)
    requires Distinct(order)
    requires p in ps && IsIntegerKey(p)
    ensures AsWrittenHits(order, ps) < |ps|
  {
    var strings := StringNames(order);
    AsWrittenHitsStrings(order, ps);
    StringNamesDistinct(order);
    PertOrder.HitsBound(strings, ps);
    PertOrder.HitsComplete(strings, ps);
  }

  /** The two-task project "1" (no predecessor), "2" (after "1"). */
  function ExampleTasks(): seq<Task> {
    [Task("1", 1, []), Task("2", 1, ["1"])]
  }

  /** The loop as written: dequeuing "1" releases nobody, and "2" never
      reaches in-degree 0 whatever is dequeued, although the project has the
      topological order "1", "2" and task "2" is "1"'s only successor. */
  lemma AsWrittenExample(order: seq<string>)
    requires Distinct(order)
    ensures var keys, info := PertService.TableKeys(ExampleTasks()), PertService.TableInfo(ExampleTasks());
            && keys == ["1", "2"]
            && AsWrittenDependents(keys, info, "1") == []
            && Successors(keys, info, "1") == ["2"]
            && AsWrittenHits(order, info["2"].preds) < |info["2"].preds|
  {
    var keys, info := ExampleTable();
    assert IsIntegerKey("1");
    IntegerNameReleasesNobody(keys, info, "1");
    ExampleSuccessors(keys, info);
    NeverReady(order, info["2"].preds, "1");
  }

  /** With names compared as strings, the same project is schedulable, so
      the engine as modelled reports its schedule. */
  lemma CorrectedExample()
    ensures var keys, info := PertService.TableKeys(ExampleTasks()), PertService.TableInfo(ExampleTasks());
            && PertService.Schedulable(keys, info)
            && Successors(keys, info, "1") == ["2"]
  {
    var keys, info := ExampleTable();
    ExampleOrder(keys, info);
    ExampleSuccessors(keys, info);
  }

  /** "2" is the only task that lists "1". */
  lemma ExampleSuccessors(keys: seq<string>, info: map<string, Task>)
    requires keys == ["1", "2"] && info == map["1" := Task("1", 1, []), "2" := Task("2", 1, ["1"])]
    ensures Successors(keys, info, "1") == ["2"]
  {
    assert keys[..1] == ["1"] && ["1"][..0] == [];
    assert Successors(["1"], info, "1") == [];
    assert Successors(keys, info, "1") == Successors(["1"], info, "1") + ["2"];
  }

  /** "1" then "2" is a topological order, and no predecessor list repeats a
      name. */
  lemma ExampleOrder(keys: seq<string>, info: map<string, Task>)
    requires keys == ["1", "2"] && info == map["1" := Task("1", 1, []), "2" := Task("2", 1, ["1"])]
    ensures IsTopologicalOrder(keys, keys, info)
    ensures forall k :: k in keys ==> Distinct(info[k].preds)
  {
    assert keys[..1] == ["1"];
  }

  lemma ExampleTable() returns (keys: seq<string>, info: map<string, Task>)
    ensures keys == PertService.TableKeys(ExampleTasks()) == ["1", "2"]
    ensures info == PertService.TableInfo(ExampleTasks())
    ensures info == map["1" := Task("1", 1, []), "2" := Task("2", 1, ["1"])]
  {
    var ts := ExampleTasks();
    var first := [ts[0]];
    ExampleFirstEntry();
    assert ts[..1] == first;
    assert PertService.TableInfo(ts) == PertService.TableInfo(first)["2" := ts[1]];
    ExampleNames();
    keys, info := PertService.TableKeys(ts), PertService.TableInfo(ts);
  }

  /** The table of the first task alone. */
  lemma ExampleFirstEntry()
    ensures PertService.TableInfo([Task("1", 1, [])]) == map["1" := Task("1", 1, [])]
  {
    var first := [Task("1", 1, [])];
    assert first[..0] == [];
  }

  /** The example's names are distinct, so they are its keys. */
  lemma ExampleNames()
    ensures PertService.Names(ExampleTasks()) == ["1", "2"]
    ensures PertService.TableKeys(ExampleTasks()) == ["1", "2"]
  {
    assert Distinct(["1", "2"]);
  }
}
