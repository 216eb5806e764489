/** The HTML form handler `PertController::generate`: it drops the tasks
    without a name, cleans the predecessor entries (an entry may list
    several names separated by white space, commas or semicolons; names are
    upper-cased, self-references dropped and repeats removed), checks the
    durations and that every predecessor names a task, and runs the engine. */
module PertWeb {
  import opened Wrappers
  import opened Seqs
  import opened Text
  import opened PertGraph
  import opened PertSlack
  import opened ScheduleFacts
  import opened PertService
  import PertApi

  /** The three-point estimate fields of a task (optimistic, most likely,
      pessimistic); a field left out is None. */
  datatype Estimates = Estimates(optimistic: Option<int>, mostLikely: Option<int>, pessimistic: Option<int>)

  /** One task as the form submits it; a field the form leaves out is None,
      and so is a predecessor field that is not a list. */
  datatype FormTask = FormTask(name: Option<string>, duration: Option<int>, estimates: Estimates,
                               predecessors: Option<seq<Option<string>>>)

  /** A task that passed the first filter: its name as submitted, its
      duration and estimate fields, and its predecessor entries trimmed,
      without the empty ones. */
  datatype KeptTask = KeptTask(name: string, duration: Option<int>, estimates: Estimates,
                               predecessors: seq<string>)

  /** PHP's `$x ?? ''`. */
  function OrEmpty(s: Option<string>): string {
    if s.Some? then s.value else ""
  }

  /** PertController.php:34-41: every entry trimmed (a missing one read as
      the empty string), and the entries empty in PHP's sense dropped. */
  function KeepEntries(raw: seq<Option<string>>): seq<string> {
    if raw == [] then []
    else
      var t := Trim(OrEmpty(raw[|raw| - 1]), IsPhpSpace);
      KeepEntries(raw[..|raw| - 1]) + (if PhpEmpty(t) then [] else [t])
  }

  /** The entries kept are trimmed and not empty. */
  lemma {:induction false} KeepEntriesSound(raw: seq<Option<string>>)
    ensures forall p :: p in KeepEntries(raw) ==> !PhpEmpty(p) && Trim(p, IsPhpSpace) == p
  {
    if raw != [] {
      var x := OrEmpty(raw[|raw| - 1]);
      KeepEntriesSound(raw[..|raw| - 1]);
      TrimIdempotent(x, IsPhpSpace);
    }
  }

  /** Every entry that is not empty once trimmed is kept, trimmed. */
  lemma {:induction false} KeepEntriesComplete(raw: seq<Option<string>>, i: nat)
    requires i < |raw| && !PhpEmpty(Trim(OrEmpty(raw[i]), IsPhpSpace))
    ensures Trim(OrEmpty(raw[i]), IsPhpSpace) in KeepEntries(raw)
  {
    var init := raw[..|raw| - 1];
    if i < |init| {
      assert raw[i] == init[i];
      KeepEntriesComplete(init, i);
    }
  }

  /** PertController.php:30-46 for one task: None when its trimmed name is
      empty in PHP's sense. */
  function KeepTask(t: FormTask): Option<KeptTask> {
    if PhpEmpty(Trim(OrEmpty(t.name), IsPhpSpace)) then None
    else Some(KeptTask(OrEmpty(t.name), t.duration, t.estimates,
                       if t.predecessors.Some? then KeepEntries(t.predecessors.value) else []))
  }

  /** The tasks that pass the first filter, in order. */
  function KeptTasks(tasks: seq<FormTask>): seq<KeptTask> {
    if tasks == [] then []
    else
      var k := KeepTask(tasks[|tasks| - 1]);
      KeptTasks(tasks[..|tasks| - 1]) + (if k.Some? then [k.value] else [])
  }

  /** Every kept task comes from a task of the form whose trimmed name is
      not empty, and there are no more kept tasks than tasks. */
  lemma {:induction false} KeptTasksSound(tasks: seq<FormTask>)
    ensures forall k :: k in KeptTasks(tasks) ==>
              !PhpEmpty(Trim(k.name, IsPhpSpace)) && exists i :: 0 <= i < |tasks| && KeepTask(tasks[i]) == Some(k)
    ensures |KeptTasks(tasks)| <= |tasks|
  {
    if tasks != [] {
      var init, last := tasks[..|tasks| - 1], tasks[|tasks| - 1];
      KeptTasksSound(init);
      var tail := if KeepTask(last).Some? then [KeepTask(last).value] else [];
      assert KeptTasks(tasks) == KeptTasks(init) + tail;
      forall k | k in KeptTasks(tasks)
        ensures !PhpEmpty(Trim(k.name, IsPhpSpace)) && exists i :: 0 <= i < |tasks| && KeepTask(tasks[i]) == Some(k)
      {
        if k in KeptTasks(init) {
          var i :| 0 <= i < |init| && KeepTask(init[i]) == Some(k);
          assert tasks[i] == init[i];
        } else {
          assert KeepTask(tasks[|tasks| - 1]) == Some(k);
        }
      }
    }
  }

  /** Every task of the form whose trimmed name is not empty is kept. */
  lemma {:induction false} KeptTasksComplete(tasks: seq<FormTask>, i: nat)
    requires i < |tasks| && KeepTask(tasks[i]).Some?
    ensures KeepTask(tasks[i]).value in KeptTasks(tasks)
  {
    var init := tasks[..|tasks| - 1];
    var k := KeepTask(tasks[i]).value;
    if i < |init| {
      assert tasks[i] == init[i];
      KeptTasksComplete(init, i);
      assert k in KeptTasks(init);
    } else {
      assert KeepTask(tasks[|tasks| - 1]) == Some(k);
      assert KeptTasks(tasks) == KeptTasks(init) + [k];
    }
  }

  /** PertController.php:27-47. */
  method FilterTasks(tasks: seq<FormTask>) returns (kept: seq<KeptTask>)
    ensures kept == KeptTasks(tasks)
  {
    kept := [];
    for i := 0 to |tasks|
      invariant kept == KeptTasks(tasks[..i])
    {
      assert tasks[..i + 1][..i] == tasks[..i];
      var name := Trim(OrEmpty(tasks[i].name), IsPhpSpace);
      if !PhpEmpty(name) {
        var preds := if tasks[i].predecessors.Some? then KeepEntries(tasks[i].predecessors.value) else [];
        kept := kept + [KeptTask(OrEmpty(tasks[i].name), tasks[i].duration, tasks[i].estimates, preds)];
      }
    }
    assert tasks[..|tasks|] == tasks;
  }

  /** A field that is either left out or above 0 (`nullable` with `gt:0`). */
  predicate AbsentOrPositive(v: Option<int>) {
    v.None? || v.value > 0
  }

  /** PertController.php:56-60 for one task: every duration or estimate given
      is above 0, and a task without a duration gives all three estimates
      (`required_without` on each estimate; the `required_without_all` on the
      duration then holds too). */
  predicate TaskFieldsValid(k: KeptTask) {
    && AbsentOrPositive(k.duration)
    && AbsentOrPositive(k.estimates.optimistic)
    && AbsentOrPositive(k.estimates.mostLikely)
    && AbsentOrPositive(k.estimates.pessimistic)
    && (k.duration.None? ==>
          k.estimates.optimistic.Some? && k.estimates.mostLikely.Some? && k.estimates.pessimistic.Some?)
  }

  /** PertController.php:52-63, the rules the model keeps: at least one task
      left, every task's duration and estimate fields valid, and `t0`, when
      given, at least 0. */
  predicate FormValid(kept: seq<KeptTask>, t0: Option<int>) {
    && |kept| >= 1
    && (forall i :: 0 <= i < |kept| ==> TaskFieldsValid(kept[i]))
    && (t0.Some? ==> t0.value >= 0)
  }

  /** The task names: trimmed, then upper-cased, as the API does. A name that
      passed the filter never becomes empty, so the `continue` of
      PertController.php:70 never fires. */
  lemma NameNeverEmpty(k: KeptTask)
    requires !PhpEmpty(Trim(k.name, IsPhpSpace))
    ensures !PhpEmpty(PertApi.Normalize(k.name))
  {
    UpperPhpEmpty(Trim(k.name, IsPhpSpace));
  }

  /** The `[\s,;]` test of `preg_match` (PertController.php:86). */
  predicate HasSeparator(s: string) {
    exists c :: c in s && IsListSeparator(c)
  }

  /** PertController.php:88-93: the names the pieces of a split entry give,
      trimmed and upper-cased, without the empty ones and `name` itself. */
  function SplitNames(pieces: seq<string>, name: string): (r: seq<string>)
    ensures forall x :: x in r ==> !PhpEmpty(x) && x != name
  {
    if pieces == [] then []
    else
      var x := Upper(Trim(pieces[|pieces| - 1], IsPhpSpace));
      SplitNames(pieces[..|pieces| - 1], name) + (if !PhpEmpty(x) && x != name then [x] else [])
  }

  /** PertController.php:81-100: the names one predecessor entry gives to
      task `name`. */
  function EntryNames(p: string, name: string): (r: seq<string>)
    ensures forall x :: x in r ==> !PhpEmpty(x) && x != name
  {
    var t := Trim(p, IsPhpSpace);
    if PhpEmpty(t) then []
    else if HasSeparator(t) then SplitNames(ListSplit(t), name)
    else
      UpperPhpEmpty(t);
      if Upper(t) != name then [Upper(t)] else []
  }

  /** PertController.php:79-101: the names of every entry, in order. */
  function GatherNames(ps: seq<string>, name: string): (r: seq<string>)
    ensures forall x :: x in r ==> !PhpEmpty(x) && x != name
  {
    if ps == [] then [] else GatherNames(ps[..|ps| - 1], name) + EntryNames(ps[|ps| - 1], name)
  }

  /** PertController.php:79-105: the cleaned predecessor list, repeats
      removed (`array_unique`, then `array_values`). */
  function CleanNames(ps: seq<string>, name: string): seq<string> {
    Dedupe(GatherNames(ps, name))
  }

  /** The cleaned list has no repeats, keeps each name where it first
      occurs, holds exactly the names the entries give, and never the task
      itself or an empty name. */
  lemma CleanNamesFacts(ps: seq<string>, name: string)
    ensures var r, g := CleanNames(ps, name), GatherNames(ps, name);
            && Distinct(r)
            && (forall x :: x in r <==> x in g)
            && name !in r
            && (forall x :: x in r ==> !PhpEmpty(x))
            && (forall i, j :: 0 <= i < j < |r| ==> IndexOf(g, r[i]) < IndexOf(g, r[j]))
  {
    DedupeOrder(GatherNames(ps, name));
  }

  /** No upper-case ASCII letter is missing: the string holds no lower-case
      ASCII letter. */
  predicate UpperCased(s: string) {
    forall i :: 0 <= i < |s| ==> !('a' <= s[i] <= 'z')
  }

  /** Every name an entry gives is upper-cased and holds no separator. */
  lemma EntryNamesClean(p: string, name: string)
    ensures forall x :: x in EntryNames(p, name) ==>
              UpperCased(x) && forall c :: c in x ==> !IsListSeparator(c)
  {
    var t := Trim(p, IsPhpSpace);
    if !PhpEmpty(t) {
      if HasSeparator(t) {
        ListSplitPieces(t);
        SplitNamesClean(ListSplit(t), name);
      } else {
        UpperNormal(t);
        UpperNoSeparator(t);
      }
    }
  }

  /** Upper-casing an entry without a separator adds none. */
  lemma UpperNoSeparator(t: string)
    requires !HasSeparator(t)
    ensures forall c :: c in Upper(t) ==> !IsListSeparator(c)
  {
    forall c | c in Upper(t) ensures !IsListSeparator(c) {
      var i :| 0 <= i < |t| && Upper(t)[i] == c;
      assert t[i] in t;
    }
  }

  lemma {:induction false} SplitNamesClean(pieces: seq<string>, name: string)
    requires forall i, c :: 0 <= i < |pieces| && c in pieces[i] ==> !IsListSeparator(c)
    ensures forall x :: x in SplitNames(pieces, name) ==>
              UpperCased(x) && forall c :: c in x ==> !IsListSeparator(c)
  {
    if pieces != [] {
      var init, last := pieces[..|pieces| - 1], pieces[|pieces| - 1];
      SplitNamesClean(init, name);
      CleanedHasNoSeparator(last);
      UpperNormal(Trim(last, IsPhpSpace));
    }
  }

  /** Every cleaned name is upper-cased and holds no separator. */
  lemma {:induction false} GatherNamesClean(ps: seq<string>, name: string)
    ensures forall x :: x in GatherNames(ps, name) ==>
              UpperCased(x) && forall c :: c in x ==> !IsListSeparator(c)
  {
    if ps != [] {
      GatherNamesClean(ps[..|ps| - 1], name);
      EntryNamesClean(ps[|ps| - 1], name);
    }
  }

  /** When no entry needs splitting, the form cleans a predecessor list as
      the API does, with the repeats removed. */
  lemma {:induction false} CleanMatchesApi(ps: seq<string>, name: string)
    requires forall p :: p in ps ==> !HasSeparator(Trim(p, IsPhpSpace))
    ensures GatherNames(ps, name) == PertApi.CleanPredecessors(ps, name)
    ensures CleanNames(ps, name) == Dedupe(PertApi.CleanPredecessors(ps, name))
  {
    if ps != [] {
      var init, p := ps[..|ps| - 1], ps[|ps| - 1];
      CleanMatchesApi(init, name);
      var t := Trim(p, IsPhpSpace);
      UpperPhpEmpty(t);
      NormalizeAllSnoc(ps);
    }
  }

  lemma NormalizeAllSnoc(ps: seq<string>)
    requires ps != []
    ensures PertApi.NormalizeAll(ps)
            == PertApi.NormalizeAll(ps[..|ps| - 1]) + [PertApi.Normalize(ps[|ps| - 1])]
  {
  }

  /** The duration test of PertController.php:110-111: a missing duration
      reads as 0. */
  predicate BadDuration(k: KeptTask) {
    k.duration.None? || k.duration.value <= 0
  }

  /** The name of the first task whose duration is missing or not positive. */
  function FirstBadDuration(kept: seq<KeptTask>): (r: Option<string>)
    ensures r.None? <==> forall i :: 0 <= i < |kept| ==> !BadDuration(kept[i])
    ensures r.Some? ==> exists i :: FirstBadAt(kept, i) && r.value == PertApi.Normalize(kept[i].name)
  {
    if kept == [] then None
    else if BadDuration(kept[0]) then
      assert FirstBadAt(kept, 0);
      Some(PertApi.Normalize(kept[0].name))
    else
      var r := FirstBadDuration(kept[1..]);
      FirstBadTail(kept, r);
      r
  }

  /** Task `i` is the first whose duration is missing or not positive. */
  predicate FirstBadAt(kept: seq<KeptTask>, i: int) {
    && 0 <= i < |kept| && BadDuration(kept[i])
    && forall j :: 0 <= j < i ==> !BadDuration(kept[j])
  }

  /** With a good first task, the first bad task of the rest is the first
      bad task of the whole list. */
  lemma FirstBadTail(kept: seq<KeptTask>, r: Option<string>)
    requires kept != [] && !BadDuration(kept[0])
    requires r.None? <==> forall i :: 0 <= i < |kept[1..]| ==> !BadDuration(kept[1..][i])
    requires r.Some? ==> exists i :: FirstBadAt(kept[1..], i) && r.value == PertApi.Normalize(kept[1..][i].name)
    ensures r.None? <==> forall i :: 0 <= i < |kept| ==> !BadDuration(kept[i])
    ensures r.Some? ==> exists i :: FirstBadAt(kept, i) && r.value == PertApi.Normalize(kept[i].name)
  {
    forall i | 0 < i < |kept| ensures kept[i] == kept[1..][i - 1] { }
    if r.Some? {
      var i :| FirstBadAt(kept[1..], i) && r.value == PertApi.Normalize(kept[1..][i].name);
      assert FirstBadAt(kept, i + 1);
    }
  }

  /** PertController.php:69-124 for one task whose duration is valid. */
  function PrepareKept(k: KeptTask): Task
    requires !BadDuration(k)
  {
    var name := PertApi.Normalize(k.name);
    Task(name, if k.duration.value < 1 then 1 else k.duration.value, CleanNames(k.predecessors, name))
  }

  function PreparedForm(kept: seq<KeptTask>): (r: seq<Task>)
    requires forall i :: 0 <= i < |kept| ==> !BadDuration(kept[i])
    ensures |r| == |kept|
    ensures forall i :: 0 <= i < |kept| ==> r[i] == PrepareKept(kept[i])
  {
    if kept == [] then [] else PreparedForm(kept[..|kept| - 1]) + [PrepareKept(kept[|kept| - 1])]
  }

  /** Every prepared task has a duration of at least 1 (the one given, when
      it is positive), an upper-cased name that is not empty, and a
      predecessor list without repeats, self-references or empty names. */
  lemma PreparedFacts(k: KeptTask)
    requires !BadDuration(k) && !PhpEmpty(Trim(k.name, IsPhpSpace))
    ensures var t := PrepareKept(k);
            && t.duration >= 1 && t.duration == k.duration.value
            && !PhpEmpty(t.name) && UpperCased(t.name)
            && Distinct(t.preds) && t.name !in t.preds
            && forall x :: x in t.preds ==> !PhpEmpty(x) && UpperCased(x)
  {
    var name := PertApi.Normalize(k.name);
    NameNeverEmpty(k);
    UpperNormal(Trim(k.name, IsPhpSpace));
    CleanNamesFacts(k.predecessors, name);
    GatherNamesClean(k.predecessors, name);
  }

  /** PertController.php:80-101 for one entry that holds a separator: the
      names of its pieces. */
  method SplitEntry(preds0: seq<string>, pieces: seq<string>, name: string) returns (preds: seq<string>)
    ensures preds == preds0 + SplitNames(pieces, name)
  {
    preds := preds0;
    for j := 0 to |pieces|
      invariant preds == preds0 + SplitNames(pieces[..j], name)
    {
      var single := Upper(Trim(pieces[j], IsPhpSpace));
      SplitNamesSnoc(pieces, j, name);
      if !PhpEmpty(single) && single != name {
        AppendAssoc(preds0, SplitNames(pieces[..j], name), single);
        preds := preds + [single];
      }
    }
    assert pieces[..|pieces|] == pieces;
  }

  lemma SplitNamesSnoc(pieces: seq<string>, j: nat, name: string)
    requires j < |pieces|
    ensures var x := Upper(Trim(pieces[j], IsPhpSpace));
            SplitNames(pieces[..j + 1], name)
            == SplitNames(pieces[..j], name) + (if !PhpEmpty(x) && x != name then [x] else [])
  {
    assert pieces[..j + 1][..j] == pieces[..j];
  }

  lemma AppendAssoc(a: seq<string>, b: seq<string>, x: string)
    ensures a + b + [x] == a + (b + [x])
  {
  }

  /** PertController.php:79-105. */
  method CleanEntries(ps: seq<string>, name: string) returns (preds: seq<string>)
    ensures preds == CleanNames(ps, name)
  {
    preds := [];
    for i := 0 to |ps|
      invariant preds == GatherNames(ps[..i], name)
    {
      assert ps[..i + 1][..i] == ps[..i];
      var p := Trim(ps[i], IsPhpSpace);
      if PhpEmpty(p) {
        continue;
      }
      if HasSeparator(p) {
        preds := SplitEntry(preds, ListSplit(p), name);
      } else {
        var upper := Upper(p);
        if upper != name {
          preds := preds + [upper];
        }
      }
    }
    assert ps[..|ps|] == ps;
    preds := Dedupe(preds);
  }

  /** PertController.php:66-125: prepares the tasks in order, and stops at
      the first whose duration is missing or not positive. */
  method PrepareTasks(kept: seq<KeptTask>) returns (prepared: seq<Task>, bad: Option<string>)
    ensures bad == FirstBadDuration(kept)
    ensures bad.None? ==> prepared == PreparedForm(kept)
  {
    prepared := [];
    for i := 0 to |kept|
      invariant forall j :: 0 <= j < i ==> !BadDuration(kept[j])
      invariant prepared == PreparedForm(kept[..i])
      invariant FirstBadDuration(kept) == FirstBadDuration(kept[i..])
    {
      var t := kept[i];
      var name := PertApi.Normalize(t.name);
      var preds := CleanEntries(t.predecessors, name);
      assert kept[i..][0] == t;
      if t.duration.None? || t.duration.value <= 0 {
        return [], Some(name);
      }
      assert kept[i..][1..] == kept[i + 1..];
      var duration := if t.duration.value < 1 then 1 else t.duration.value;
      PreparedFormSnoc(kept, i);
      prepared := prepared + [Task(name, duration, preds)];
    }
    assert kept[..|kept|] == kept;
    bad := None;
  }

  lemma PreparedFormSnoc(kept: seq<KeptTask>, i: nat)
    requires i < |kept| && forall j :: 0 <= j <= i ==> !BadDuration(kept[j])
    ensures PreparedForm(kept[..i + 1]) == PreparedForm(kept[..i]) + [PrepareKept(kept[i])]
  {
    assert kept[..i + 1][..i] == kept[..i];
  }

  /** A predecessor that names no task, and the task that lists it. */
  datatype Dangling = Dangling(pred: string, task: string)

  /** The first predecessor entry, task by task and entry by entry, that is
      not in `names`, with its task. */
  function FirstDangling(tasks: seq<Task>, names: seq<string>): (r: Option<Dangling>)
  {
    if tasks == [] then None
    else
      var m := PertApi.MissingIn(tasks[0].preds, names);
      if m.Some? then Some(Dangling(m.value, tasks[0].name)) else FirstDangling(tasks[1..], names)
  }

  /** The scan finds the same predecessor as the API's, and names the task
      whose list holds it, after which every earlier task's predecessors
      are known. */
  lemma {:induction false} FirstDanglingExact(tasks: seq<Task>, names: seq<string>)
    ensures FirstDangling(tasks, names).None? <==> PertApi.FirstUnknown(tasks, names).None?
    ensures FirstDangling(tasks, names).Some? ==>
              var d := FirstDangling(tasks, names).value;
              && d.pred == PertApi.FirstUnknown(tasks, names).value
              && exists i :: && 0 <= i < |tasks| && tasks[i].name == d.task && d.pred in tasks[i].preds
                             && forall k, p :: 0 <= k < i && p in tasks[k].preds ==> p in names
  {
    if tasks != [] && PertApi.MissingIn(tasks[0].preds, names).None? {
      var rest := tasks[1..];
      FirstDanglingExact(rest, names);
      if FirstDangling(rest, names).Some? {
        var d := FirstDangling(rest, names).value;
        var i :| && 0 <= i < |rest| && rest[i].name == d.task && d.pred in rest[i].preds
                 && forall k, p :: 0 <= k < i && p in rest[k].preds ==> p in names;
        assert tasks[i + 1] == rest[i];
        forall k, p | 0 <= k < i + 1 && p in tasks[k].preds ensures p in names {
          if k > 0 { assert tasks[k] == rest[k - 1]; }
        }
      }
    }
  }

  /** PertController.php:129-136. */
  method CheckPredecessors(prepared: seq<Task>, validNames: seq<string>) returns (missing: Option<Dangling>)
    ensures missing == FirstDangling(prepared, validNames)
  {
    for i := 0 to |prepared|
      invariant FirstDangling(prepared, validNames) == FirstDangling(prepared[i..], validNames)
    {
      var ps := prepared[i].preds;
      assert prepared[i..][0] == prepared[i];
      for j := 0 to |ps|
        invariant PertApi.MissingIn(ps, validNames) == PertApi.MissingIn(ps[j..], validNames)
      {
        if ps[j] !in validNames {
          return Some(Dangling(ps[j], prepared[i].name));
        }
        assert ps[j..][1..] == ps[j + 1..];
      }
      assert ps[|ps|..] == [];
      assert prepared[i..][1..] == prepared[i + 1..];
    }
    missing := None;
  }

  /** The handler's answers: the result page, a failed validation, a task
      with a bad duration, an unknown predecessor with the task that lists
      it, or the engine's cycle exception. */
  datatype FormResult =
    | Shown(schedule: Schedule)
    | ValidationFailed
    | InvalidDuration(task: string)
    | UnknownPredecessor(pred: string, task: string)
    | CalculationFailed(unsorted: seq<string>)

  /** PertController.php:20-166 (`generate`), without the session, the log
      and the views. The empty-set test of lines 139-141 and the empty-result
      test of lines 152-154 are not modelled as branches: the contract shows
      that what they test never holds. `sorted` is the order the engine's
      queue reached. */
  method Generate(tasks: seq<FormTask>, t0: Option<int>) returns (r: FormResult, ghost sorted: seq<string>)
    ensures var kept := KeptTasks(tasks);
            && (r.ValidationFailed? <==> !FormValid(kept, t0))
            && (FormValid(kept, t0) ==>
                  && (r.InvalidDuration? <==> FirstBadDuration(kept).Some?)
                  && (r.InvalidDuration? ==> r.task == FirstBadDuration(kept).value))
    ensures var kept := KeptTasks(tasks);
            FormValid(kept, t0) && FirstBadDuration(kept).None? ==>
              var prepared := PreparedForm(kept);
              var missing := FirstDangling(prepared, Names(prepared));
              && (r.UnknownPredecessor? <==> missing.Some?)
              && (r.UnknownPredecessor? ==> missing.value == Dangling(r.pred, r.task))
              && (r.CalculationFailed? <==>
                    missing.None? && !Schedulable(TableKeys(prepared), TableInfo(prepared)))
              && (r.CalculationFailed? ==> PertApi.CycleAnswer(prepared, r.unsorted, sorted))
    ensures r.Shown? ==>
              var s := r.schedule;
              var start := if t0.Some? then t0.value else 1;
              && s.t0 == start
              && s.order != [] && s.es != map[] && s.ef != map[]
              && PertApi.SoundSchedule(s, start)
    ensures r.Shown? ==>
              var kept := KeptTasks(tasks);
              && FormValid(kept, t0) && FirstBadDuration(kept).None?
              && var prepared := PreparedForm(kept);
                 var keys, info := TableKeys(prepared), TableInfo(prepared);
                 var s := r.schedule;
                 && FirstDangling(prepared, Names(prepared)).None?
                 && IsTopologicalOrder(s.order, keys, info)
                 && Scheduled(keys, info, s.order, s.t0, s.es, s.ef, s.duration, s.ls, s.lf)
                 && SlackRule(s.order, keys, info, s.duration, s.es, s.ef, s.ls, s.slack, s.freeSlack)
                 && s.critical == Critical(s.order, s.slack)
                 && s.mermaid == Unlines(MermaidLines(keys, info, s.order, s.critical))
  {
    var kept := FilterTasks(tasks);
    if !FormValid(kept, t0) {
      return ValidationFailed, [];
    }
    var prepared, bad := PrepareTasks(kept);
    if bad.Some? {
      return InvalidDuration(bad.value), [];
    }
    var validNames := Names(prepared);
    var missing := CheckPredecessors(prepared, validNames);
    if missing.Some? {
      return UnknownPredecessor(missing.value.pred, missing.value.task), [];
    }
    var start := if t0.Some? then t0.value else 1;
    var outcome;
    outcome, sorted := Compute(prepared, start);
    if outcome.CycleDetected? {
      r := CalculationFailed(outcome.unsorted);
      return;
    }
    var s := outcome.schedule;
    PertApi.ScheduleIsSound(TableKeys(prepared), TableInfo(prepared), s, start);
    ResultNotEmpty(prepared, s);
    r := Shown(s);
  }

  /** A schedule of at least one task orders it and dates it. */
  lemma ResultNotEmpty(prepared: seq<Task>, s: Schedule)
    requires |prepared| >= 1
    requires IsTopologicalOrder(s.order, TableKeys(prepared), TableInfo(prepared))
    requires forall n :: n in s.order ==> n in s.es && n in s.ef
    ensures s.order != [] && s.es != map[] && s.ef != map[]
  {
    var first := prepared[0].name;
    assert first == Names(prepared)[0];
    assert first in TableKeys(prepared);
    assert first in s.order;
  }
}
