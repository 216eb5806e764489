/** The task list the browser form edits before it is sent for scheduling
    (TaskInput.tsx): adding a task from the three input fields, and removing
    a task together with every reference to it. Both operations compute a new
    list and hand it over; the `alert` messages become the outcome's cases and
    the answer to `window.confirm` is a parameter. */
module TaskInput {
  import opened Wrappers
  import opened Seqs
  import opened Text
  import PertGraph
  import PertService

  /** A task as the form keeps it. */
  datatype UiTask = UiTask(id: string, duration: int, predecessors: seq<string>)

  /** The ids of the list, in order. */
  function Ids(tasks: seq<UiTask>): (r: seq<string>)
    ensures |r| == |tasks|
    ensures forall i :: 0 <= i < |tasks| ==> r[i] == tasks[i].id
  {
    seq(|tasks|, i requires 0 <= i < |tasks| => tasks[i].id)
  }

  lemma IdsSnoc(tasks: seq<UiTask>, t: UiTask)
    ensures Ids(tasks + [t]) == Ids(tasks) + [t.id]
  {
    assert forall i :: 0 <= i < |tasks| ==> (tasks + [t])[i] == tasks[i];
  }

  /** The list the form can reach: ids are non-empty and unique, durations
      positive, and every predecessor is the id of an EARLIER task, so the
      references are closed and the list order is a topological order. */
  predicate WellFormed(tasks: seq<UiTask>) {
    && Distinct(Ids(tasks))
    && (forall i :: 0 <= i < |tasks| ==> tasks[i].id != "" && tasks[i].duration >= 1)
    && (forall i, p :: 0 <= i < |tasks| && p in tasks[i].predecessors ==> p in Ids(tasks)[..i])
  }

  /** A task can be appended to a well-formed list exactly when its id is new
      and non-empty, its duration positive and its predecessors existing ids. */
  lemma WellFormedSnoc(tasks: seq<UiTask>, t: UiTask)
    ensures WellFormed(tasks + [t]) <==>
              && WellFormed(tasks)
              && t.id != "" && t.id !in Ids(tasks) && t.duration >= 1
              && forall p :: p in t.predecessors ==> p in Ids(tasks)
  {
    var s := tasks + [t];
    IdsSnoc(tasks, t);
    DistinctAppend(Ids(tasks), [t.id]);
    assert s[|tasks|] == t;
    assert Ids(s)[..|tasks|] == Ids(tasks);
    assert forall i :: 0 <= i < |tasks| ==> s[i] == tasks[i] && Ids(s)[..i] == Ids(tasks)[..i];
  }

  // ---------------------------------------------------------------------
  // addTask (TaskInput.tsx:26-67)
  // ---------------------------------------------------------------------

  /** The id typed into the form, upper-cased and then trimmed
      (TaskInput.tsx:31). */
  function NewId(field: string): string {
    Trim(Upper(field), IsJsSpace)
  }

  predicate IsComma(c: char) {
    c == ','
  }

  /** Each comma-separated piece, trimmed and upper-cased. */
  function CleanPieces(pieces: seq<string>): (r: seq<string>)
    ensures |r| == |pieces|
    ensures forall i :: 0 <= i < |pieces| ==> r[i] == Upper(Trim(pieces[i], IsJsSpace))
  {
    seq(|pieces|, i requires 0 <= i < |pieces| => Upper(Trim(pieces[i], IsJsSpace)))
  }

  /** TaskInput.tsx:45-48: the predecessor field split on commas, each piece
      trimmed and upper-cased, the empty pieces dropped. */
  function PredecessorList(field: string): seq<string> {
    NonEmpty(CleanPieces(Fields(field, IsComma)))
  }

  /** What the form does with its fields: a new list, or the reason it keeps
      the old one (silently for `Ignored`, with an alert otherwise). */
  datatype AddResult =
    | Added(tasks: seq<UiTask>)
    | Ignored
    | DuplicateId(id: string)
    | BadDuration
    | UnknownPredecessors(invalid: seq<string>)

  /** TaskInput.tsx:26-67. The checks run in the source's order: a blank id
      or an empty duration field, an id already in use, a duration that does
      not parse to a positive integer, predecessors that are not ids of the
      list. */
  function AddTask(tasks: seq<UiTask>, idField: string, durationField: string, predsField: string): (r: AddResult)
    ensures r.Ignored? <==> Trim(idField, IsJsSpace) == "" || durationField == ""
    ensures r.DuplicateId? ==> r.id in Ids(tasks) && r.id == NewId(idField)
    ensures r.BadDuration? ==> ParseInt(durationField).None? || ParseInt(durationField).value <= 0
    ensures r.UnknownPredecessors? ==>
              && r.invalid != []
              && forall x :: x in r.invalid <==> x in PredecessorList(predsField) && x !in Ids(tasks)
    ensures r.Added? ==>
              && ParseInt(durationField).Some?
              && r.tasks == tasks + [UiTask(NewId(idField), ParseInt(durationField).value, PredecessorList(predsField))]
              && NewId(idField) !in Ids(tasks)
              && ParseInt(durationField).value >= 1
              && forall p :: p in PredecessorList(predsField) ==> p in Ids(tasks)
  {
    if Trim(idField, IsJsSpace) == "" || durationField == "" then Ignored
    else
      var id := NewId(idField);
      if id in Ids(tasks) then DuplicateId(id)
      else match ParseInt(durationField)
        case None => BadDuration
        case Some(d) =>
          if d <= 0 then BadDuration
          else
            var preds := PredecessorList(predsField);
            var invalid := Without(preds, Ids(tasks));
            if invalid != [] then UnknownPredecessors(invalid)
            else Added(tasks + [UiTask(id, d, preds)])
  }

  /** The list after the form's button is pressed. */
  function AfterAdd(tasks: seq<UiTask>, r: AddResult): seq<UiTask> {
    if r.Added? then r.tasks else tasks
  }

  /** Upper-casing a character never makes or unmakes a JavaScript space. */
  lemma UpperKeepsJsSpace()
    ensures forall c :: IsJsSpace(UpperChar(c)) <==> IsJsSpace(c)
  {
    forall c ensures IsJsSpace(UpperChar(c)) <==> IsJsSpace(c) {
      if 'a' <= c <= 'z' {
        assert 'A' <= UpperChar(c) <= 'Z';
      }
    }
  }

  /** The id stored is the typed id trimmed and upper-cased, in either order,
      and it is non-empty whenever the form goes past its first check. */
  lemma NewIdNonEmpty(field: string)
    ensures NewId(field) == Upper(Trim(field, IsJsSpace))
    ensures Trim(field, IsJsSpace) != "" ==> NewId(field) != ""
  {
    UpperTrimJs(field);
  }

  lemma UpperTrimJs(s: string)
    ensures Trim(Upper(s), IsJsSpace) == Upper(Trim(s, IsJsSpace))
  {
    UpperKeepsJsSpace();
    UpperTrimCommute(s, IsJsSpace);
  }

  /** A predecessor the form keeps is non-empty, trimmed, upper-case and
      holds no comma. */
  predicate CleanName(p: string) {
    && p != "" && Trim(p, IsJsSpace) == p && Upper(p) == p
    && forall c :: c in p ==> c != ','
  }

  lemma CleanPiece(piece: string)
    requires forall c :: c in piece ==> c != ','
    ensures var p := Upper(Trim(piece, IsJsSpace));
            p != "" ==> CleanName(p)
  {
    var t := Trim(piece, IsJsSpace);
    UpperTrimJs(t);
    TrimIdempotent(piece, IsJsSpace);
    UpperNormal(t);
    CleanPieceNoComma(piece);
  }

  lemma CleanPieceNoComma(piece: string)
    requires forall c :: c in piece ==> c != ','
    ensures forall c :: c in Upper(Trim(piece, IsJsSpace)) ==> c != ','
  {
    var t := Trim(piece, IsJsSpace);
    TrimInfix(piece, IsJsSpace);
    forall c | c in Upper(t) ensures c != ',' {
      var i :| 0 <= i < |t| && Upper(t)[i] == c;
      assert t[i] in piece;
    }
  }

  /** Every predecessor the field gives is a clean name. */
  lemma PredecessorListClean(field: string)
    ensures forall p :: p in PredecessorList(field) ==> CleanName(p)
  {
    var f := Fields(field, IsComma);
    forall p | p in PredecessorList(field) ensures CleanName(p) {
      var i :| 0 <= i < |f| && CleanPieces(f)[i] == p;
      FieldNoComma(field, i);
      CleanPiece(f[i]);
    }
  }

  lemma FieldNoComma(field: string, i: nat)
    requires i < |Fields(field, IsComma)|
    ensures forall c :: c in Fields(field, IsComma)[i] ==> c != ','
  {
    FieldsNoSeparator(field, IsComma);
  }

  /** A character that is not a separator extends the last field. */
  lemma FieldsSnocPlain(s: string, c: char, sep: char -> bool)
    requires !sep(c)
    ensures var f := Fields(s, sep);
            Fields(s + [c], sep) == f[..|f| - 1] + [f[|f| - 1] + [c]]
  {
    assert (s + [c])[..|s|] == s;
  }

  /** Splitting a string on a separator it does not hold at the end of
      another string extends the other string's last field. */
  lemma {:induction false} FieldsAppendPlain(s: string, x: string, sep: char -> bool)
    requires forall c :: c in x ==> !sep(c)
    ensures var f := Fields(s, sep);
            Fields(s + x, sep) == f[..|f| - 1] + [f[|f| - 1] + x]
    decreases |x|
  {
    var f := Fields(s, sep);
    var front, last := f[..|f| - 1], f[|f| - 1];
    if x == [] {
      assert s + x == s;
      assert last + x == last;
      assert f == front + [last];
    } else {
      var y, c := x[..|x| - 1], x[|x| - 1];
      assert c in x;
      FieldsAppendPlain(s, y, sep);
      var g := front + [last + y];
      assert g[..|g| - 1] == front;
      FieldsSnocPlain(s + y, c, sep);
      assert s + x == (s + y) + [c];
      assert last + y + [c] == last + x;
    }
  }

  /** Joining clean names with commas and splitting the result on commas
      gives the names back. */
  lemma {:induction false} FieldsOfJoin(ps: seq<string>)
    requires ps != []
    requires forall p, c :: p in ps && c in p ==> c != ','
    ensures Fields(Join(ps, ","), IsComma) == ps
  {
    var init, x := ps[..|ps| - 1], ps[|ps| - 1];
    assert ps == init + [x];
    FieldsAppendPlain("", x, IsComma);
    if init == [] {
      assert "" + x == x;
    } else {
      FieldsOfJoin(init);
      JoinSnoc(init, ",", x);
      var j := Join(init, ",");
      assert (j + ",")[..|j|] == j;
      assert Fields(j + ",", IsComma) == init + [""];
      FieldsAppendPlain(j + ",", x, IsComma);
      assert j + "," + x == (j + ",") + x;
      assert (init + [""])[..|init|] == init;
    }
  }

  lemma {:induction false} NonEmptyKeeps(ps: seq<string>)
    requires forall p :: p in ps ==> p != ""
    ensures NonEmpty(ps) == ps
  {
    if ps != [] {
      var init, last := ps[..|ps| - 1], ps[|ps| - 1];
      assert ps == init + [last];
      assert forall p :: p in init ==> p in ps;
      NonEmptyKeeps(init);
      assert ps[|ps| - 1] in ps;
      assert NonEmpty(ps) == NonEmpty(init) + [last];
    }
  }

  /** Round trip: the predecessor list of a task, written back into the field
      joined with commas, reads as the same list. */
  lemma PredecessorListJoin(ps: seq<string>)
    requires forall p :: p in ps ==> CleanName(p)
    ensures PredecessorList(Join(ps, ",")) == ps
  {
    if ps == [] {
      EmptyField();
    } else {
      FieldsOfJoin(ps);
      forall i | 0 <= i < |ps| ensures CleanPieces(ps)[i] == ps[i] {
        assert ps[i] in ps;
      }
      assert CleanPieces(ps) == ps;
      NonEmptyKeeps(ps);
    }
  }

  lemma EmptyField()
    ensures PredecessorList("") == []
  {
    assert Fields("", IsComma) == [""];
    assert Trim("", IsJsSpace) == "";
    assert CleanPieces([""]) == [""];
    assert NonEmpty([""]) == [];
  }

  /** A successful add appends one task: its id is new and non-empty, its
      duration positive and its predecessors clean names of earlier tasks,
      never the task itself. */
  lemma AddedTask(tasks: seq<UiTask>, idField: string, durationField: string, predsField: string)
    requires AddTask(tasks, idField, durationField, predsField).Added?
    ensures var s := AddTask(tasks, idField, durationField, predsField).tasks;
            && |s| == |tasks| + 1 && s[..|tasks|] == tasks
            && s[|tasks|].id == Upper(Trim(idField, IsJsSpace)) != ""
            && Some(s[|tasks|].duration) == ParseInt(durationField) && s[|tasks|].duration >= 1
            && (forall p :: p in s[|tasks|].predecessors ==> CleanName(p) && p in Ids(tasks))
            && s[|tasks|].id !in s[|tasks|].predecessors
  {
    NewIdNonEmpty(idField);
    PredecessorListClean(predsField);
    var s := AddTask(tasks, idField, durationField, predsField).tasks;
    assert s[..|tasks|] == tasks;
  }

  /** Adding keeps the list well-formed, whatever the outcome. */
  lemma AddKeepsWellFormed(tasks: seq<UiTask>, idField: string, durationField: string, predsField: string)
    requires WellFormed(tasks)
    ensures WellFormed(AfterAdd(tasks, AddTask(tasks, idField, durationField, predsField)))
  {
    var r := AddTask(tasks, idField, durationField, predsField);
    if r.Added? {
      NewIdNonEmpty(idField);
      WellFormedSnoc(tasks, r.tasks[|tasks|]);
      assert r.tasks == tasks + [r.tasks[|tasks|]];
    }
  }

  // ---------------------------------------------------------------------
  // removeTask (TaskInput.tsx:69-87)
  // ---------------------------------------------------------------------

  /** TaskInput.tsx:71: the ids of the tasks that list `id` as a predecessor,
      in list order (named in the confirmation question). */
  function Dependents(tasks: seq<UiTask>, id: string): (r: seq<string>)
    ensures forall x :: x in r <==> exists i :: 0 <= i < |tasks| && tasks[i].id == x && id in tasks[i].predecessors
  {
    if tasks == [] then []
    else
      var init, last := tasks[..|tasks| - 1], tasks[|tasks| - 1];
      assert tasks == init + [last];
      Dependents(init, id) + (if id in last.predecessors then [last.id] else [])
  }

  /** One task with `id` taken out of its predecessor list. */
  function Unlink(t: UiTask, id: string): UiTask {
    t.(predecessors := Without(t.predecessors, [id]))
  }

  /** TaskInput.tsx:79-84: the other tasks, in order, each with `id` taken
      out of its predecessor list. */
  function Strip(tasks: seq<UiTask>, id: string): seq<UiTask> {
    if tasks == [] then []
    else
      var init, last := tasks[..|tasks| - 1], tasks[|tasks| - 1];
      Strip(init, id) + (if last.id == id then [] else [Unlink(last, id)])
  }

  /** TaskInput.tsx:69-87. When some task depends on `id`, the list changes
      only if the user confirms. */
  function RemoveTask(tasks: seq<UiTask>, id: string, confirmed: bool): (r: seq<UiTask>)
    ensures Dependents(tasks, id) == [] || confirmed ==> r == Strip(tasks, id)
    ensures Dependents(tasks, id) != [] && !confirmed ==> r == tasks
  {
    if Dependents(tasks, id) != [] && !confirmed then tasks else Strip(tasks, id)
  }

  /** The stripped list keeps the other ids, in order. */
  lemma {:induction false} StripIds(tasks: seq<UiTask>, id: string)
    ensures Ids(Strip(tasks, id)) == Without(Ids(tasks), [id])
  {
    if tasks != [] {
      var init, last := tasks[..|tasks| - 1], tasks[|tasks| - 1];
      StripIds(init, id);
      assert tasks == init + [last];
      IdsSnoc(init, last);
      WithoutSnoc(Ids(init), last.id, [id]);
      if last.id != id {
        IdsSnoc(Strip(init, id), Unlink(last, id));
      }
    }
  }

  /** Each task of the stripped list is an original task other than `id`,
      with only `id` removed from its predecessors; so `id` occurs nowhere. */
  lemma {:induction false} StripOrigin(tasks: seq<UiTask>, id: string, i: nat)
    requires i < |Strip(tasks, id)|
    ensures exists j :: 0 <= j < |tasks| && Strip(tasks, id)[i] == Unlink(tasks[j], id) && tasks[j].id != id
    ensures id !in Strip(tasks, id)[i].predecessors
  {
    var init, last := tasks[..|tasks| - 1], tasks[|tasks| - 1];
    var r0 := Strip(init, id);
    assert tasks == init + [last];
    if i < |r0| {
      StripOrigin(init, id, i);
      var j :| 0 <= j < |init| && r0[i] == Unlink(init[j], id) && init[j].id != id;
      assert tasks[j] == init[j];
    } else {
      assert tasks[|init|] == last;
    }
  }

  lemma {:induction false} WithoutSnoc<T(!new)>(s: seq<T>, x: T, drop: seq<T>)
    ensures Without(s + [x], drop) == Without(s, drop) + (if x in drop then [] else [x])
  {
    if s != [] {
      assert (s + [x])[1..] == s[1..] + [x];
      WithoutSnoc(s[1..], x, drop);
    } else {
      assert s + [x] == [x];
    }
  }

  /** Removing keeps the list well-formed, whether or not the user confirms. */
  lemma {:induction false} StripKeepsWellFormed(tasks: seq<UiTask>, id: string)
    requires WellFormed(tasks)
    ensures WellFormed(Strip(tasks, id))
  {
    if tasks != [] {
      var init, last := tasks[..|tasks| - 1], tasks[|tasks| - 1];
      assert tasks == init + [last];
      WellFormedSnoc(init, last);
      StripKeepsWellFormed(init, id);
      if last.id != id {
        var t := Unlink(last, id);
        StripIds(init, id);
        assert Strip(tasks, id) == Strip(init, id) + [t];
        WellFormedSnoc(Strip(init, id), t);
      } else {
        assert Strip(tasks, id) == Strip(init, id);
      }
    }
  }

  lemma RemoveKeepsWellFormed(tasks: seq<UiTask>, id: string, confirmed: bool)
    requires WellFormed(tasks)
    ensures WellFormed(RemoveTask(tasks, id, confirmed))
  {
    StripKeepsWellFormed(tasks, id);
  }

  /** Removing an id no task carries changes nothing in a well-formed list
      (no task can list it, so no confirmation is asked either). */
  lemma {:induction false} RemoveAbsent(tasks: seq<UiTask>, id: string, confirmed: bool)
    requires WellFormed(tasks) && id !in Ids(tasks)
    ensures Dependents(tasks, id) == []
    ensures RemoveTask(tasks, id, confirmed) == tasks
  {
    DependentsAbsent(tasks, id);
    StripAbsent(tasks, id);
  }

  lemma {:induction false} StripAbsent(tasks: seq<UiTask>, id: string)
    requires WellFormed(tasks) && id !in Ids(tasks)
    ensures Strip(tasks, id) == tasks
  {
    if tasks != [] {
      var init, last := tasks[..|tasks| - 1], tasks[|tasks| - 1];
      assert tasks == init + [last];
      WellFormedSnoc(init, last);
      IdsSnoc(init, last);
      assert id !in Ids(init) && last.id != id;
      StripAbsent(init, id);
      assert id !in last.predecessors;
      WithoutNone(last.predecessors, [id]);
      assert Strip(tasks, id) == Strip(init, id) + [Unlink(last, id)];
    }
  }

  lemma {:induction false} WithoutNone<T(!new)>(s: seq<T>, drop: seq<T>)
    requires forall x :: x in s ==> x !in drop
    ensures Without(s, drop) == s
  {
    if s != [] {
      assert s[0] in s;
      assert forall x :: x in s[1..] ==> x in s;
      WithoutNone(s[1..], drop);
    }
  }

  lemma DependentsAbsent(tasks: seq<UiTask>, id: string)
    requires WellFormed(tasks) && id !in Ids(tasks)
    ensures Dependents(tasks, id) == []
  {
    forall i, p | 0 <= i < |tasks| && p in tasks[i].predecessors ensures p in Ids(tasks) {
      assert p in Ids(tasks)[..i];
    }
  }

  /** Round trip: removing the task just added gives back the list it was
      added to, without a confirmation question. */
  lemma AddThenRemove(tasks: seq<UiTask>, idField: string, durationField: string, predsField: string, confirmed: bool)
    requires WellFormed(tasks)
    requires AddTask(tasks, idField, durationField, predsField).Added?
    ensures var s := AddTask(tasks, idField, durationField, predsField).tasks;
            && Dependents(s, s[|tasks|].id) == []
            && RemoveTask(s, s[|tasks|].id, confirmed) == tasks
  {
    var s := AddTask(tasks, idField, durationField, predsField).tasks;
    var t := s[|tasks|];
    AddedTask(tasks, idField, durationField, predsField);
    assert s == tasks + [t];
    DependentsAbsent(tasks, t.id);
    StripAbsent(tasks, t.id);
    assert s[..|s| - 1] == tasks;
  }

  // ---------------------------------------------------------------------
  // The list as the scheduling engine sees it
  // ---------------------------------------------------------------------

  /** The engine's task records for the list. */
  function Graph(tasks: seq<UiTask>): (g: seq<PertGraph.Task>)
    ensures |g| == |tasks|
    ensures forall i :: 0 <= i < |tasks| ==> g[i] == PertGraph.Task(tasks[i].id, tasks[i].duration, tasks[i].predecessors)
  {
    seq(|tasks|, i requires 0 <= i < |tasks| => PertGraph.Task(tasks[i].id, tasks[i].duration, tasks[i].predecessors))
  }

  /** A well-formed list whose predecessor lists have no repeats is one the
      engine can schedule: the list order itself is a topological order. */
  lemma WellFormedSchedulable(tasks: seq<UiTask>)
    requires WellFormed(tasks)
    requires forall i :: 0 <= i < |tasks| ==> Distinct(tasks[i].predecessors)
    ensures PertService.Schedulable(PertService.TableKeys(Graph(tasks)), PertService.TableInfo(Graph(tasks)))
  {
    var g := Graph(tasks);
    var ids := Ids(tasks);
    assert PertService.Names(g) == ids;
    var keys, info := PertService.TableKeys(g), PertService.TableInfo(g);
    assert keys == ids;
    forall i | 0 <= i < |tasks| ensures info[ids[i]] == g[i] {
      TableEntry(tasks, i);
    }
    assert PertGraph.Precedes(ids, info);
    assert PertGraph.IsTopologicalOrder(ids, keys, info);
  }

  lemma TableEntry(tasks: seq<UiTask>, i: nat)
    requires Distinct(Ids(tasks)) && i < |tasks|
    ensures PertService.TableInfo(Graph(tasks))[tasks[i].id] == Graph(tasks)[i]
  {
    var g, ids := Graph(tasks), Ids(tasks);
    var k := ids[i];
    assert PertService.Names(g) == ids;
    assert k in PertService.Names(g);
    PertService.LastWins(g, k);
    var j :| 0 <= j < |g| && g[j] == PertService.TableInfo(g)[k] && g[j].name == k;
    assert ids[j] == k;
  }
}
