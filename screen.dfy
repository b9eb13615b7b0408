/** The screen as a whole: the container's state together with the `TodoItem`
    row components that the two list containers keep alive between renders.
    A row is keyed by its item's index in the WHOLE list and keeps its own
    state (the id it copied when it was mounted, and its `checked` flag) for
    as long as that key stays rendered in its container. This is what decides
    whether a user can only ever move items from undone to done.
    The container's three handlers appear here again as steps on the whole
    screen (`Submitted`, `Removed`, `Ticked`). They change the list through
    the same functions (`NewItem`, `StatusSet`, `Deleted`) that the methods
    of `TodoApp.TodoAppContainer` are proved equal to, so the two agree on
    the list and the counter. */
module Screen {
  import opened Whitespace
  import opened TodoList

  /** The state of one `TodoItem` row: the id copied from its item when it
      was mounted, and whether its checkbox has been ticked. */
  datatype Row = Row(id: int, checked: bool)

  /** The row a container mounts for `item`: the item's id, unchecked. */
  function Mount(item: Item): Row {
    Row(item.todoId, false)
  }

  /** The keys a container of `stage` renders: the indices, in the whole
      list, of the items of that stage. */
  function Keys(items: seq<Item>, stage: Stage): set<nat> {
    set k: nat | k < |items| && StageOf(items[k]) == stage
  }

  /** Keyed reconciliation of one container after a state change: a key
      still rendered keeps its row and that row's state, a new key mounts a
      fresh row for the item now at that index, and a key no longer rendered
      unmounts its row. */
  function Reconcile(rows: map<nat, Row>, items: seq<Item>, stage: Stage): (r: map<nat, Row>)
    ensures r.Keys == Keys(items, stage)
    ensures forall k :: k in r && k in rows ==> r[k] == rows[k]
    ensures forall k :: k in r && k !in rows ==> k < |items| && !r[k].checked && r[k].id == items[k].todoId
  {
    map k | k in Keys(items, stage) :: if k in rows then rows[k] else Mount(items[k])
  }

  /** The container's counter and list, and the rows of the undone and done containers. */
  datatype Ui = Ui(todoId: nat, items: seq<Item>, undone: map<nat, Row>, done: map<nat, Row>)

  /** The screen after the container's state becomes (`todoId`, `items`). */
  function Render(todoId: nat, items: seq<Item>, undone: map<nat, Row>, done: map<nat, Row>): Ui {
    Ui(todoId, items, Reconcile(undone, items, Undone), Reconcile(done, items, Done))
  }

  /** The screen at start: no items, no rows. */
  function Start(): Ui {
    Ui(0, [], map[], map[])
  }

  /** What a user can do: submit the add box, press a row's X button, or tick
      the checkbox of an undone row (a done row's checkbox is disabled). */
  datatype Action =
    | Submit(text: string)
    | Remove(stage: Stage, key: nat)
    | Tick(key: nat)

  /** The `{id, status}` record a row sends up when its checkbox changes. */
  datatype StatusEvent = StatusEvent(id: int, status: bool)

  /** The event a row sends as written: `checked` flips, and the event
      carries the id the row copied when it was mounted. */
  function TickEventAsWritten(row: Row): StatusEvent {
    StatusEvent(row.id, !row.checked)
  }

  /** The event a row sends once corrected: `checked` flips, and the event
      carries the id of the item the row currently shows, as the X button
      already does. */
  function TickEvent(row: Row, shown: Item): StatusEvent {
    StatusEvent(shown.todoId, !row.checked)
  }

  /** The add box is submitted: blank text changes nothing, other text is
      appended as a new item. */
  function Submitted(ui: Ui, text: string): Ui {
    if IsBlank(text) then ui
    else Render(ui.todoId + 1, ui.items + [NewItem(ui.todoId, text)], ui.undone, ui.done)
  }

  /** The X button of the row keyed `k` in the container of `stage` is
      pressed: it deletes by the id of the item the row shows. */
  function Removed(ui: Ui, stage: Stage, k: nat): Ui {
    var rows := if stage == Undone then ui.undone else ui.done;
    if k in rows && k < |ui.items| then
      Render(ui.todoId, Deleted(ui.items, ui.items[k].todoId), ui.undone, ui.done)
    else ui
  }

  /** The checkbox of the undone row keyed `k` is ticked: the row's
      `checked` flips, its event goes to the status handler, and both
      containers re-render. `asWritten` picks the row's event as the source
      computes it, otherwise the corrected one. */
  function Ticked(ui: Ui, k: nat, asWritten: bool): Ui {
    if k in ui.undone && k < |ui.items| then
      var row := ui.undone[k];
      var e := if asWritten then TickEventAsWritten(row) else TickEvent(row, ui.items[k]);
      Render(ui.todoId, StatusSet(ui.items, e.id, e.status), ui.undone[k := Row(row.id, e.status)], ui.done)
    else ui
  }

  /** The screen after one user action. An action on a key that is not
      rendered is not possible and changes nothing. */
  function Apply(ui: Ui, a: Action, asWritten: bool): Ui {
    match a
    case Submit(text) => Submitted(ui, text)
    case Remove(stage, k) => Removed(ui, stage, k)
    case Tick(k) => Ticked(ui, k, asWritten)
  }

  /** The screen after a sequence of user actions, each row tick taken as
      written or as corrected. */
  function Run(ui: Ui, actions: seq<Action>, asWritten: bool): Ui
    decreases |actions|
  {
    if actions == [] then ui else Run(Apply(ui, actions[0], asWritten), actions[1..], asWritten)
  }

  /** What holds between user actions: the list invariant, each container
      shows exactly the keys of its stage, and no undone row is ticked. */
  ghost predicate Consistent(ui: Ui) {
    && WellFormed(ui.items, ui.todoId)
    && ui.undone.Keys == Keys(ui.items, Undone)
    && ui.done.Keys == Keys(ui.items, Done)
    && Unticked(ui.undone)
  }

  /** No row of `rows` has its checkbox ticked. */
  ghost predicate Unticked(rows: map<nat, Row>) {
    forall k :: k in rows ==> !rows[k].checked
  }

  /** No item that was done before a step is undone after it. */
  ghost predicate NoneReopened(before: seq<Item>, after: seq<Item>) {
    forall i, j :: 0 <= i < |before| && 0 <= j < |after| && before[i].todoId == after[j].todoId && before[i].status
      ==> after[j].status
  }

  /** A submit keeps the screen consistent. */
  lemma SubmitKeepsConsistent(ui: Ui, text: string)
    requires Consistent(ui)
    ensures Consistent(Submitted(ui, text))
  {
    AddKeepsWellFormed(ui.items, ui.todoId, text);
  }

  /** A delete keeps the screen consistent. */
  lemma RemoveKeepsConsistent(ui: Ui, stage: Stage, k: nat)
    requires Consistent(ui)
    ensures Consistent(Removed(ui, stage, k))
  {
    if k < |ui.items| {
      DeletedKeepsWellFormed(ui.items, ui.todoId, ui.items[k].todoId);
    }
  }

  /** Once corrected, ticking an undone row sends status true for the item it
      shows, which leaves the undone container, taking the ticked row with it. */
  lemma TickKeepsConsistent(ui: Ui, k: nat)
    requires Consistent(ui)
    ensures Consistent(Ticked(ui, k, false))
    ensures k in ui.undone ==> Ticked(ui, k, false).items == StatusSet(ui.items, ui.items[k].todoId, true)
  {
    if k in ui.undone {
      assert k < |ui.items| && !ui.undone[k].checked;
      var id := ui.items[k].todoId;
      StatusSetKeepsWellFormed(ui.items, ui.todoId, id, true);
      var after := Ticked(ui, k, false);
      assert after.items == StatusSet(ui.items, id, true);
      assert k !in after.undone;
    }
  }

  /** Every corrected step keeps the screen consistent. */
  lemma ApplyKeepsConsistent(ui: Ui, a: Action)
    requires Consistent(ui)
    ensures Consistent(Apply(ui, a, false))
  {
    match a
    case Submit(text) => SubmitKeepsConsistent(ui, text);
    case Remove(stage, k) => RemoveKeepsConsistent(ui, stage, k);
    case Tick(k) => TickKeepsConsistent(ui, k);
  }

  /** Every screen reached by corrected actions is consistent. */
  lemma {:induction false} RunKeepsConsistent(ui: Ui, actions: seq<Action>)
    requires Consistent(ui)
    ensures Consistent(Run(ui, actions, false))
    decreases |actions|
  {
    if actions != [] {
      ApplyKeepsConsistent(ui, actions[0]);
      RunKeepsConsistent(Apply(ui, actions[0], false), actions[1..]);
    }
  }

  /** No stored item has a blank name: the add box is the only way in, and
      it refuses blank text. */
  ghost predicate NamesNotBlank(ui: Ui) {
    forall i :: 0 <= i < |ui.items| ==> !IsBlank(ui.items[i].name)
  }

  /** Every action, as written or corrected, keeps every stored name
      non-blank: a submit refuses blank text, a status change keeps names and
      a delete keeps only old items. */
  lemma ApplyKeepsNamesNotBlank(ui: Ui, a: Action, asWritten: bool)
    requires NamesNotBlank(ui)
    ensures NamesNotBlank(Apply(ui, a, asWritten))
  {
    match a
    case Submit(text) =>
    case Remove(stage, k) =>
      var r := Apply(ui, a, asWritten).items;
      if r != ui.items {
        DeletedMembers(ui.items, ui.items[k].todoId);
        forall j | 0 <= j < |r| ensures !IsBlank(r[j].name) {
          assert r[j] in ui.items;
        }
      }
    case Tick(k) =>
  }

  /** On every screen reached by a sequence of actions from a screen without
      blank names, as written or corrected, no stored name is blank. */
  lemma {:induction false} RunKeepsNamesNotBlank(ui: Ui, actions: seq<Action>, asWritten: bool)
    requires NamesNotBlank(ui)
    ensures NamesNotBlank(Run(ui, actions, asWritten))
    decreases |actions|
  {
    if actions != [] {
      ApplyKeepsNamesNotBlank(ui, actions[0], asWritten);
      RunKeepsNamesNotBlank(Apply(ui, actions[0], asWritten), actions[1..], asWritten);
    }
  }

  /** On every screen reachable from the start, as written or corrected, no
      stored name is blank. */
  lemma ReachableNamesNotBlank(actions: seq<Action>, asWritten: bool)
    ensures NamesNotBlank(Run(Start(), actions, asWritten))
  {
    RunKeepsNamesNotBlank(Start(), actions, asWritten);
  }

  /** Adding reopens nothing: earlier items keep their status and the new id is fresh. */
  lemma AddReopensNothing(items: seq<Item>, counter: nat, text: string)
    requires WellFormed(items, counter)
    ensures NoneReopened(items, items + [NewItem(counter, text)])
  {
  }

  /** Deleting reopens nothing: every survivor is an item of the old list,
      unchanged, and ids are unique. */
  lemma DeleteReopensNothing(items: seq<Item>, counter: nat, id: int)
    requires WellFormed(items, counter)
    ensures NoneReopened(items, Deleted(items, id))
  {
    var after := Deleted(items, id);
    DeletedMembers(items, id);
    forall i, j | 0 <= i < |items| && 0 <= j < |after| && items[i].todoId == after[j].todoId
      ensures after[j] == items[i]
    {
      assert after[j] in items;
      var i' :| 0 <= i' < |items| && items[i'] == after[j];
      assert i' == i;
    }
  }

  /** Marking items done reopens nothing. */
  lemma MarkDoneReopensNothing(items: seq<Item>, counter: nat, id: int)
    requires WellFormed(items, counter)
    ensures NoneReopened(items, StatusSet(items, id, true))
  {
    var after := StatusSet(items, id, true);
    forall i, j | 0 <= i < |items| && 0 <= j < |after| && items[i].todoId == after[j].todoId
      ensures j == i
    {
      assert after[j].todoId == items[j].todoId;
    }
  }

  /** Once corrected, ticking an undone row marks exactly the item it shows
      as done, and no step ever moves a done item back to undone. */
  lemma ApplyOnlyMovesForward(ui: Ui, a: Action)
    requires Consistent(ui)
    ensures NoneReopened(ui.items, Apply(ui, a, false).items)
    ensures a.Tick? && a.key in ui.undone ==>
              Apply(ui, a, false).items == StatusSet(ui.items, ui.items[a.key].todoId, true)
  {
    match a
    case Submit(text) =>
      AddReopensNothing(ui.items, ui.todoId, text);
    case Remove(stage, k) =>
      if k < |ui.items| {
        DeleteReopensNothing(ui.items, ui.todoId, ui.items[k].todoId);
      }
    case Tick(k) =>
      TickKeepsConsistent(ui, k);
      if k in ui.undone {
        MarkDoneReopensNothing(ui.items, ui.todoId, ui.items[k].todoId);
      }
  }

  /** Once corrected, from every screen the user can reach, no action moves a
      done item back to undone. */
  lemma ReachableStepsOnlyMoveForward(actions: seq<Action>, a: Action)
    ensures var ui := Run(Start(), actions, false);
            NoneReopened(ui.items, Apply(ui, a, false).items)
  {
    StartConsistent();
    RunKeepsConsistent(Start(), actions);
    ApplyOnlyMovesForward(Run(Start(), actions, false), a);
  }

  /** The start screen is consistent. */
  lemma StartConsistent()
    ensures Consistent(Start())
  {
    assert Keys([], Undone) == {};
    assert Keys([], Done) == {};
  }

  /** Submitting text that is not blank appends the new item, mounts a fresh
      row for it in the undone container under the next index, whose first
      tick as written marks the new item done, and leaves every existing row,
      with its state, where it was. */
  lemma SubmitMountsNewRow(ui: Ui, text: string, u: Ui)
    requires Consistent(ui) && !IsBlank(text)
    requires u == Submitted(ui, text)
    ensures Consistent(u)
    ensures u.todoId == ui.todoId + 1
    ensures u.items == ui.items + [NewItem(ui.todoId, text)]
    ensures |ui.items| in u.undone && u.undone[|ui.items|] == Row(ui.todoId + 1, false)
    ensures |ui.items| in u.undone && TickEventAsWritten(u.undone[|ui.items|]) == StatusEvent(ui.todoId + 1, true)
    ensures forall k :: k in ui.undone ==> k in u.undone && u.undone[k] == ui.undone[k]
  {
    SubmitKeepsConsistent(ui, text);
    assert |ui.items| in Keys(u.items, Undone);
    assert |ui.items| !in ui.undone;
    forall k | k in ui.undone ensures k in u.undone {
      assert k in Keys(ui.items, Undone);
      assert u.items[k] == ui.items[k];
    }
  }

  /** Add "a" on the start screen. */
  lemma FirstAdded(u1: Ui)
    requires u1 == Submitted(Start(), "a")
    ensures Consistent(u1) && u1.todoId == 1 && u1.items == [Item(1, "a", false)]
  {
    VisibleCharIsNotBlank("a");
    StartConsistent();
    SubmitMountsNewRow(Start(), "a", u1);
  }

  /** Then add "b": the row keyed 1 in the undone container is mounted for it. */
  lemma SecondAdded(u1: Ui, u2: Ui)
    requires Consistent(u1) && u1.todoId == 1 && u1.items == [Item(1, "a", false)]
    requires u2 == Submitted(u1, "b")
    ensures Consistent(u2) && u2.todoId == 2
    ensures u2.items == [Item(1, "a", false), Item(2, "b", false)]
    ensures 1 in u2.undone && u2.undone[1] == Row(2, false)
  {
    VisibleCharIsNotBlank("b");
    SubmitMountsNewRow(u1, "b", u2);
  }

  /** Then add "c": the row keyed 1 keeps the state it was mounted with. */
  lemma ThirdAdded(u2: Ui, u3: Ui)
    requires Consistent(u2) && u2.todoId == 2
    requires u2.items == [Item(1, "a", false), Item(2, "b", false)]
    requires 1 in u2.undone && u2.undone[1] == Row(2, false)
    requires u3 == Submitted(u2, "c")
    ensures Consistent(u3)
    ensures u3.items == [Item(1, "a", false), Item(2, "b", false), Item(3, "c", false)]
    ensures 0 in u3.undone && 1 in u3.undone && u3.undone[1] == Row(2, false)
  {
    VisibleCharIsNotBlank("c");
    SubmitMountsNewRow(u2, "c", u3);
    assert 0 in Keys(u3.items, Undone);
  }

  /** Add "a", "b" and "c": the undone container holds a row keyed 1 that
      was mounted for "b". */
  lemma ThreeAdded(u1: Ui, u2: Ui, u3: Ui)
    requires u1 == Submitted(Start(), "a")
    requires u2 == Submitted(u1, "b")
    requires u3 == Submitted(u2, "c")
    ensures Consistent(u3)
    ensures u3.items == [Item(1, "a", false), Item(2, "b", false), Item(3, "c", false)]
    ensures 0 in u3.undone && 1 in u3.undone && u3.undone[1] == Row(2, false)
  {
    FirstAdded(u1);
    SecondAdded(u1, u2);
    ThirdAdded(u2, u3);
  }

  /** Then delete "a" with its X button: the row keyed 1, mounted for "b",
      survives and now shows "c". */
  lemma FirstDeleted(u3: Ui, s: Ui)
    requires Consistent(u3)
    requires u3.items == [Item(1, "a", false), Item(2, "b", false), Item(3, "c", false)]
    requires 0 in u3.undone && 1 in u3.undone && u3.undone[1] == Row(2, false)
    requires s == Removed(u3, Undone, 0)
    ensures Consistent(s)
    ensures s.items == [Item(2, "b", false), Item(3, "c", false)]
    ensures 1 in s.undone && s.undone[1] == Row(2, false)
  {
    RemoveKeepsConsistent(u3, Undone, 0);
    var b, c := Item(2, "b", false), Item(3, "c", false);
    assert s.items == [b, c] by {
      assert u3.items[0].todoId == 1 && u3.items[1..] == [b, c];
      assert [b, c][1..] == [c];
      assert Deleted([c], 1) == [c] + Deleted([], 1);
      assert Deleted([b, c], 1) == [b] + Deleted([c], 1);
    }
    assert 1 in Keys(s.items, Undone);
  }

  /** As written, ticking the row keyed 1 of that screen (showing "c") marks
      "b" done, and ticking it again moves "b" back to undone. */
  lemma StaleRowTicks(s: Ui, s1: Ui, s2: Ui)
    requires s.items == [Item(2, "b", false), Item(3, "c", false)]
    requires 1 in s.undone && s.undone[1] == Row(2, false)
    requires s1 == Ticked(s, 1, true)
    requires s2 == Ticked(s1, 1, true)
    ensures s1.items == [Item(2, "b", true), Item(3, "c", false)]
    ensures s2.items == [Item(2, "b", false), Item(3, "c", false)]
  {
    var b, c := Item(2, "b", false), Item(3, "c", false);
    assert s1.items == [b.(status := true), c];
    assert 1 in Keys(s1.items, Undone);
    assert s1.undone[1] == Row(2, true);
  }

  /** As written, a row survives the deletion of an earlier item under its
      old key and acts on the id it copied at mount. Add "a", "b" and "c",
      delete "a", and tick the row that shows "c": "b" is marked done
      instead; tick it again, still showing "c", and "b" is undone again. */
  lemma StaleRowReopensDoneItem(u1: Ui, u2: Ui, u3: Ui, s: Ui, s1: Ui, s2: Ui)
    requires u1 == Apply(Start(), Submit("a"), true)
    requires u2 == Apply(u1, Submit("b"), true)
    requires u3 == Apply(u2, Submit("c"), true)
    requires s == Apply(u3, Remove(Undone, 0), true)
    requires s1 == Apply(s, Tick(1), true)
    requires s2 == Apply(s1, Tick(1), true)
    ensures Consistent(s)
    ensures s1.items == [Item(2, "b", true), Item(3, "c", false)]
    ensures s2.items == [Item(2, "b", false), Item(3, "c", false)]
    ensures !NoneReopened(s1.items, s2.items)
  {
    ThreeAdded(u1, u2, u3);
    FirstDeleted(u3, s);
    StaleRowTicks(s, s1, s2);
    assert s1.items[0].todoId == s2.items[0].todoId && s1.items[0].status && !s2.items[0].status;
  }

  /** Once corrected, ticking the row keyed 1 of that screen (showing "c")
      marks "c" done and leaves "b" undone. */
  lemma CorrectedRowTick(s: Ui, s1: Ui)
    requires Consistent(s)
    requires s.items == [Item(2, "b", false), Item(3, "c", false)]
    requires 1 in s.undone
    requires s1 == Ticked(s, 1, false)
    ensures s1.items == [Item(2, "b", false), Item(3, "c", true)]
  {
    TickKeepsConsistent(s, 1);
    var r := StatusSet(s.items, 3, true);
    assert r[0] == Item(2, "b", false) && r[1] == Item(3, "c", true);
  }

  /** The same user actions on the corrected screen: ticking the row that
      shows "c" marks "c" done, and "b" stays undone. */
  lemma CorrectedRowMarksShownItem(u1: Ui, u2: Ui, u3: Ui, s: Ui, s1: Ui)
    requires u1 == Apply(Start(), Submit("a"), false)
    requires u2 == Apply(u1, Submit("b"), false)
    requires u3 == Apply(u2, Submit("c"), false)
    requires s == Apply(u3, Remove(Undone, 0), false)
    requires s1 == Apply(s, Tick(1), false)
    ensures s1.items == [Item(2, "b", false), Item(3, "c", true)]
  {
    ThreeAdded(u1, u2, u3);
    FirstDeleted(u3, s);
    CorrectedRowTick(s, s1);
  }
}
