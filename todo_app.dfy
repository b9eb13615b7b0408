/** The stateful components: the top-level container that owns the to-do
    state and the add box that guards and forwards new text. Each handler is
    one atomic, sequential state update. */
module TodoApp {
  import opened Whitespace
  import opened TodoList

  /** `TodoAppContainer`: the id counter and the ordered list of items. */
  class TodoAppContainer {
    var todoId: nat
    var todoItems: seq<Item>

    ghost predicate Valid()
      reads this
    {
      WellFormed(todoItems, todoId)
    }

    constructor ()
      ensures Valid()
      ensures todoId == 0 && todoItems == []
    {
      todoId := 0;
      todoItems := [];
    }

    /** `handleAddTodoText`: appends one item carrying the next id, the text
        as given and status false, and advances the counter by one. */
    method HandleAddTodoText(todoText: string)
      requires Valid()
      modifies this
      ensures Valid()
      ensures todoId == old(todoId) + 1
      ensures todoItems == old(todoItems) + [Item(old(todoId) + 1, todoText, false)]
    {
      AddKeepsWellFormed(todoItems, todoId, todoText);
      var todoItem := NewItem(todoId, todoText);
      todoId, todoItems := todoId + 1, todoItems + [todoItem];
    }

    /** `handleStatusChange`: walks a copy of the list and gives every item
        carrying `id` the new status; the counter is not touched. */
    method HandleStatusChange(id: int, status: bool)
      requires Valid()
      modifies this
      ensures Valid()
      ensures todoId == old(todoId)
      ensures todoItems == StatusSet(old(todoItems), id, status)
    {
      var newTodoItems := todoItems;
      for i := 0 to |newTodoItems|
        invariant |newTodoItems| == |todoItems|
        invariant forall j :: 0 <= j < i ==> newTodoItems[j] == SetStatusOf(todoItems[j], id, status)
        invariant forall j :: i <= j < |todoItems| ==> newTodoItems[j] == todoItems[j]
      {
        if newTodoItems[i].todoId == id {
          newTodoItems := newTodoItems[i := newTodoItems[i].(status := status)];
        }
      }
      StatusSetKeepsWellFormed(todoItems, todoId, id, status);
      assert newTodoItems == StatusSet(todoItems, id, status);
      todoItems := newTodoItems;
    }

    /** `handleDeleteItem`: drops every item carrying `id`; the counter is not touched. */
    method HandleDeleteItem(id: int)
      requires Valid()
      modifies this
      ensures Valid()
      ensures todoId == old(todoId)
      ensures todoItems == Deleted(old(todoItems), id)
    {
      DeletedKeepsWellFormed(todoItems, todoId, id);
      todoItems := Deleted(todoItems, id);
    }

    /** The rows of the undone container, in list order. */
    method UndoneItems() returns (rows: seq<Item>)
      ensures forall x :: x in rows <==> x in todoItems && !x.status
      ensures rows == View(todoItems, Undone)
    {
      ViewMembers(todoItems, Undone);
      rows := View(todoItems, Undone);
    }

    /** The rows of the done container, in list order. */
    method DoneItems() returns (rows: seq<Item>)
      ensures forall x :: x in rows <==> x in todoItems && x.status
      ensures rows == View(todoItems, Done)
    {
      ViewMembers(todoItems, Done);
      rows := View(todoItems, Done);
    }
  }

  /** `AddBox`: the controlled text input and its submit handler. */
  class AddBox {
    var todoText: string

    constructor ()
      ensures todoText == ""
    {
      todoText := "";
    }

    /** `handleTextChange`: the input's current value becomes the box's text. */
    method HandleTextChange(value: string)
      modifies this
      ensures todoText == value
    {
      todoText := value;
    }

    /** `handleAddTodoText`: blank text (all white space, per `trim`) is
        refused and everything stays as it was; otherwise the untrimmed text
        is handed to the container, which appends it, and the box is cleared. */
    method HandleAddTodoText(app: TodoAppContainer) returns (accepted: bool)
      requires app.Valid()
      modifies this, app
      ensures app.Valid()
      ensures accepted <==> !IsBlank(old(todoText))
      ensures !accepted ==>
                todoText == old(todoText) && app.todoId == old(app.todoId) && app.todoItems == old(app.todoItems)
      ensures accepted ==>
                && todoText == ""
                && app.todoId == old(app.todoId) + 1
                && app.todoItems == old(app.todoItems) + [Item(old(app.todoId) + 1, old(todoText), false)]
    {
      if IsBlank(todoText) {
        return false;
      }
      app.HandleAddTodoText(todoText);
      todoText := "";
      return true;
    }
  }

  /** Marking the first of two undone items done leaves the second alone in
      the undone view and the first alone in the done view. */
  lemma MarkFirstOfTwo(a: Item, b: Item)
    requires a.todoId != b.todoId && !a.status && !b.status
    ensures View(StatusSet([a, b], a.todoId, true), Undone) == [b]
    ensures View(StatusSet([a, b], a.todoId, true), Done) == [a.(status := true)]
  {
    var items := StatusSet([a, b], a.todoId, true);
    assert items[0] == a.(status := true) && items[1] == b;
    assert items == [a.(status := true), b];
    assert items[1..] == [b] && [b][1..] == [];
  }

  /** Two texts that are not blank, each typed into the add box and
      submitted to an empty container: the container then holds the two
      items in order, with ids 1 and 2. */
  method AddTwo(app: TodoAppContainer, box: AddBox, x: string, y: string)
    requires !IsBlank(x) && !IsBlank(y)
    requires app.Valid() && app.todoId == 0 && app.todoItems == []
    modifies app, box
    ensures app.Valid() && box.todoText == ""
    ensures app.todoId == 2 && app.todoItems == [Item(1, x, false), Item(2, y, false)]
  {
    box.HandleTextChange(x);
    var ok := box.HandleAddTodoText(app);
    assert ok;
    assert app.todoId == 1 && app.todoItems == [Item(1, x, false)];
    box.HandleTextChange(y);
    ok := box.HandleAddTodoText(app);
    assert ok;
  }

  /** The add / add / mark-done sequence for any two texts that are not
      blank: the first item ends up alone in the done view and the second
      alone in the undone view. */
  method AddAddMarkDone(x: string, y: string) returns (undone: seq<Item>, done: seq<Item>)
    requires !IsBlank(x) && !IsBlank(y)
    ensures undone == [Item(2, y, false)]
    ensures done == [Item(1, x, true)]
  {
    var app := new TodoAppContainer();
    var box := new AddBox();
    AddTwo(app, box, x, y);
    app.HandleStatusChange(1, true);
    MarkFirstOfTwo(Item(1, x, false), Item(2, y, false));
    undone := app.UndoneItems();
    done := app.DoneItems();
  }
}
