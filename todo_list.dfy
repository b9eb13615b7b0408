/** The to-do list held by the top-level container: an ordered sequence of
    items, the transformations its three handlers apply to that sequence, and
    the two views ("undone" and "done") the list body derives from it. */
module TodoList {

  /** One to-do record `{todoId, name, status}`; `status` is true once done. */
  datatype Item = Item(todoId: int, name: string, status: bool)

  /** The two list containers the body renders, in that order. */
  datatype Stage = Undone | Done

  /** `todoItem.status ? 'done' : 'undone'` */
  function StageOf(item: Item): Stage {
    if item.status then Done else Undone
  }

  /** The state invariant: ids strictly increase along the list (so they are
      unique) and every id lies between 1 and the counter. */
  ghost predicate WellFormed(items: seq<Item>, counter: nat) {
    && (forall i, j :: 0 <= i < j < |items| ==> items[i].todoId < items[j].todoId)
    && (forall i :: 0 <= i < |items| ==> 0 < items[i].todoId <= counter)
  }

  /** Whether some item of `items` carries `id`. */
  ghost predicate HasId(items: seq<Item>, id: int) {
    exists i :: 0 <= i < |items| && items[i].todoId == id
  }

  // ---------------------------------------------------------------- add

  /** The record built for accepted text: the next id after the counter,
      the text exactly as typed, not done. */
  function NewItem(counter: nat, text: string): (r: Item)
    ensures r.todoId > counter && r.name == text && StageOf(r) == Undone
  {
    Item(counter + 1, text, false)
  }

  /** The id handed out by an add is new: no item of a well-formed list has it. */
  lemma NewIdIsFresh(items: seq<Item>, counter: nat, text: string)
    requires WellFormed(items, counter)
    ensures !HasId(items, NewItem(counter, text).todoId)
  {
  }

  /** Appending the new record and bumping the counter keeps the invariant. */
  lemma AddKeepsWellFormed(items: seq<Item>, counter: nat, text: string)
    requires WellFormed(items, counter)
    ensures WellFormed(items + [NewItem(counter, text)], counter + 1)
  {
  }

  // ------------------------------------------------------- status change

  /** One step of the status loop: a matching item takes the new status. */
  function SetStatusOf(item: Item, id: int, status: bool): Item {
    if item.todoId == id then item.(status := status) else item
  }

  /** The list after a status change: same length, order, ids and names;
      every item carrying `id` has the given status and every other item is
      left as it was. */
  function StatusSet(items: seq<Item>, id: int, status: bool): (r: seq<Item>)
    ensures |r| == |items|
    ensures forall i :: 0 <= i < |items| ==>
              r[i].todoId == items[i].todoId && r[i].name == items[i].name
    ensures forall i :: 0 <= i < |items| ==>
              r[i].status == if items[i].todoId == id then status else items[i].status
  {
    if items == [] then []
    else [SetStatusOf(items[0], id, status)] + StatusSet(items[1..], id, status)
  }

  /** A status change for an id no item carries leaves the list as it was. */
  lemma StatusSetUnknownId(items: seq<Item>, id: int, status: bool)
    requires !HasId(items, id)
    ensures StatusSet(items, id, status) == items
  {
    var r := StatusSet(items, id, status);
    forall i | 0 <= i < |items| ensures r[i] == items[i] {
      assert items[i].todoId != id;
    }
  }

  /** Setting a status twice is the same as setting it once. */
  lemma StatusSetIdempotent(items: seq<Item>, id: int, status: bool)
    ensures StatusSet(StatusSet(items, id, status), id, status) == StatusSet(items, id, status)
  {
    var r := StatusSet(items, id, status);
    var r2 := StatusSet(r, id, status);
    forall i | 0 <= i < |items| ensures r2[i] == r[i] {
    }
  }

  /** A status change touches neither ids nor the counter, so it keeps the invariant. */
  lemma StatusSetKeepsWellFormed(items: seq<Item>, counter: nat, id: int, status: bool)
    requires WellFormed(items, counter)
    ensures WellFormed(StatusSet(items, id, status), counter)
  {
  }

  // -------------------------------------------------------------- delete

  /** `todoItems.filter(todoItem => todoItem.todoId !== id)`: the list with
      every item carrying `id` dropped. */
  function Deleted(items: seq<Item>, id: int): (r: seq<Item>)
    ensures |r| <= |items|
  {
    if items == [] then []
    else (if items[0].todoId == id then [] else [items[0]]) + Deleted(items[1..], id)
  }

  /** The filtered list holds exactly the items of the list whose id differs
      from the deleted one. */
  lemma {:induction false} DeletedMembers(items: seq<Item>, id: int)
    ensures forall x :: x in Deleted(items, id) <==> x in items && x.todoId != id
  {
    if items != [] {
      DeletedMembers(items[1..], id);
      assert items == [items[0]] + items[1..];
    }
  }

  /** Filtering distributes over concatenation: the survivors keep their
      relative order. */
  lemma {:induction false} DeletedConcat(a: seq<Item>, b: seq<Item>, id: int)
    ensures Deleted(a + b, id) == Deleted(a, id) + Deleted(b, id)
  {
    if a == [] {
      assert a + b == b;
    } else {
      var head := if a[0].todoId == id then [] else [a[0]];
      assert (a + b)[0] == a[0] && (a + b)[1..] == a[1..] + b;
      calc {
        Deleted(a + b, id);
        head + Deleted(a[1..] + b, id);
        { DeletedConcat(a[1..], b, id); }
        head + (Deleted(a[1..], id) + Deleted(b, id));
        (head + Deleted(a[1..], id)) + Deleted(b, id);
        Deleted(a, id) + Deleted(b, id);
      }
    }
  }

  /** Deleting an id no item carries changes nothing. */
  lemma {:induction false} DeletedUnknownId(items: seq<Item>, id: int)
    requires !HasId(items, id)
    ensures Deleted(items, id) == items
  {
    if items != [] {
      assert !HasId(items[1..], id) by {
        forall i | 0 <= i < |items| - 1 ensures items[1..][i].todoId != id {
          assert items[1..][i] == items[i + 1];
        }
      }
      DeletedUnknownId(items[1..], id);
    }
  }

  /** Deleting twice gives the same list as deleting once. */
  lemma DeletedIdempotent(items: seq<Item>, id: int)
    ensures Deleted(Deleted(items, id), id) == Deleted(items, id)
  {
    var r := Deleted(items, id);
    DeletedMembers(items, id);
    assert !HasId(r, id) by {
      forall i | 0 <= i < |r| ensures r[i].todoId != id {
        assert r[i] in r;
      }
    }
    DeletedUnknownId(r, id);
  }

  /** In a list with unique ids a delete removes exactly one item when the id
      is present and none when it is absent. */
  lemma {:induction false} DeletedCount(items: seq<Item>, counter: nat, id: int)
    requires WellFormed(items, counter)
    ensures |Deleted(items, id)| == if HasId(items, id) then |items| - 1 else |items|
  {
    if items == [] {
    } else if items[0].todoId == id {
      assert !HasId(items[1..], id) by {
        forall i | 0 <= i < |items| - 1 ensures items[1..][i].todoId != id {
          assert items[0].todoId < items[i + 1].todoId;
        }
      }
      DeletedUnknownId(items[1..], id);
    } else {
      DeletedCount(items[1..], counter, id);
      assert HasId(items, id) == HasId(items[1..], id) by {
        if HasId(items, id) {
          var i :| 0 <= i < |items| && items[i].todoId == id;
          assert items[1..][i - 1] == items[i];
        }
        if HasId(items[1..], id) {
          var i :| 0 <= i < |items| - 1 && items[1..][i].todoId == id;
          assert items[i + 1] == items[1..][i];
        }
      }
    }
  }

  /** Putting an item in front of a well-formed list keeps the invariant
      when its id is in range and below every id of the list. */
  lemma PrependKeepsWellFormed(x: Item, rest: seq<Item>, counter: nat)
    requires WellFormed(rest, counter) && 0 < x.todoId <= counter
    requires forall j :: 0 <= j < |rest| ==> x.todoId < rest[j].todoId
    ensures WellFormed([x] + rest, counter)
  {
    var r := [x] + rest;
    forall i, j | 0 <= i < j < |r| ensures r[i].todoId < r[j].todoId {
      assert r[j] == rest[j - 1];
      if i > 0 {
        assert r[i] == rest[i - 1];
      }
    }
    forall i | 0 <= i < |r| ensures 0 < r[i].todoId <= counter {
      if i > 0 {
        assert r[i] == rest[i - 1];
      }
    }
  }

  /** The tail of a well-formed list is well formed. */
  lemma TailWellFormed(items: seq<Item>, counter: nat)
    requires WellFormed(items, counter) && items != []
    ensures WellFormed(items[1..], counter)
  {
    var tail := items[1..];
    forall i, j | 0 <= i < j < |tail| ensures tail[i].todoId < tail[j].todoId {
      assert tail[i] == items[i + 1] && tail[j] == items[j + 1];
    }
    forall i | 0 <= i < |tail| ensures 0 < tail[i].todoId <= counter {
      assert tail[i] == items[i + 1];
    }
  }

  /** Deleting keeps a lower bound on the ids of a list. */
  lemma {:induction false} DeletedIdsAbove(items: seq<Item>, id: int, bound: int)
    requires forall i :: 0 <= i < |items| ==> bound < items[i].todoId
    ensures forall j :: 0 <= j < |Deleted(items, id)| ==> bound < Deleted(items, id)[j].todoId
  {
    if items != [] {
      DeletedIdsAbove(items[1..], id, bound);
    }
  }

  /** A delete keeps the invariant: the survivors keep their order, hence
      their increasing ids, and the counter is untouched. */
  lemma {:induction false} DeletedKeepsWellFormed(items: seq<Item>, counter: nat, id: int)
    requires WellFormed(items, counter)
    ensures WellFormed(Deleted(items, id), counter)
  {
    if items != [] {
      var tail := items[1..];
      TailWellFormed(items, counter);
      DeletedKeepsWellFormed(tail, counter, id);
      if items[0].todoId != id {
        assert forall i :: 0 <= i < |tail| ==> items[0].todoId < tail[i].todoId;
        DeletedIdsAbove(tail, id, items[0].todoId);
        PrependKeepsWellFormed(items[0], Deleted(tail, id), counter);
      }
    }
  }

  // --------------------------------------------------------------- views

  /** The rows one list container renders: the items of that stage, in list order. */
  function View(items: seq<Item>, stage: Stage): (r: seq<Item>)
    ensures |r| <= |items|
  {
    if items == [] then []
    else (if StageOf(items[0]) == stage then [items[0]] else []) + View(items[1..], stage)
  }

  /** A view holds exactly the items of the list that are of its stage. */
  lemma {:induction false} ViewMembers(items: seq<Item>, stage: Stage)
    ensures forall x :: x in View(items, stage) <==> x in items && StageOf(x) == stage
  {
    if items != [] {
      ViewMembers(items[1..], stage);
      assert items == [items[0]] + items[1..];
    }
  }

  /** A view of a concatenation is the concatenation of the views: each view
      keeps list order. */
  lemma {:induction false} ViewConcat(a: seq<Item>, b: seq<Item>, stage: Stage)
    ensures View(a + b, stage) == View(a, stage) + View(b, stage)
  {
    if a == [] {
      assert a + b == b;
    } else {
      var head := if StageOf(a[0]) == stage then [a[0]] else [];
      assert (a + b)[0] == a[0] && (a + b)[1..] == a[1..] + b;
      calc {
        View(a + b, stage);
        head + View(a[1..] + b, stage);
        { ViewConcat(a[1..], b, stage); }
        head + (View(a[1..], stage) + View(b, stage));
        (head + View(a[1..], stage)) + View(b, stage);
        View(a, stage) + View(b, stage);
      }
    }
  }

  /** The two views partition the list: every item is in one of them, as
      often as it occurs in the list. */
  lemma {:induction false} ViewsPartition(items: seq<Item>)
    ensures multiset(View(items, Undone)) + multiset(View(items, Done)) == multiset(items)
  {
    if items != [] {
      var x, tail := items[0], items[1..];
      var u, d := View(tail, Undone), View(tail, Done);
      ViewsPartition(tail);
      assert items == [x] + tail;
      var mx := multiset{x};
      if x.status {
        assert View(items, Undone) == u && View(items, Done) == [x] + d;
        calc {
          multiset(u) + multiset([x] + d);
          multiset(u) + (mx + multiset(d));
          mx + (multiset(u) + multiset(d));
          mx + multiset(tail);
          multiset([x] + tail);
        }
      } else {
        assert View(items, Undone) == [x] + u && View(items, Done) == d;
        calc {
          multiset([x] + u) + multiset(d);
          (mx + multiset(u)) + multiset(d);
          mx + (multiset(u) + multiset(d));
          mx + multiset(tail);
          multiset([x] + tail);
        }
      }
    }
  }

  /** Together the two views are exactly as long as the list. */
  lemma ViewsCoverList(items: seq<Item>)
    ensures |View(items, Undone)| + |View(items, Done)| == |items|
  {
    ViewsPartition(items);
    assert |multiset(View(items, Undone)) + multiset(View(items, Done))| == |multiset(items)|;
  }

  /** No item is in both views, and every item of the list is in one of them. */
  lemma ViewsDisjoint(items: seq<Item>)
    ensures forall x :: x in items ==> (x in View(items, Undone) <==> x !in View(items, Done))
  {
    ViewMembers(items, Undone);
    ViewMembers(items, Done);
  }

  /** A new item joins the end of the undone view and leaves the done view alone. */
  lemma AddedItemIsLastUndone(items: seq<Item>, counter: nat, text: string)
    ensures View(items + [NewItem(counter, text)], Undone) == View(items, Undone) + [NewItem(counter, text)]
    ensures View(items + [NewItem(counter, text)], Done) == View(items, Done)
  {
    var x := NewItem(counter, text);
    ViewConcat(items, [x], Undone);
    ViewConcat(items, [x], Done);
    assert [x][1..] == [];
  }

  /** After a status change every item carrying the id sits in the view of the
      new status and none is left in the other one. */
  lemma StatusSetMovesItem(items: seq<Item>, id: int, status: bool)
    ensures var r := StatusSet(items, id, status);
            var to := if status then Done else Undone;
            var from := if status then Undone else Done;
            && (forall x :: x in items && x.todoId == id ==> x.(status := status) in View(r, to))
            && (forall x :: x in View(r, from) ==> x.todoId != id)
  {
    var r := StatusSet(items, id, status);
    ViewMembers(r, Undone);
    ViewMembers(r, Done);
    forall x | x in items && x.todoId == id
      ensures x.(status := status) in r
    {
      var i :| 0 <= i < |items| && items[i] == x;
      assert r[i] == x.(status := status);
    }
    forall x | x in r ensures x.todoId == id ==> x.status == status {
      var i :| 0 <= i < |r| && r[i] == x;
    }
  }
}
