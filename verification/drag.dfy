/** Manual reordering by drag and drop. While the pointer moves, the dragged
    list item is moved in the rendered list (the DOM order of ids) to just
    before or just after the item under the pointer; when the drag ends, the
    Map is rebuilt in the rendered order. */
module DragReorder {
  import opened Wrappers
  import opened Sequences
  import opened OrderedMaps
  import opened TodoStore

  /** The dragover handler: when the pointer is over an item other than the
      dragged one, the dragged id moves to just after that item (`after`, the
      pointer is below the item's vertical midpoint) or just before it. Over no
      item, or over the dragged item itself, nothing moves. The result is a
      rearrangement of the same ids in which only the dragged id changed its
      place among the others. */
  function DragOverMove<T(==,!new)>(order: seq<T>, dragged: T, target: Option<T>, after: bool): (r: seq<T>)
    requires Distinct(order) && dragged in order
    requires target.Some? ==> target.value in order
    ensures Distinct(r)
    ensures multiset(r) == multiset(order)
    ensures forall x :: x in r <==> x in order
    ensures target.None? || target.value == dragged ==> r == order
    ensures target.Some? && target.value != dragged ==>
              && Without(r, dragged) == Without(order, dragged)
              && if after then IndexOf(r, dragged) == IndexOf(r, target.value) + 1
                 else IndexOf(r, target.value) == IndexOf(r, dragged) + 1
  {
    if target.None? || target.value == dragged then order
    else
      var rest := Without(order, dragged);
      var j := IndexOf(rest, target.value);
      var p := if after then j + 1 else j;
      WithoutDistinct(order, dragged);
      WithoutMultiset(order, dragged);
      InsertDistinct(rest, p, dragged);
      InsertMultiset(rest, p, dragged);
      InsertWithout(rest, p, dragged);
      InsertIndexOf(rest, p, dragged);
      InsertIndexOfOther(rest, p, dragged, target.value);
      Insert(rest, p, dragged)
  }

  /** One dragover event: the item under the pointer, if any, and which half
      of it the pointer is in. */
  datatype DragOver = DragOver(target: Option<Id>, after: bool)

  /** The rendered order after a sequence of dragover events. */
  function DragMoves(order: seq<Id>, dragged: Id, events: seq<DragOver>): (r: seq<Id>)
    requires Distinct(order) && dragged in order
    requires forall e :: e in events && e.target.Some? ==> e.target.value in order
    ensures Distinct(r)
    ensures multiset(r) == multiset(order)
    ensures forall x :: x in r <==> x in order
    decreases events
  {
    if events == [] then order
    else
      var next := DragOverMove(order, dragged, events[0].target, events[0].after);
      DragMoves(next, dragged, events[1..])
  }

  /** The entries `[id, tasks.get(id)]` for the ids in `order`. */
  function Pairs(tasks: Tasks, order: seq<Id>): (ps: Tasks)
    requires forall id :: id in order ==> id in Keys(tasks)
    ensures Keys(ps) == order
    ensures forall i :: 0 <= i < |ps| ==> Get(tasks, ps[i].0) == Some(ps[i].1)
  {
    seq(|order|, i requires 0 <= i < |order| => (order[i], Get(tasks, order[i]).value))
  }

  /** In a list of entries that all agree with `tasks`, the last value under a
      key is the value `tasks` holds. */
  lemma {:induction false} LastValueOfPairs(tasks: Tasks, ps: Tasks, k: Id)
    requires forall i :: 0 <= i < |ps| ==> Get(tasks, ps[i].0) == Some(ps[i].1)
    requires k in Keys(ps)
    ensures LastValue(ps, k) == Get(tasks, k)
  {
    var n := |ps| - 1;
    if ps[n].0 != k {
      var init := ps[..n];
      KeysAppend(init, [ps[n]]);
      assert ps == init + [ps[n]];
      LastValueOfPairs(tasks, init, k);
    }
  }

  /** The dragend handler: a new Map built by visiting the rendered ids in
      order and storing each one's task. Ids the order does not mention are
      dropped, and an id met twice stays where it was first met; the order comes from the rendered list, so every id in it has a
      task. */
  function Rebuild(tasks: Tasks, order: seq<Id>): (r: Tasks)
    requires forall id :: id in order ==> id in Keys(tasks)
    ensures Valid(r)
    ensures forall k :: k in Keys(r) <==> k in order
    ensures forall k :: k in order ==> Get(r, k) == Get(tasks, k)
    ensures Keys(r) == FirstOccurrences(order)
    ensures Distinct(order) ==> Keys(r) == order
  {
    var ps := Pairs(tasks, order);
    var r := FromEntries(ps);
    assert forall k :: k in order ==> Get(r, k) == Get(tasks, k) by {
      forall k | k in order ensures Get(r, k) == Get(tasks, k) {
        LastValueOfPairs(tasks, ps, k);
      }
    }
    assert Distinct(order) ==> r == ps by {
      if Distinct(order) {
        FromEntriesOfValid(ps);
      }
    }
    r
  }

  /** Rebuilding in a rearrangement of the current ids keeps every task and
      takes on the new order. */
  lemma RebuildPermutation(tasks: Tasks, order: seq<Id>)
    requires Valid(tasks)
    requires Distinct(order) && multiset(order) == multiset(Keys(tasks))
    ensures forall id :: id in order ==> id in Keys(tasks)
    ensures Keys(Rebuild(tasks, order)) == order
    ensures forall k :: Get(Rebuild(tasks, order), k) == Get(tasks, k)
    ensures |Rebuild(tasks, order)| == |tasks|
    ensures forall e :: e in Rebuild(tasks, order) <==> e in tasks
  {
    assert forall id :: id in order <==> id in Keys(tasks) by {
      forall id ensures id in order <==> id in Keys(tasks) {
        assert id in order <==> id in multiset(order);
        assert id in Keys(tasks) <==> id in multiset(Keys(tasks));
      }
    }
    var r := Rebuild(tasks, order);
    forall k ensures Get(r, k) == Get(tasks, k) {
      if k !in order {
        assert Get(r, k) == None;
      }
    }
    SameEntries(r, tasks);
  }

  /** Two valid maps that agree on every key hold the same entries. */
  lemma SameEntries(a: Tasks, b: Tasks)
    requires Valid(a) && Valid(b)
    requires forall k :: Get(a, k) == Get(b, k)
    ensures forall e :: e in a <==> e in b
  {
    forall e | e in a ensures e in b {
      var i :| 0 <= i < |a| && a[i] == e;
      GetAt(a, i);
    }
    forall e | e in b ensures e in a {
      var i :| 0 <= i < |b| && b[i] == e;
      GetAt(b, i);
    }
  }

  /** A drag that ends without moving anything leaves the collection as it
      was. */
  lemma RebuildInPlace(tasks: Tasks)
    requires Valid(tasks)
    ensures Rebuild(tasks, Keys(tasks)) == tasks
  {
    var r := Rebuild(tasks, Keys(tasks));
    forall k ensures Get(r, k) == Get(tasks, k) {
      if k !in Keys(tasks) {
        assert Get(r, k) == None;
      }
    }
    Extensionality(r, tasks);
  }

  /** A whole drag gesture on the rendered list, which shows the ids of the
      collection in its order: the collection keeps exactly the same tasks and
      takes on the order the list ends up in. */
  lemma DragGesture(tasks: Tasks, dragged: Id, events: seq<DragOver>)
    requires Valid(tasks) && dragged in Keys(tasks)
    requires forall e :: e in events && e.target.Some? ==> e.target.value in Keys(tasks)
    ensures var order := DragMoves(Keys(tasks), dragged, events);
      && Keys(Rebuild(tasks, order)) == order
      && multiset(order) == multiset(Keys(tasks))
      && forall k :: Get(Rebuild(tasks, order), k) == Get(tasks, k)
  {
  }
}
