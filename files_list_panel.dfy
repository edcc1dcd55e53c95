/**
 * The list of configuration or baseline files in the settings form: a
 * list model that inserts, replaces and removes entries by position and
 * tells its listeners which interval changed, and the add and remove
 * buttons that drive it.
 */
module FilesListPanel {
  import opened ListEdits

  /** A file chosen in the IDE, identified by its path. */
  datatype VirtualFile = VirtualFile(path: string)

  /** A Swing list-data event; both indices are inclusive. */
  datatype ListEvent =
    | ContentsChanged(index0: int, index1: int)
    | IntervalAdded(index0: int, index1: int)
    | IntervalRemoved(index0: int, index1: int)

  /** The event names a non-empty interval of positions of a list of `size` elements. */
  predicate EventWithin(e: ListEvent, size: int)
  {
    0 <= e.index0 <= e.index1 < size
  }

  /** One removal event per index, in the order the indices are removed. */
  function RemovalEvents(order: seq<int>): (r: seq<ListEvent>)
    ensures |r| == |order|
    ensures forall k :: 0 <= k < |order| ==> r[k] == IntervalRemoved(order[k], order[k])
  {
    seq(|order|, k requires 0 <= k < |order| => IntervalRemoved(order[k], order[k]))
  }

  /** One addition event per position from `from` up to, not including, `to`. */
  function AppendEvents(from: int, to: int): (r: seq<ListEvent>)
    requires from <= to
    ensures |r| == to - from
    ensures forall k :: 0 <= k < |r| ==> r[k] == IntervalAdded(from + k, from + k)
  {
    seq(to - from, k requires 0 <= k < to - from => IntervalAdded(from + k, from + k))
  }

  /** One more position appended adds one event. */
  lemma AppendEventsSnoc(from: int, to: int)
    requires from <= to
    ensures AppendEvents(from, to + 1) == AppendEvents(from, to) + [IntervalAdded(to, to)]
  {
  }

  /** The event `clear` fires as written: the interval from 0 to the former size. */
  function ClearEventAsWritten(formerSize: nat): ListEvent
  {
    IntervalRemoved(0, formerSize)
  }

  /** The interval as written runs one past the last former position, even for a list of one element. */
  lemma ClearEventOvershoots(formerSize: nat)
    ensures !EventWithin(ClearEventAsWritten(formerSize), formerSize)
    ensures !EventWithin(ClearEventAsWritten(1), 1)
  {
  }

  /**
   * The events `clear` is meant to fire, as `addAll` numbers its interval:
   * positions 0 through the former size minus one, and none for an empty list.
   */
  function ClearEvents(formerSize: nat): (r: seq<ListEvent>)
    ensures forall e :: e in r ==> EventWithin(e, formerSize)
    ensures formerSize > 0 ==> r == [IntervalRemoved(0, formerSize - 1)]
    ensures formerSize == 0 ==> r == []
  {
    if formerSize == 0 then [] else [IntervalRemoved(0, formerSize - 1)]
  }

  /** `FilesListPanel.ListModel`. */
  class ListModel {
    var items: seq<VirtualFile>
    /** The events fired to the list's listeners, in order. */
    var events: seq<ListEvent>

    constructor(initialItems: seq<VirtualFile>)
      ensures items == initialItems && events == []
    {
      items := initialItems;
      events := [];
    }

    /** `getSize`. */
    function Size(): nat
      reads this
    {
      |items|
    }

    /** `get` and `getElementAt`. */
    function Get(index: int): VirtualFile
      reads this
      requires 0 <= index < |items|
    {
      items[index]
    }

    /** `set(index, value)`: only that position changes. */
    method Set(index: int, value: VirtualFile)
      requires 0 <= index < |items|
      modifies this
      ensures items == old(items)[index := value]
      ensures events == old(events) + [ContentsChanged(index, index)]
      ensures EventWithin(ContentsChanged(index, index), |items|)
    {
      items := items[index := value];
      events := events + [ContentsChanged(index, index)];
    }

    /** `add(newItem, index)`: inserted at `index`, later items shift by one. */
    method Add(newItem: VirtualFile, index: int)
      requires 0 <= index <= |items|
      modifies this
      ensures items == old(items)[..index] + [newItem] + old(items)[index..]
      ensures |items| == |old(items)| + 1 && items[index] == newItem
      ensures events == old(events) + [IntervalAdded(index, index)]
    {
      items := items[..index] + [newItem] + items[index..];
      events := events + [IntervalAdded(index, index)];
    }

    /** `+= newItem`: `add` at the end. */
    method Append(newItem: VirtualFile)
      modifies this
      ensures items == old(items) + [newItem]
      ensures events == old(events) + [IntervalAdded(|old(items)|, |old(items)|)]
    {
      Add(newItem, |items|);
      assert old(items)[..|old(items)|] == old(items);
    }

    /** `addAll(newItems, index)`: nothing for no items, otherwise inserted in order at `index`. */
    method AddAll(newItems: seq<VirtualFile>, index: int)
      requires 0 <= index <= |items|
      modifies this
      ensures items == old(items)[..index] + newItems + old(items)[index..]
      ensures newItems == [] ==> events == old(events)
      ensures newItems != [] ==> events == old(events) + [IntervalAdded(index, index + |newItems| - 1)]
      ensures newItems != [] ==> EventWithin(IntervalAdded(index, index + |newItems| - 1), |items|)
    {
      if newItems == [] {
        assert old(items)[..index] + old(items)[index..] == old(items);
        return;
      }
      items := items[..index] + newItems + items[index..];
      events := events + [IntervalAdded(index, index + |newItems| - 1)];
    }

    /** `+= newItems`: `addAll` at the end. */
    method AppendAll(newItems: seq<VirtualFile>)
      modifies this
      ensures items == old(items) + newItems
      ensures newItems == [] ==> events == old(events)
      ensures newItems != [] ==> events == old(events) + [IntervalAdded(|old(items)|, |old(items)| + |newItems| - 1)]
    {
      AddAll(newItems, |items|);
      assert old(items)[..|old(items)|] == old(items) && old(items)[|old(items)|..] == [];
    }

    /**
     * `removeAt(indices)`: the indices are removed in reverse of the given
     * order, each in the list as it is at that moment, and the removed
     * items come back in that order.
     */
    method RemoveAt(indices: seq<int>) returns (removed: seq<VirtualFile>)
      requires RemovableInOrder(items, Reverse(indices))
      modifies this
      ensures items == RemoveEach(old(items), Reverse(indices)).remaining
      ensures removed == RemoveEach(old(items), Reverse(indices)).removed
      ensures events == old(events) + RemovalEvents(Reverse(indices))
    {
      if indices == [] {
        return [];
      }
      var order := Reverse(indices);
      removed := [];
      var i := 0;
      while i < |order|
        invariant 0 <= i <= |order|
        invariant RemovableInOrder(items, order[i..])
        invariant RemoveEach(old(items), order)
          == Removal(RemoveEach(items, order[i..]).remaining, removed + RemoveEach(items, order[i..]).removed)
        invariant events == old(events) + RemovalEvents(order[..i])
      {
        removed := RemoveNext(order, i, removed, old(items), old(events));
        i := i + 1;
      }
      assert order[..i] == order;
      assert order[i..] == [];
    }

    /**
     * One turn of the loop of `removeAt`: position `order[i]` is removed
     * from the list as it is now and reported; `s0` and `e0` are the list
     * and the events before the loop.
     */
    method RemoveNext(order: seq<int>, i: nat, removedIn: seq<VirtualFile>, ghost s0: seq<VirtualFile>, ghost e0: seq<ListEvent>)
      returns (removed: seq<VirtualFile>)
      requires i < |order| && RemovableInOrder(s0, order) && RemovableInOrder(items, order[i..])
      requires RemoveEach(s0, order)
        == Removal(RemoveEach(items, order[i..]).remaining, removedIn + RemoveEach(items, order[i..]).removed)
      requires events == e0 + RemovalEvents(order[..i])
      modifies this
      ensures RemovableInOrder(items, order[i + 1..])
      ensures RemoveEach(s0, order)
        == Removal(RemoveEach(items, order[i + 1..]).remaining, removed + RemoveEach(items, order[i + 1..]).removed)
      ensures events == e0 + RemovalEvents(order[..i + 1])
    {
      var k := order[i];
      assert order[i..][1..] == order[i + 1..];
      RemoveEachStep(items, order[i..], removedIn);
      var item := items[k];
      items := RemoveOne(items, k);
      removed := removedIn + [item];
      events := events + [IntervalRemoved(k, k)];
      assert RemovalEvents(order[..i + 1]) == RemovalEvents(order[..i]) + [IntervalRemoved(k, k)];
    }

    /** `clear`: the list is emptied and its former positions reported as removed. */
    method Clear()
      modifies this
      ensures items == []
      ensures events == old(events) + ClearEvents(|old(items)|)
    {
      var formerSize := |items|;
      items := [];
      events := events + ClearEvents(formerSize);
    }
  }

  /** `FilesListPanel`: the add and remove buttons over one list model. */
  class FilesListPanel {
    const listModel: ListModel

    constructor(listModel: ListModel)
      ensures this.listModel == listModel
    {
      this.listModel := listModel;
    }

    /**
     * `onAddFileClick` with the files the chooser returned: each is
     * appended unless the list already holds it; the result tells whether
     * anything was appended, which is when the panel reports a change.
     */
    method OnAddFileClick(files: seq<VirtualFile>) returns (changed: bool)
      modifies listModel
      ensures listModel.items == AppendNew(old(listModel.items), files)
      ensures changed <==> listModel.items != old(listModel.items)
      ensures listModel.events == old(listModel.events) + AppendEvents(|old(listModel.items)|, |listModel.items|)
      ensures Distinct(old(listModel.items)) ==> Distinct(listModel.items)
    {
      AppendNewSpec(listModel.items, files);
      changed := false;
      var i := 0;
      while i < |files|
        invariant 0 <= i <= |files|
        invariant listModel.items == AppendNew(old(listModel.items), files[..i])
        invariant changed <==> |listModel.items| > |old(listModel.items)|
        invariant listModel.events == old(listModel.events) + AppendEvents(|old(listModel.items)|, |listModel.items|)
      {
        var file := files[i];
        assert files[..i + 1][..i] == files[..i];
        if file !in listModel.items {
          ghost var before := listModel.items;
          listModel.Append(file);
          changed := true;
          AppendEventsSnoc(|old(listModel.items)|, |before|);
        }
        i := i + 1;
      }
      assert files[..i] == files;
    }

    /**
     * `onRemoveFileClick` with the list's selected indices, ascending: exactly
     * those positions go; a change is reported iff something was selected.
     */
    method OnRemoveFileClick(selected: seq<int>) returns (changed: bool)
      requires forall i, j :: 0 <= i < j < |selected| ==> selected[i] < selected[j]
      requires ValidPositions(listModel.items, selected)
      modifies listModel
      ensures listModel.items == Without(old(listModel.items), Elements(selected))
      ensures changed <==> selected != []
    {
      RemoveReversedAscending(listModel.items, selected);
      var removed := listModel.RemoveAt(selected);
      changed := removed != [];
    }
  }
}
