/** The in-kind items and the associated events of the add-sponsor form. An
    item's `totalValue` is kept equal to `units * valuePerUnit` by recomputing
    it in the same replace that changes either factor. */
module SponsorForm {
  import opened LineItems

  // ------------------------------------------------------------------- items

  datatype Item = Item(itemName: string, units: int, valuePerUnit: int, totalValue: int)

  /** The row `handleAddItem` appends. */
  const NewItem := Item("", 0, 0, 0)

  /** The invariant every item row keeps. */
  predicate Consistent(item: Item)
  {
    item.totalValue == item.units * item.valuePerUnit
  }

  predicate AllConsistent(items: seq<Item>)
  {
    forall k :: 0 <= k < |items| ==> Consistent(items[k])
  }

  /** The `field` and `value` arguments of `handleUpdateItem`. */
  datatype ItemEdit = SetItemName(itemName: string) | SetUnits(units: int) | SetValuePerUnit(valuePerUnit: int)

  /** The replaced row of `handleUpdateItem`: the named field takes the new
      value and, when it is `units` or `valuePerUnit`, `totalValue` becomes the
      new value times the other factor's current value. */
  function ItemEdited(item: Item, e: ItemEdit): (r: Item)
    ensures r.itemName == (if e.SetItemName? then e.itemName else item.itemName)
    ensures r.units == (if e.SetUnits? then e.units else item.units)
    ensures r.valuePerUnit == (if e.SetValuePerUnit? then e.valuePerUnit else item.valuePerUnit)
    ensures e.SetUnits? ==> r.totalValue == e.units * item.valuePerUnit
    ensures e.SetValuePerUnit? ==> r.totalValue == item.units * e.valuePerUnit
    ensures e.SetItemName? ==> r.totalValue == item.totalValue
    ensures !e.SetItemName? ==> Consistent(r)
    ensures Consistent(item) ==> Consistent(r)
  {
    match e
    case SetItemName(v) => item.(itemName := v)
    case SetUnits(v) => item.(units := v, totalValue := v * item.valuePerUnit)
    case SetValuePerUnit(v) => item.(valuePerUnit := v, totalValue := item.units * v)
  }

  /** `handleUpdateItem(index, field, value)` */
  function ItemUpdated(items: seq<Item>, index: nat, e: ItemEdit): (r: seq<Item>)
    requires index < |items|
    ensures |r| == |items|
    ensures r[index] == ItemEdited(items[index], e)
    ensures forall k :: 0 <= k < |r| && k != index ==> r[k] == items[k]
    ensures AllConsistent(items) ==> AllConsistent(r)
  {
    items[index := ItemEdited(items[index], e)]
  }

  /** `handleRemoveItem(index)` */
  function ItemRemoved(items: seq<Item>, index: nat): (r: seq<Item>)
    ensures index < |items| ==> |r| == |items| - 1
    ensures index < |items| ==> forall k :: 0 <= k < |r| ==> r[k] == items[if k < index then k else k + 1]
    ensures index >= |items| ==> r == items
    ensures AllConsistent(items) ==> AllConsistent(r)
  {
    Spliced(items, index)
  }

  function TotalValueOf(item: Item): int
  {
    item.totalValue
  }

  function ProductOf(item: Item): int
  {
    item.units * item.valuePerUnit
  }

  /** `items.reduce((sum, item) => sum + item.totalValue, 0)` */
  function InKindTotal(items: seq<Item>): int
  {
    SumOf(items, TotalValueOf)
  }

  /** A fresh item keeps the invariant, and every list the handlers build from
      a consistent list is consistent. */
  lemma {:induction false} HandlersKeepConsistent(items: seq<Item>, index: nat, e: ItemEdit)
    requires AllConsistent(items)
    ensures Consistent(NewItem)
    ensures AllConsistent(items + [NewItem])
    ensures index < |items| ==> AllConsistent(ItemUpdated(items, index, e))
    ensures AllConsistent(ItemRemoved(items, index))
  {
    var added := items + [NewItem];
    assert forall k :: 0 <= k < |items| ==> added[k] == items[k];
  }

  /** Over consistent items the in-kind total is the sum of units times value
      per unit. */
  lemma {:induction false} InKindTotalOfConsistent(items: seq<Item>)
    requires AllConsistent(items)
    ensures InKindTotal(items) == SumOf(items, ProductOf)
    decreases |items|
  {
    if items != [] {
      var front := items[..|items| - 1];
      assert AllConsistent(front) by {
        assert forall k :: 0 <= k < |front| ==> front[k] == items[k];
      }
      InKindTotalOfConsistent(front);
      assert Consistent(items[|items| - 1]);
    }
  }

  /** The total over no items is 0, adding a fresh item keeps it, removing an
      item lowers it by that item's value, and editing an item changes it by
      the change in that item's value. */
  lemma {:induction false} InKindTotalAfterEdits(items: seq<Item>, index: nat, e: ItemEdit)
    ensures InKindTotal([]) == 0
    ensures InKindTotal(items + [NewItem]) == InKindTotal(items)
    ensures index < |items| ==> InKindTotal(ItemRemoved(items, index)) == InKindTotal(items) - items[index].totalValue
    ensures index < |items| ==>
              InKindTotal(ItemUpdated(items, index, e)) ==
                InKindTotal(items) - items[index].totalValue + ItemEdited(items[index], e).totalValue
  {
    SumOfAppend(items, [NewItem], TotalValueOf);
    SumOfSingle(NewItem, TotalValueOf);
    if index < |items| {
      SumOfSpliced(items, index, TotalValueOf);
      SumOfReplaced(items, index, ItemEdited(items[index], e), TotalValueOf);
    }
  }

  /** The order of the item rows does not matter. */
  lemma {:induction false} InKindTotalOrderIndependent(a: seq<Item>, b: seq<Item>)
    requires multiset(a) == multiset(b)
    ensures InKindTotal(a) == InKindTotal(b)
  {
    SumOfPermutation(a, b, TotalValueOf);
  }

  /** Three banners at 50 and ten posters at 5 make 200 in kind. */
  lemma {:induction false} InKindTotalExample()
    ensures var items := [Item("Banner", 3, 50, 150), Item("Poster", 10, 5, 50)];
            AllConsistent(items) && InKindTotal(items) == 200
  {
    var items := [Item("Banner", 3, 50, 150), Item("Poster", 10, 5, 50)];
    SumOfCons(items[0], items[1..], TotalValueOf);
    SumOfSingle(items[1], TotalValueOf);
    assert items == [items[0]] + [items[1]];
  }

  /** Applying the same edit twice gives the list that applying it once gives. */
  lemma ItemUpdateIdempotent(items: seq<Item>, index: nat, e: ItemEdit)
    requires index < |items|
    ensures ItemUpdated(ItemUpdated(items, index, e), index, e) == ItemUpdated(items, index, e)
  {
  }

  // ------------------------------------------------------------------ events

  datatype AssociationType = Presents | CoPowered | Powered

  datatype Event = Event(eventName: string, associationType: AssociationType)

  /** The row `handleAddEvent` appends. */
  const NewEvent := Event("", Powered)

  datatype EventEdit = SetEventName(eventName: string) | SetAssociationType(associationType: AssociationType)

  function EventEdited(ev: Event, e: EventEdit): (r: Event)
    ensures r.eventName == (if e.SetEventName? then e.eventName else ev.eventName)
    ensures r.associationType == (if e.SetAssociationType? then e.associationType else ev.associationType)
  {
    match e
    case SetEventName(v) => ev.(eventName := v)
    case SetAssociationType(v) => ev.(associationType := v)
  }

  /** `handleUpdateEvent(index, field, value)` */
  function EventUpdated(events: seq<Event>, index: nat, e: EventEdit): (r: seq<Event>)
    requires index < |events|
    ensures |r| == |events|
    ensures r[index] == EventEdited(events[index], e)
    ensures forall k :: 0 <= k < |r| && k != index ==> r[k] == events[k]
  {
    events[index := EventEdited(events[index], e)]
  }

  /** `handleRemoveEvent(index)` */
  function EventRemoved(events: seq<Event>, index: nat): (r: seq<Event>)
    ensures index < |events| ==> |r| == |events| - 1
    ensures index < |events| ==> forall k :: 0 <= k < |r| ==> r[k] == events[if k < index then k else k + 1]
    ensures index >= |events| ==> r == events
  {
    Spliced(events, index)
  }

  lemma EventUpdateIdempotent(events: seq<Event>, index: nat, e: EventEdit)
    requires index < |events|
    ensures EventUpdated(EventUpdated(events, index, e), index, e) == EventUpdated(events, index, e)
  {
  }

  // ------------------------------------------------------------ the component

  /** The row state of the `AddSponsorForm` component. */
  class AddSponsorForm {
    var items: seq<Item>
    var events: seq<Event>

    /** Every item's total is its units times its value per unit. */
    ghost predicate Valid()
      reads this
    {
      AllConsistent(items)
    }

    constructor ()
      ensures Valid()
      ensures items == [] && events == []
    {
      items, events := [], [];
    }

    /** "Total In-Kind Value" */
    function TotalInKindValue(): (r: int)
      reads this
      requires Valid()
      ensures r == SumOf(items, ProductOf)
    {
      InKindTotalOfConsistent(items);
      InKindTotal(items)
    }

    method HandleAddItem()
      requires Valid()
      modifies this`items
      ensures Valid()
      ensures items == old(items) + [NewItem]
      ensures InKindTotal(items) == InKindTotal(old(items))
    {
      HandlersKeepConsistent(items, 0, SetItemName(""));
      InKindTotalAfterEdits(items, 0, SetItemName(""));
      items := items + [NewItem];
    }

    method HandleUpdateItem(index: nat, e: ItemEdit)
      requires Valid() && index < |items|
      modifies this`items
      ensures Valid()
      ensures items == ItemUpdated(old(items), index, e)
    {
      items := ItemUpdated(items, index, e);
    }

    method HandleRemoveItem(index: nat)
      requires Valid()
      modifies this`items
      ensures Valid()
      ensures items == ItemRemoved(old(items), index)
    {
      items := ItemRemoved(items, index);
    }

    method HandleAddEvent()
      modifies this`events
      ensures events == old(events) + [NewEvent]
    {
      events := events + [NewEvent];
    }

    method HandleUpdateEvent(index: nat, e: EventEdit)
      requires index < |events|
      modifies this`events
      ensures events == EventUpdated(old(events), index, e)
    {
      events := EventUpdated(events, index, e);
    }

    method HandleRemoveEvent(index: nat)
      modifies this`events
      ensures events == EventRemoved(old(events), index)
    {
      events := EventRemoved(events, index);
    }
  }
}
