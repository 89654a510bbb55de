/**
 * The employee meal card of src/components/employee/MealCard.tsx: the per-item
 * selection lookup and the buttons it renders, one per menu item.
 */
module MealCard {
  import opened Wrappers
  import opened Records
  import opened Seqs

  /** Row `i` is the first selection for `itemId`. */
  predicate IsFirstMatch(selections: seq<MealSelection>, itemId: string, i: int) {
    && 0 <= i < |selections|
    && selections[i].menuItemId == itemId
    && forall k :: 0 <= k < i ==> selections[k].menuItemId != itemId
  }

  predicate HasSelection(selections: seq<MealSelection>, itemId: string) {
    exists k :: 0 <= k < |selections| && selections[k].menuItemId == itemId
  }

  /** `selections.find(s => s.menu_item_id === itemId)`, as the index of the row found. */
  function FindSelection(selections: seq<MealSelection>, itemId: string): (r: Option<nat>)
    ensures r.Some? ==> IsFirstMatch(selections, itemId, r.value)
    ensures r.None? <==> !HasSelection(selections, itemId)
  {
    if selections == [] then None
    else if selections[0].menuItemId == itemId then Some(0)
    else match FindSelection(selections[1..], itemId)
      case None => None
      case Some(i) => Some(i + 1)
  }

  /** There is at most one first match. */
  lemma FirstMatchUnique(selections: seq<MealSelection>, itemId: string, i: int, j: int)
    requires IsFirstMatch(selections, itemId, i) && IsFirstMatch(selections, itemId, j)
    ensures i == j
  {
  }

  /**
   * `getSelectionStatus`: `is_selected` of the first selection for the item,
   * `false` when there is none.
   */
  function SelectionStatus(selections: seq<MealSelection>, itemId: string): (b: bool)
    ensures !HasSelection(selections, itemId) ==> !b
    ensures forall i :: IsFirstMatch(selections, itemId, i) ==> b == selections[i].isSelected
  {
    match FindSelection(selections, itemId)
    case None => false
    case Some(i) =>
      assert forall j | IsFirstMatch(selections, itemId, j) :: j == i by {
        forall j | IsFirstMatch(selections, itemId, j) ensures j == i {
          FirstMatchUnique(selections, itemId, i, j);
        }
      }
      selections[i].isSelected
  }

  /** The selections that concern one menu item, in table order. */
  function RowsFor(selections: seq<MealSelection>, itemId: string): seq<MealSelection> {
    Filter(selections, (s: MealSelection) => s.menuItemId == itemId)
  }

  /** The status is read off the item's own rows: the first of them, if any. */
  lemma {:induction false} StatusFromOwnRows(selections: seq<MealSelection>, itemId: string)
    ensures SelectionStatus(selections, itemId) ==
              var own := RowsFor(selections, itemId);
              if own == [] then false else own[0].isSelected
  {
    if selections != [] {
      RowsForCons(selections, itemId);
      if selections[0].menuItemId != itemId {
        StatusSkipsOtherHead(selections, itemId);
        StatusFromOwnRows(selections[1..], itemId);
      }
    }
  }

  /** A first row for another item does not affect the lookup. */
  lemma StatusSkipsOtherHead(selections: seq<MealSelection>, itemId: string)
    requires selections != [] && selections[0].menuItemId != itemId
    ensures SelectionStatus(selections, itemId) == SelectionStatus(selections[1..], itemId)
  {
    match FindSelection(selections[1..], itemId)
    case None =>
    case Some(i) => assert selections[i + 1] == selections[1..][i];
  }

  lemma RowsForCons(selections: seq<MealSelection>, itemId: string)
    requires selections != []
    ensures RowsFor(selections, itemId) ==
              (if selections[0].menuItemId == itemId then [selections[0]] else []) + RowsFor(selections[1..], itemId)
  {
    FilterCons(selections, (s: MealSelection) => s.menuItemId == itemId);
  }

  /**
   * An item's status depends only on the selections for that item: tables that
   * agree on its rows give it the same status, whatever they hold for others.
   */
  lemma StatusIsLocal(a: seq<MealSelection>, b: seq<MealSelection>, itemId: string)
    requires RowsFor(a, itemId) == RowsFor(b, itemId)
    ensures SelectionStatus(a, itemId) == SelectionStatus(b, itemId)
  {
    StatusFromOwnRows(a, itemId);
    StatusFromOwnRows(b, itemId);
  }

  /** One item's button: what it shows and whether it is disabled. */
  datatype ItemButton = ItemButton(
    itemId: string,
    name: string,
    description: string,
    isSelected: bool,
    disabled: bool)

  /** What a card shows: the empty-list message, or one button per item. */
  datatype CardView = NoItems | ItemList(buttons: seq<ItemButton>)

  /** The arguments a click passes to `onToggleSelection`. */
  datatype ToggleRequest = ToggleRequest(menuItemId: string, currentValue: bool)

  /**
   * The button for one item: it names the item, shows the item's status in the
   * selections, and carries the card's `disabled` flag.
   */
  function Button(item: MenuItem, selections: seq<MealSelection>, disabled: bool): (b: ItemButton)
    ensures b.itemId == item.id && b.name == item.name && b.description == item.description
    ensures b.isSelected == SelectionStatus(selections, item.id)
    ensures !HasSelection(selections, item.id) ==> !b.isSelected
    ensures b.disabled == disabled
  {
    ItemButton(item.id, item.name, item.description, SelectionStatus(selections, item.id), disabled)
  }

  /**
   * The card: the empty-list message exactly when there are no items; otherwise
   * one button per item, in item order, each showing that item's status and
   * carrying the card's `disabled` flag.
   */
  function Render(items: seq<MenuItem>, selections: seq<MealSelection>, disabled: bool): (v: CardView)
    ensures v.NoItems? <==> |items| == 0
    ensures v.ItemList? ==> |v.buttons| == |items|
    ensures v.ItemList? ==> forall i :: 0 <= i < |v.buttons| ==>
              && v.buttons[i].itemId == items[i].id
              && v.buttons[i].isSelected == SelectionStatus(selections, items[i].id)
              && v.buttons[i].disabled == disabled
  {
    if |items| == 0 then NoItems
    else ItemList(seq(|items|, i requires 0 <= i < |items| => Button(items[i], selections, disabled)))
  }

  /**
   * A click on a button: a disabled button delivers no click; an enabled one
   * calls `onToggleSelection(item.id, isSelected)`.
   */
  function Click(b: ItemButton): (r: Option<ToggleRequest>)
    ensures r.None? <==> b.disabled
    ensures r.Some? ==> r.value.menuItemId == b.itemId && r.value.currentValue == b.isSelected
  {
    if b.disabled then None else Some(ToggleRequest(b.itemId, b.isSelected))
  }
}
