/**
 * The handlers and view decisions of src/pages/UnifiedDashboard.tsx. The two
 * tables are immutable sequences of rows; each handler is a function from the
 * table before to the table after a successful write, and the reload that
 * follows the write is taken to return that table. The clock, the signed-in
 * user, tomorrow's date string and the values the backend assigns to a new row
 * are explicit arguments.
 */
module Dashboard {
  import opened Wrappers
  import opened Cutoff
  import opened Records
  import opened Seqs
  import MealCard
  import EditableItem
  import AddItemBar
  import Text

  /** The ambient values a handler reads. `user` is the signed-in user's id. */
  datatype Env = Env(user: Option<string>, tomorrowDate: string, now: MsOfDay)

  /** What the backend and the clock supply for a write: a new row's id and a timestamp. */
  datatype Issued = Issued(id: string, stamp: string)

  /** `profile?.role === 'admin'`. */
  predicate IsAdmin(profile: Option<Profile>)
    ensures profile.None? ==> !IsAdmin(profile)
    ensures profile.Some? ==> (IsAdmin(profile) <==> profile.value.role == Admin)
  {
    profile.Some? && profile.value.role == Admin
  }

  // ---------------------------------------------------------------------------
  // Meal selections
  // ---------------------------------------------------------------------------

  /**
   * `update({ is_selected, updated_at }).eq('id', id)` on the selections table:
   * every row with that id, and only those, gets the flag and the stamp; rows
   * keep their positions.
   */
  function SetSelected(rows: seq<MealSelection>, id: string, value: bool, stamp: string): (r: seq<MealSelection>)
    ensures |r| == |rows|
    ensures forall k :: 0 <= k < |rows| && rows[k].id == id ==>
              r[k] == rows[k].(isSelected := value, updatedAt := stamp)
    ensures forall k :: 0 <= k < |rows| && rows[k].id != id ==> r[k] == rows[k]
  {
    seq(|rows|, k requires 0 <= k < |rows| =>
      if rows[k].id == id then rows[k].(isSelected := value, updatedAt := stamp) else rows[k])
  }

  /**
   * The row `insert` adds for a first selection of an item: the signed-in
   * user's, for tomorrow, selected, with the backend's id and both stamps set
   * to the write's stamp.
   */
  function NewSelection(env: Env, menuItemId: string, issued: Issued): (row: MealSelection)
    requires env.user.Some?
    ensures row.id == issued.id && row.userId == env.user.value && row.menuItemId == menuItemId
    ensures row.selectionDate == env.tomorrowDate && row.isSelected
    ensures row.createdAt == issued.stamp && row.updatedAt == issued.stamp
  {
    MealSelection(issued.id, env.user.value, menuItemId, env.tomorrowDate, true, issued.stamp, issued.stamp)
  }

  /**
   * `handleToggleSelection(menuItemId, currentValue)`.
   *
   * Once the cutoff has passed, or with nobody signed in, nothing is written.
   * Otherwise, if a selection for the item exists, every row sharing the first
   * such row's id gets `is_selected = !currentValue` and a new `updated_at`,
   * and no other row changes; if none exists, one row for the user, the item
   * and tomorrow, selected, is appended.
   */
  function ToggleSelection(selections: seq<MealSelection>, env: Env, menuItemId: string,
                           currentValue: bool, issued: Issued): (r: seq<MealSelection>)
    ensures IsCutoffPassed(env.now) || env.user.None? ==> r == selections
    ensures !IsCutoffPassed(env.now) && env.user.Some? ==>
              forall i :: MealCard.IsFirstMatch(selections, menuItemId, i) ==>
                && |r| == |selections|
                && r[i] == selections[i].(isSelected := !currentValue, updatedAt := issued.stamp)
                && forall k :: 0 <= k < |r| && selections[k].id != selections[i].id ==> r[k] == selections[k]
    ensures !IsCutoffPassed(env.now) && env.user.Some? && !MealCard.HasSelection(selections, menuItemId) ==>
              && |r| == |selections| + 1
              && r[..|selections|] == selections
              && r[|selections|].userId == env.user.value
              && r[|selections|].menuItemId == menuItemId
              && r[|selections|].selectionDate == env.tomorrowDate
              && r[|selections|].isSelected
  {
    if IsCutoffPassed(env.now) || env.user.None? then selections
    else match MealCard.FindSelection(selections, menuItemId)
      case Some(i) =>
        assert forall j :: MealCard.IsFirstMatch(selections, menuItemId, j) ==> j == i;
        SetSelected(selections, selections[i].id, !currentValue, issued.stamp)
      case None =>
        var r := selections + [NewSelection(env, menuItemId, issued)];
        assert r[..|selections|] == selections;
        r
  }

  /** With unique row ids the toggle changes at most the first row for the item. */
  lemma ToggleChangesOnlyFirstRow(selections: seq<MealSelection>, env: Env, menuItemId: string,
                                  currentValue: bool, issued: Issued, i: int)
    requires UniqueSelectionIds(selections)
    requires !IsCutoffPassed(env.now) && env.user.Some?
    requires MealCard.IsFirstMatch(selections, menuItemId, i)
    ensures var r := ToggleSelection(selections, env, menuItemId, currentValue, issued);
            && |r| == |selections|
            && r[i].isSelected == !currentValue
            && r[i].(isSelected := selections[i].isSelected, updatedAt := selections[i].updatedAt) == selections[i]
            && forall k :: 0 <= k < |r| && k != i ==> r[k] == selections[k]
  {
  }

  /** The toggle keeps row ids unique when the backend's new id is not already taken. */
  lemma ToggleKeepsIdsUnique(selections: seq<MealSelection>, env: Env, menuItemId: string,
                             currentValue: bool, issued: Issued)
    requires UniqueSelectionIds(selections)
    requires forall k :: 0 <= k < |selections| ==> selections[k].id != issued.id
    ensures UniqueSelectionIds(ToggleSelection(selections, env, menuItemId, currentValue, issued))
  {
    var r := ToggleSelection(selections, env, menuItemId, currentValue, issued);
    forall a, b | 0 <= a < b < |r| ensures r[a].id != r[b].id {
      if b < |selections| {
        assert r[a].id == selections[a].id && r[b].id == selections[b].id;
      }
    }
  }

  /**
   * Toggling an item with its current status, while the gate is open and a
   * user is signed in, negates that item's status and leaves the status of
   * every other item unchanged.
   */
  lemma {:induction false} ToggleNegatesOnlyThatItem(selections: seq<MealSelection>, env: Env,
                                                     menuItemId: string, issued: Issued)
    requires UniqueSelectionIds(selections)
    requires !IsCutoffPassed(env.now) && env.user.Some?
    ensures var r := ToggleSelection(selections, env, menuItemId,
                                     MealCard.SelectionStatus(selections, menuItemId), issued);
            && MealCard.SelectionStatus(r, menuItemId) == !MealCard.SelectionStatus(selections, menuItemId)
            && forall other :: other != menuItemId ==>
                 MealCard.SelectionStatus(r, other) == MealCard.SelectionStatus(selections, other)
  {
    match MealCard.FindSelection(selections, menuItemId)
    case Some(i) => ToggleExistingRow(selections, env, menuItemId, issued, i);
    case None => ToggleNewRow(selections, env, menuItemId, issued);
  }

  /** The update branch of `ToggleNegatesOnlyThatItem`, kept apart so that each branch is a small proof. */
  lemma ToggleExistingRow(selections: seq<MealSelection>, env: Env, menuItemId: string, issued: Issued, i: int)
    requires UniqueSelectionIds(selections)
    requires !IsCutoffPassed(env.now) && env.user.Some?
    requires MealCard.IsFirstMatch(selections, menuItemId, i)
    ensures var r := ToggleSelection(selections, env, menuItemId,
                                     MealCard.SelectionStatus(selections, menuItemId), issued);
            && MealCard.SelectionStatus(r, menuItemId) == !MealCard.SelectionStatus(selections, menuItemId)
            && forall other :: other != menuItemId ==>
                 MealCard.SelectionStatus(r, other) == MealCard.SelectionStatus(selections, other)
  {
    var current := MealCard.SelectionStatus(selections, menuItemId);
    var r := ToggleSelection(selections, env, menuItemId, current, issued);
    ToggleChangesOnlyFirstRow(selections, env, menuItemId, current, issued, i);
    SameItemColumnSameFirst(selections, r, menuItemId);
    assert MealCard.IsFirstMatch(r, menuItemId, i);
    forall other | other != menuItemId
      ensures MealCard.SelectionStatus(r, other) == MealCard.SelectionStatus(selections, other)
    {
      SameItemColumnSameFirst(selections, r, other);
      if MealCard.HasSelection(selections, other) {
        var j := MealCard.FindSelection(selections, other).value;
        assert j != i;
        assert MealCard.IsFirstMatch(r, other, j);
      }
    }
  }

  /** The insert branch of `ToggleNegatesOnlyThatItem`. */
  lemma ToggleNewRow(selections: seq<MealSelection>, env: Env, menuItemId: string, issued: Issued)
    requires !IsCutoffPassed(env.now) && env.user.Some?
    requires !MealCard.HasSelection(selections, menuItemId)
    ensures var r := ToggleSelection(selections, env, menuItemId,
                                     MealCard.SelectionStatus(selections, menuItemId), issued);
            && MealCard.SelectionStatus(r, menuItemId) == !MealCard.SelectionStatus(selections, menuItemId)
            && forall other :: other != menuItemId ==>
                 MealCard.SelectionStatus(r, other) == MealCard.SelectionStatus(selections, other)
  {
    var r := ToggleSelection(selections, env, menuItemId, false, issued);
    assert r == selections + [NewSelection(env, menuItemId, issued)];
    assert MealCard.IsFirstMatch(r, menuItemId, |selections|);
    forall other | other != menuItemId
      ensures MealCard.SelectionStatus(r, other) == MealCard.SelectionStatus(selections, other)
    {
      if MealCard.HasSelection(selections, other) {
        var j := MealCard.FindSelection(selections, other).value;
        assert MealCard.IsFirstMatch(r, other, j);
      } else {
        assert !MealCard.HasSelection(r, other) by {
          forall k | 0 <= k < |r| ensures r[k].menuItemId != other {
            if k < |selections| { assert r[k] == selections[k]; }
          }
        }
      }
    }
  }

  /** Tables of the same length whose rows name the same items have the same first matches. */
  lemma SameItemColumnSameFirst(a: seq<MealSelection>, b: seq<MealSelection>, itemId: string)
    requires |a| == |b|
    requires forall k :: 0 <= k < |a| ==> a[k].menuItemId == b[k].menuItemId
    ensures MealCard.HasSelection(a, itemId) <==> MealCard.HasSelection(b, itemId)
    ensures forall j :: MealCard.IsFirstMatch(a, itemId, j) <==> MealCard.IsFirstMatch(b, itemId, j)
  {
    if MealCard.HasSelection(a, itemId) {
      var k :| 0 <= k < |a| && a[k].menuItemId == itemId;
      assert b[k].menuItemId == itemId;
    }
    if MealCard.HasSelection(b, itemId) {
      var k :| 0 <= k < |b| && b[k].menuItemId == itemId;
      assert a[k].menuItemId == itemId;
    }
  }

  // ---------------------------------------------------------------------------
  // Menu items
  // ---------------------------------------------------------------------------

  /**
   * `handleAddMenuItem`: without a signed-in user nothing is written; otherwise
   * one item for tomorrow, of the given meal type, created by the user, is
   * appended and the existing rows are kept.
   */
  function AddMenuItem(items: seq<MenuItem>, env: Env, mealType: MealType, name: string,
                       description: string, issued: Issued): (r: seq<MenuItem>)
    ensures env.user.None? ==> r == items
    ensures env.user.Some? ==>
              && |r| == |items| + 1
              && r[..|items|] == items
              && r[|items|].name == name
              && r[|items|].description == description
              && r[|items|].mealType == mealType
              && r[|items|].menuDate == env.tomorrowDate
              && r[|items|].createdBy == env.user
  {
    if env.user.None? then items
    else
      var r := items + [MenuItem(issued.id, name, description, mealType, env.tomorrowDate,
                                 Some(env.user.value), issued.stamp, issued.stamp)];
      assert r[..|items|] == items;
      r
  }

  /** `update({ name, description }).eq('id', itemId)` on the menu items table. */
  function UpdateMenuItem(items: seq<MenuItem>, itemId: string, name: string, description: string): (r: seq<MenuItem>)
    ensures |r| == |items|
    ensures forall k :: 0 <= k < |r| ==>
              && r[k].id == items[k].id
              && r[k].mealType == items[k].mealType
              && r[k].menuDate == items[k].menuDate
    ensures forall k :: 0 <= k < |r| && items[k].id == itemId ==>
              r[k].name == name && r[k].description == description
              && r[k].(name := items[k].name, description := items[k].description) == items[k]
    ensures forall k :: 0 <= k < |r| && items[k].id != itemId ==> r[k] == items[k]
  {
    seq(|items|, k requires 0 <= k < |items| =>
      if items[k].id == itemId then items[k].(name := name, description := description) else items[k])
  }

  /**
   * `delete().eq('id', itemId)`: exactly the rows with that id go. That the
   * remaining rows also keep their order is `DeleteCons`.
   */
  function DeleteMenuItem(items: seq<MenuItem>, itemId: string): (r: seq<MenuItem>)
    ensures forall k :: 0 <= k < |r| ==> r[k].id != itemId && r[k] in items
    ensures forall k :: 0 <= k < |items| && items[k].id != itemId ==> items[k] in r
  {
    Filter(items, (it: MenuItem) => it.id != itemId)
  }

  /** `getItemsByMealType`: the items of one meal type, in table order. */
  function ItemsByMealType(items: seq<MenuItem>, mealType: MealType): (r: seq<MenuItem>)
    ensures forall k :: 0 <= k < |r| ==> r[k].mealType == mealType && r[k] in items
    ensures forall k :: 0 <= k < |items| && items[k].mealType == mealType ==> items[k] in r
  {
    Filter(items, (it: MenuItem) => it.mealType == mealType)
  }

  /** Deleting an id that is not in the table changes nothing. */
  lemma DeleteAbsent(items: seq<MenuItem>, itemId: string)
    requires forall k :: 0 <= k < |items| ==> items[k].id != itemId
    ensures DeleteMenuItem(items, itemId) == items
  {
    FilterAll(items, (it: MenuItem) => it.id != itemId);
  }

  /** With unique ids a delete removes at most one row. */
  lemma {:induction false} DeleteRemovesAtMostOne(items: seq<MenuItem>, itemId: string)
    requires UniqueItemIds(items)
    ensures |DeleteMenuItem(items, itemId)| >= |items| - 1
  {
    if items != [] {
      var rest := items[1..];
      DeleteCons(items, itemId);
      if items[0].id == itemId {
        assert forall k :: 0 <= k < |rest| ==> rest[k].id != itemId by {
          forall k | 0 <= k < |rest| ensures rest[k].id != itemId {
            assert rest[k] == items[k + 1];
          }
        }
        DeleteAbsent(rest, itemId);
      } else {
        assert UniqueItemIds(rest) by {
          forall a, b | 0 <= a < b < |rest| ensures rest[a].id != rest[b].id {
            assert rest[a] == items[a + 1] && rest[b] == items[b + 1];
          }
        }
        DeleteRemovesAtMostOne(rest, itemId);
      }
    }
  }

  /** A delete walks the table front to back, so the rows it keeps stay in table order. */
  lemma DeleteCons(items: seq<MenuItem>, itemId: string)
    requires items != []
    ensures DeleteMenuItem(items, itemId) ==
              (if items[0].id != itemId then [items[0]] else []) + DeleteMenuItem(items[1..], itemId)
  {
    FilterCons(items, (it: MenuItem) => it.id != itemId);
  }

  /** A new item shows up at the end of its own meal type's list and nowhere else. */
  lemma AddedItemListedUnderItsType(items: seq<MenuItem>, env: Env, mealType: MealType,
                                     name: string, description: string, issued: Issued, t: MealType)
    requires env.user.Some?
    ensures var r := AddMenuItem(items, env, mealType, name, description, issued);
            ItemsByMealType(r, t) ==
              ItemsByMealType(items, t) + (if t == mealType then [r[|items|]] else [])
  {
    var r := AddMenuItem(items, env, mealType, name, description, issued);
    var p := (it: MenuItem) => it.mealType == t;
    assert r == items + [r[|items|]];
    FilterConcat(items, [r[|items|]], p);
    FilterSingleton(r[|items|], p);
  }

  /**
   * An update never moves an item to another meal type's list: each list after
   * the update is the list before it with the same update applied, so it keeps
   * its length and its order.
   */
  lemma {:induction false} UpdateKeepsLists(items: seq<MenuItem>, itemId: string, name: string,
                                            description: string, t: MealType)
    ensures ItemsByMealType(UpdateMenuItem(items, itemId, name, description), t)
              == UpdateMenuItem(ItemsByMealType(items, t), itemId, name, description)
    ensures |ItemsByMealType(UpdateMenuItem(items, itemId, name, description), t)| == |ItemsByMealType(items, t)|
  {
    if items != [] {
      var x, rest := items[0], items[1..];
      assert items == [x] + rest;
      var y := if x.id == itemId then x.(name := name, description := description) else x;
      UpdateCons(x, rest, itemId, name, description);
      ItemsByMealTypeCons(y, UpdateMenuItem(rest, itemId, name, description), t);
      ItemsByMealTypeCons(x, rest, t);
      UpdateKeepsLists(rest, itemId, name, description, t);
      if x.mealType == t {
        UpdateCons(x, ItemsByMealType(rest, t), itemId, name, description);
      }
    }
  }

  /** An update walks the table front to back, changing each row on its own. */
  lemma UpdateCons(x: MenuItem, rest: seq<MenuItem>, itemId: string, name: string, description: string)
    ensures UpdateMenuItem([x] + rest, itemId, name, description)
              == [if x.id == itemId then x.(name := name, description := description) else x]
                 + UpdateMenuItem(rest, itemId, name, description)
  {
    var l := [x] + rest;
    assert l[0] == x;
    assert forall k :: 0 <= k < |rest| ==> l[k + 1] == rest[k];
  }

  /** Splitting off the first item of a table, for one meal type's list. */
  lemma ItemsByMealTypeCons(x: MenuItem, rest: seq<MenuItem>, t: MealType)
    ensures ItemsByMealType([x] + rest, t) == (if x.mealType == t then [x] else []) + ItemsByMealType(rest, t)
  {
    assert ([x] + rest)[1..] == rest;
    FilterCons([x] + rest, (it: MenuItem) => it.mealType == t);
  }

  /** The three meal cards together show every menu item exactly once. */
  lemma {:induction false} MealTypesPartition(items: seq<MenuItem>)
    ensures multiset(ItemsByMealType(items, Breakfast)) + multiset(ItemsByMealType(items, Lunch))
              + multiset(ItemsByMealType(items, Snacks)) == multiset(items)
  {
    if items != [] {
      var x, rest := items[0], items[1..];
      assert items == [x] + rest;
      ItemsByMealTypeCons(x, rest, Breakfast);
      ItemsByMealTypeCons(x, rest, Lunch);
      ItemsByMealTypeCons(x, rest, Snacks);
      MealTypesPartition(rest);
      var b, l, n := ItemsByMealType(rest, Breakfast), ItemsByMealType(rest, Lunch), ItemsByMealType(rest, Snacks);
      assert multiset(items) == multiset{x} + multiset(rest);
      assert multiset(b) + multiset(l) + multiset(n) == multiset(rest);
      match x.mealType
      case Breakfast =>
        assert ItemsByMealType(items, Breakfast) == [x] + b;
        assert ItemsByMealType(items, Lunch) == l && ItemsByMealType(items, Snacks) == n;
        assert multiset([x] + b) == multiset{x} + multiset(b);
      case Lunch =>
        assert ItemsByMealType(items, Lunch) == [x] + l;
        assert ItemsByMealType(items, Breakfast) == b && ItemsByMealType(items, Snacks) == n;
        assert multiset([x] + l) == multiset{x} + multiset(l);
      case Snacks =>
        assert ItemsByMealType(items, Snacks) == [x] + n;
        assert ItemsByMealType(items, Breakfast) == b && ItemsByMealType(items, Lunch) == l;
        assert multiset([x] + n) == multiset{x} + multiset(n);
    }
  }

  // ---------------------------------------------------------------------------
  // The rendered page and its wiring
  // ---------------------------------------------------------------------------

  /** The meal types in the order the page lays out their cards and lists. */
  const MealTypes: seq<MealType> := [Breakfast, Lunch, Snacks]

  /**
   * What the page shows once loaded: for an administrator the three editable
   * lists; for anybody else the lock banner flag and the three meal cards.
   */
  datatype PageView =
    | AdminPage(lists: seq<seq<MenuItem>>)
    | EmployeePage(lockBanner: bool, cards: seq<MealCard.CardView>)

  /**
   * The employee's cards: card k is the meal card over the items of the k-th
   * meal type, and every one is disabled by the same gate reading.
   */
  function EmployeeCards(items: seq<MenuItem>, selections: seq<MealSelection>, now: MsOfDay): (cards: seq<MealCard.CardView>)
    ensures |cards| == |MealTypes|
    ensures forall k :: 0 <= k < |cards| && cards[k].ItemList? ==>
              forall j :: 0 <= j < |cards[k].buttons| ==>
                (cards[k].buttons[j].disabled <==> IsCutoffPassed(now))
    ensures forall k :: 0 <= k < |cards| ==>
              (cards[k].NoItems? <==> ItemsByMealType(items, MealTypes[k]) == [])
    ensures forall k :: 0 <= k < |cards| ==>
              cards[k] == MealCard.Render(ItemsByMealType(items, MealTypes[k]), selections, IsCutoffPassed(now))
  {
    seq(|MealTypes|, k requires 0 <= k < |MealTypes| =>
      MealCard.Render(ItemsByMealType(items, MealTypes[k]), selections, IsCutoffPassed(now)))
  }

  /**
   * The page: administrators get the lists, everybody else the cards, with the
   * lock banner shown exactly when the cutoff has passed.
   */
  function Render(profile: Option<Profile>, items: seq<MenuItem>, selections: seq<MealSelection>,
                  now: MsOfDay): (v: PageView)
    ensures v.AdminPage? <==> IsAdmin(profile)
    ensures v.AdminPage? ==> |v.lists| == |MealTypes|
    ensures v.AdminPage? ==> forall k :: 0 <= k < |v.lists| ==>
              forall j :: 0 <= j < |v.lists[k]| ==> v.lists[k][j].mealType == MealTypes[k]
    ensures v.AdminPage? ==> forall k :: 0 <= k < |v.lists| ==> v.lists[k] == ItemsByMealType(items, MealTypes[k])
    ensures v.EmployeePage? ==> (v.lockBanner <==> IsCutoffPassed(now))
    ensures v.EmployeePage? ==> v.cards == EmployeeCards(items, selections, now)
  {
    if IsAdmin(profile) then
      AdminPage(seq(|MealTypes|, k requires 0 <= k < |MealTypes| => ItemsByMealType(items, MealTypes[k])))
    else
      EmployeePage(IsCutoffPassed(now), EmployeeCards(items, selections, now))
  }

  /**
   * A click on an employee's item button. Rendered after the cutoff, the button
   * is disabled and nothing happens. Rendered before it, the click calls the
   * toggle with the item's id and shown status; if the gate is still open when
   * the toggle runs and a user is signed in, that item's status is negated and
   * every other item keeps its status, and otherwise no row changes.
   */
  lemma {:induction false} ClickThenToggle(items: seq<MenuItem>, selections: seq<MealSelection>,
                                           renderedAt: MsOfDay, env: Env, issued: Issued, k: int, j: int)
    requires UniqueSelectionIds(selections)
    requires 0 <= k < |MealTypes|
    requires var card := EmployeeCards(items, selections, renderedAt)[k];
             card.ItemList? && 0 <= j < |card.buttons|
    ensures var b := EmployeeCards(items, selections, renderedAt)[k].buttons[j];
            var item := ItemsByMealType(items, MealTypes[k])[j];
            && (IsCutoffPassed(renderedAt) ==> MealCard.Click(b).None?)
            && (!IsCutoffPassed(renderedAt) ==>
                  && MealCard.Click(b) == Some(MealCard.ToggleRequest(item.id, MealCard.SelectionStatus(selections, item.id)))
                  && var r := ToggleSelection(selections, env, item.id, MealCard.Click(b).value.currentValue, issued);
                     && (IsCutoffPassed(env.now) || env.user.None? ==> r == selections)
                     && (!IsCutoffPassed(env.now) && env.user.Some? ==>
                           && MealCard.SelectionStatus(r, item.id) == !MealCard.SelectionStatus(selections, item.id)
                           && forall other :: other != item.id ==>
                                MealCard.SelectionStatus(r, other) == MealCard.SelectionStatus(selections, other)))
  {
    var listed := ItemsByMealType(items, MealTypes[k]);
    var card := EmployeeCards(items, selections, renderedAt)[k];
    assert card == MealCard.Render(listed, selections, IsCutoffPassed(renderedAt));
    var item := listed[j];
    if !IsCutoffPassed(renderedAt) && !IsCutoffPassed(env.now) && env.user.Some? {
      ToggleNegatesOnlyThatItem(selections, env, item.id, issued);
    }
  }

  /**
   * Saving an item's inline editor (src/components/admin/MenuList.tsx wires
   * `onSave` to `onUpdate(item.id, ...)`): every row with the item's id then
   * carries the saved name, which is non-empty and trimmed, and no other row
   * changes.
   */
  lemma SaveUpdatesItem(items: seq<MenuItem>, itemId: string, st: EditableItem.EditState)
    requires !Text.AllWhitespace(st.editName)
    ensures var call := EditableItem.Save(st).call.value;
            var r := UpdateMenuItem(items, itemId, call.name, call.description);
            && call.name == Text.Trim(st.editName) && call.name != [] && Text.IsTrimmed(call.name)
            && (forall i :: 0 <= i < |r| && items[i].id == itemId ==> r[i].name == call.name)
            && (forall i :: 0 <= i < |r| && items[i].id != itemId ==> r[i] == items[i])
  {
  }

  /**
   * Submitting a meal type's add form (MenuList passes `onAdd` through to the
   * page's `handleAddMenuItem` for that meal type): with a signed-in user the
   * item appears last in that meal type's list, under a non-empty trimmed name.
   */
  lemma SubmitAddsItem(items: seq<MenuItem>, env: Env, mealType: MealType, st: AddItemBar.BarState,
                       issued: Issued)
    requires env.user.Some?
    requires !Text.AllWhitespace(st.name)
    ensures var call := AddItemBar.Submit(st).call.value;
            var listed := ItemsByMealType(AddMenuItem(items, env, mealType, call.name, call.description, issued), mealType);
            && |listed| == |ItemsByMealType(items, mealType)| + 1
            && listed[|listed| - 1].name == call.name
            && call.name == Text.Trim(st.name) && call.name != [] && Text.Trim(call.name) == call.name
  {
    var call := AddItemBar.Submit(st).call.value;
    AddedItemListedUnderItsType(items, env, mealType, call.name, call.description, issued, mealType);
  }
}
