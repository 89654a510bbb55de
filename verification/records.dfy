/**
 * The row shapes of the three backend tables (src/lib/supabase.ts). Identifiers,
 * dates and timestamps are the backend's strings and are treated as opaque.
 */
module Records {
  import opened Wrappers

  datatype Role = Employee | Admin

  datatype MealType = Breakfast | Lunch | Snacks

  /** A row of `profiles`. */
  datatype Profile = Profile(
    id: string,
    email: string,
    fullName: string,
    role: Role,
    createdAt: string)

  /** A row of `menu_items`; `createdBy` is nullable in the table. */
  datatype MenuItem = MenuItem(
    id: string,
    name: string,
    description: string,
    mealType: MealType,
    menuDate: string,
    createdBy: Option<string>,
    createdAt: string,
    updatedAt: string)

  /** A row of `meal_selections`: one user's choice of one menu item for one date. */
  datatype MealSelection = MealSelection(
    id: string,
    userId: string,
    menuItemId: string,
    selectionDate: string,
    isSelected: bool,
    createdAt: string,
    updatedAt: string)

  /** Row ids are the tables' primary keys: no two rows share one. */
  predicate UniqueSelectionIds(rows: seq<MealSelection>) {
    forall i, j :: 0 <= i < j < |rows| ==> rows[i].id != rows[j].id
  }

  predicate UniqueItemIds(rows: seq<MenuItem>) {
    forall i, j :: 0 <= i < j < |rows| ==> rows[i].id != rows[j].id
  }
}
