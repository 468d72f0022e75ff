/**
 * The view state around the category list: the initial layout, the selected
 * category (toggled by clicking a category header and reset to the first
 * group whenever the list changes), and which groups show their products.
 */
module StoreView {
  import opened Sequences
  import opened Catalog

  datatype Option<T> = None | Some(value: T)

  datatype Layout = List | Grid

  /** Catalogs with more products than this open in the list layout. */
  const ListLayoutThreshold: nat := 30

  /** The layout the screen starts in. */
  function InitialLayout(products: seq<Product>): (layout: Layout)
    ensures layout == List <==> |products| > ListLayoutThreshold
  {
    if |products| > ListLayoutThreshold then List else Grid
  }

  /** The selection before the first list is derived. */
  const InitialSelection: Option<Category> := None

  /** Clicking a category header: the selected category is cleared, any other one replaced. */
  function SelectCategory(current: Option<Category>, clicked: Category): (next: Option<Category>)
    ensures next == None <==> current == Some(clicked)
    ensures next == None || next == Some(clicked)
  {
    if current == Some(clicked) then None else Some(clicked)
  }

  /** Runs whenever the category list changes: selects the first group, if any. */
  function DefaultSelection(current: Option<Category>, categories: seq<Group>): (next: Option<Category>)
    ensures categories != [] ==> next == Some(categories[0].category)
    ensures categories == [] ==> next == current
  {
    if |categories| > 0 then Some(categories[0].category) else current
  }

  /** A group renders its products when it is the selected one or the layout is the grid. */
  predicate ShowsProducts(selected: Option<Category>, layout: Layout, category: Category) {
    selected == Some(category) || layout == Grid
  }

  /** Clicking the same category twice, starting from any other selection, selects it and then clears it. */
  lemma SelectTwice(current: Option<Category>, clicked: Category)
    requires current != Some(clicked)
    ensures SelectCategory(current, clicked) == Some(clicked)
    ensures SelectCategory(SelectCategory(current, clicked), clicked) == None
  {
  }

  /** The grid layout shows every group's products, whatever is selected. */
  lemma GridShowsEveryGroup(selected: Option<Category>, categories: seq<Group>)
    ensures forall i :: 0 <= i < |categories| ==> ShowsProducts(selected, Grid, categories[i].category)
  {
  }

  /** In the list layout at most one group, the selected one, shows its products. */
  lemma ListShowsAtMostOneGroup(selected: Option<Category>, categories: seq<Group>)
    requires InjectiveOn(categories, CategoryOf)
    ensures forall i, j :: (0 <= i < |categories| && 0 <= j < |categories|
              && ShowsProducts(selected, List, categories[i].category)
              && ShowsProducts(selected, List, categories[j].category)) ==> i == j
  {
    forall i, j | 0 <= i < j < |categories|
      ensures !(ShowsProducts(selected, List, categories[i].category)
                && ShowsProducts(selected, List, categories[j].category))
    {
      assert CategoryOf(categories[i]) != CategoryOf(categories[j]);
    }
  }

  /**
   * In the list layout a click on a header opens that group exactly when it
   * was closed, and closes every other group.
   */
  lemma ClickTogglesGroup(current: Option<Category>, clicked: Category, other: Category)
    requires other != clicked
    ensures ShowsProducts(SelectCategory(current, clicked), List, clicked) <==> !ShowsProducts(current, List, clicked)
    ensures !ShowsProducts(SelectCategory(current, clicked), List, other)
  {
  }

  /**
   * The header's click handler is attached in both layouts; only the pointer
   * cursor is limited to the list. So a click in the grid layout still
   * changes the selection, while the grid goes on showing the group either way.
   */
  lemma GridClickChangesSelection(current: Option<Category>, clicked: Category)
    ensures SelectCategory(current, clicked) != current
    ensures ShowsProducts(current, Grid, clicked) && ShowsProducts(SelectCategory(current, clicked), Grid, clicked)
  {
  }

  /**
   * When the derived list is not empty the default selection is its first
   * group: one at least as large as every group other than "Varios", and
   * "Varios" itself only when it is the only group. That group's products are
   * shown in either layout.
   */
  lemma DefaultSelectsLargestGroup(products: seq<Product>, query: string, current: Option<Category>, layout: Layout)
    requires CategoryList(products, query) != []
    ensures DefaultSelection(current, CategoryList(products, query)) == Some(CategoryList(products, query)[0].category)
    ensures forall j :: 0 < j < |CategoryList(products, query)| && CategoryList(products, query)[j].category != Varios ==>
              |CategoryList(products, query)[0].products| >= |CategoryList(products, query)[j].products|
    ensures CategoryList(products, query)[0].category == Varios ==> |CategoryList(products, query)| == 1
    ensures ShowsProducts(DefaultSelection(current, CategoryList(products, query)), layout, CategoryList(products, query)[0].category)
  {
    CatalogSizesNonIncreasing(products, query);
    CatalogVariosLast(products, query);
  }

  /** Before any search the list is empty only for an empty catalog, so the first product's category group exists. */
  lemma DefaultSelectionAfterLoad(products: seq<Product>)
    requires products != []
    ensures DefaultSelection(InitialSelection, CategoryList(products, "")) != None
  {
    CatalogEmptyIff(products, "");
  }
}
