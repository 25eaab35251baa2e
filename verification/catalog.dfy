/** The catalog screen's row filter: a status filter, a course filter and a free-text
    search over serial and component name, as the latest revision applies them, and
    the earlier revision's simpler filter. */
module Catalog {
  import opened Options
  import opened Seqs
  import opened Text
  import opened Store

  /** The value of either drop-down that disables its filter. */
  const ALL: string := "All"

  /** The three controls of the catalog screen. */
  datatype Filters = Filters(status: string, course: string, search: string)

  /** The component name shown for an item: its category's name, `Unknown` when it has none. */
  function ComponentName(inventory: seq<Inventory>, item: Item): string {
    match InventoryOf(inventory, item.inventoryId)
    case Some(inv) => inv.name
    case None => "Unknown"
  }

  /** A course tag after normalisation: stripped, with a missing, blank or `N/A` tag meaning none. */
  function NormalCourse(course: Option<string>): (r: Option<string>)
    ensures r.Some? ==> r.value != [] && r.value != "N/A" && r.value == Strip(r.value)
    ensures course.Some? && Strip(course.value) != [] && Strip(course.value) != "N/A" ==> r == Some(Strip(course.value))
    ensures course.None? ==> r.None?
  {
    match course
    case None => None
    case Some(c) =>
      var t := Strip(c);
      StripIdempotent(c);
      if t == [] || t == "N/A" then None else Some(t)
  }

  lemma StripIdempotent(s: string)
    ensures Strip(Strip(s)) == Strip(s)
  {
  }

  /** The normalised course of an item's category. */
  function ItemCourse(inventory: seq<Inventory>, item: Item): Option<string> {
    match InventoryOf(inventory, item.inventoryId)
    case Some(inv) => NormalCourse(inv.course)
    case None => None
  }

  predicate StatusPasses(item: Item, status: string) {
    status == ALL || Strip(item.status) == Strip(status)
  }

  predicate CoursePasses(inventory: seq<Inventory>, item: Item, course: string) {
    course == ALL || ItemCourse(inventory, item) == Some(Strip(course))
  }

  /** An empty query passes everything; otherwise the lower-cased serial or component name contains it. */
  predicate SearchPasses(inventory: seq<Inventory>, item: Item, q: string) {
    q == [] || Contains(Lower(item.serial), q) || Contains(Lower(ComponentName(inventory, item)), q)
  }

  predicate Shown(inventory: seq<Inventory>, item: Item, f: Filters) {
    StatusPasses(item, f.status) && CoursePasses(inventory, item, f.course) &&
    SearchPasses(inventory, item, Lower(Strip(f.search)))
  }

  /** The rows `_filter_catalog_table` displays: the items passing all three filters, in store order. */
  function CatalogRows(s: Store, f: Filters): (r: seq<Item>)
    ensures |r| <= |s.items|
    ensures forall x :: x in r <==> x in s.items && Shown(s.inventory, x, f)
    ensures KeepsOrder(s.items, r)
  {
    Filter(s.items, (it: Item) => Shown(s.inventory, it, f))
  }

  /** The earlier filter: exact status equality, no course filter, the same search. */
  predicate ShownBefore(inventory: seq<Inventory>, item: Item, status: string, search: string) {
    (status == ALL || item.status == status) && SearchPasses(inventory, item, Lower(Strip(search)))
  }

  function CatalogRowsBefore(s: Store, status: string, search: string): (r: seq<Item>)
    ensures |r| <= |s.items|
    ensures forall x :: x in r <==> x in s.items && ShownBefore(s.inventory, x, status, search)
    ensures KeepsOrder(s.items, r)
  {
    Filter(s.items, (it: Item) => ShownBefore(s.inventory, it, status, search))
  }

  /** With no filter set, every item is shown, in store order. */
  lemma NoFilterShowsAll(s: Store)
    ensures CatalogRows(s, Filters(ALL, ALL, "")) == s.items
  {
    assert Strip("") == "" && Lower("") == "";
    FilterKeepsAll(s.items, (it: Item) => Shown(s.inventory, it, Filters(ALL, ALL, "")));
  }

  /** The two revisions show the same rows when the course filter is off and no status,
      filtered or filtering, carries surrounding whitespace. */
  lemma RevisionsAgree(s: Store, status: string, search: string)
    requires Strip(status) == status
    requires forall k :: 0 <= k < |s.items| ==> Strip(s.items[k].status) == s.items[k].status
    ensures CatalogRows(s, Filters(status, ALL, search)) == CatalogRowsBefore(s, status, search)
  {
    FilterCongruent(s.items, (it: Item) => Shown(s.inventory, it, Filters(status, ALL, search)),
                    (it: Item) => ShownBefore(s.inventory, it, status, search));
  }

  /** The latest filter forgives whitespace around a status; the earlier one does not. */
  lemma StripMakesADifference(inv: seq<Inventory>, item: Item)
    requires item.status == AVAILABLE + " "
    ensures Shown(inv, item, Filters(AVAILABLE, ALL, ""))
    ensures !ShownBefore(inv, item, AVAILABLE, "")
  {
    var t := item.status;
    assert IsSpace(t[|t| - 1]) && t[..|t| - 1] == AVAILABLE;
    assert TrimLeft(t) == t;
    assert TrimRight(t) == TrimRight(AVAILABLE);
    assert Strip("") == "" && Lower("") == "";
  }

  /** An item whose category has no course tag never passes a specific course filter. */
  lemma UntaggedHiddenByCourse(s: Store, f: Filters, x: Item)
    requires f.course != ALL && x in s.items
    requires InventoryOf(s.inventory, x.inventoryId).None? || InventoryOf(s.inventory, x.inventoryId).value.course.None?
    ensures x !in CatalogRows(s, f)
  {
  }

  /** Adding search text never brings in a row the same filters without it would hide. */
  lemma SearchOnlyNarrows(s: Store, f: Filters, x: Item)
    requires x in CatalogRows(s, f)
    ensures x in CatalogRows(s, f.(search := ""))
  {
    assert Strip("") == "" && Lower("") == "";
  }
}
