/** The page's module-level state - the products last fetched and the sort
    direction of each column - and the handlers that use it. */
module Table {
  import opened Products
  import opened Ordering
  import Search

  class ProductTable {
    /** The list received from the API, reordered in place by each sort. */
    var products: seq<Item>
    /** The direction the next sort of each column uses. */
    var sortDirection: map<int, int>

    ghost predicate Valid()
      reads this
    {
      ValidDirections(sortDirection)
    }

    /** The page starts with no products and every column ascending. */
    constructor ()
      ensures Valid()
      ensures products == [] && sortDirection == InitialDirections
      ensures forall c :: Direction(c) == 1
    {
      products := [];
      sortDirection := InitialDirections;
    }

    /** The direction the next sortTable(column) call uses. */
    function Direction(column: int): (d: int)
      reads this
      requires Valid()
      ensures d == 1 || d == -1
    {
      DirectionIsSign(sortDirection, column);
      DirectionOf(sortDirection, column)
    }

    /** fetchProducts replaces the list with what the API returned; the sort
        directions are kept. */
    method Load(items: seq<Item>)
      requires Valid()
      modifies this
      ensures Valid()
      ensures products == items && sortDirection == old(sortDirection)
    {
      products := items;
    }

    /** sortTable(column): sorts products in place by the column in the
        column's current direction, then flips that direction. */
    method SortTable(column: int)
      requires Valid()
      modifies this
      ensures Valid()
      ensures products == StableSort(column, old(Direction(column)), old(products))
      ensures sortDirection == Toggled(old(sortDirection), column)
      // the sort is a permutation...
      ensures multiset(products) == multiset(old(products))
      // ...into comparator order...
      ensures Ordered(column, old(Direction(column)), products)
      // ...that keeps items with equal keys in their previous order...
      ensures forall p :: Ties(column, products, p) == Ties(column, old(products), p)
      // ...and, for a column the comparator does not know, changes nothing
      ensures column != 0 && column != 1 && column != 2 ==> products == old(products)
      // the next sort of this column goes the other way; other columns keep theirs
      ensures Direction(column) == -old(Direction(column))
      ensures forall c :: c != column ==> Direction(c) == old(Direction(c))
    {
      var dir := Direction(column);
      var sorted := StableSort(column, dir, products);
      StableSortPermutes(column, dir, products);
      StableSortOrdered(column, dir, products);
      forall p ensures Ties(column, sorted, p) == Ties(column, products, p) {
        StableSortIsStable(column, dir, products, p);
      }
      if column != 0 && column != 1 && column != 2 {
        StableSortUnknownColumn(column, dir, products);
      }
      products := sorted;
      sortDirection := Toggled(sortDirection, column);
    }

    /** searchProducts(text): the list rendered for the search box text;
        the products themselves are left alone. */
    method SearchProducts(text: string) returns (shown: seq<Item>)
      ensures shown == Search.SearchProducts(products, text)
      ensures Text.IsBlank(text) ==> shown == products
      ensures forall x :: x in shown ==> x in products
    {
      shown := Search.SearchProducts(products, text);
      Search.ShownAreProducts(products, text);
      if Text.IsBlank(text) {
        Search.BlankQueryShowsAll(products, text);
      }
    }
  }

  /** On a freshly opened page, two clicks on the quantity header after the
      first load: the first shows the products by ascending quantity, the
      second by descending quantity, and both show the same products. (A
      later load keeps the directions, so the order then depends on the
      earlier sorts.) */
  method SortQuantityTwice(items: seq<Item>) returns (first: seq<Item>, second: seq<Item>)
    ensures Ordered(2, 1, first) && Ordered(2, -1, second)
    ensures forall i, j :: 0 <= i < j < |first| ==> first[i].quantity <= first[j].quantity
    ensures forall i, j :: 0 <= i < j < |second| ==> second[i].quantity >= second[j].quantity
    ensures multiset(first) == multiset(items) && multiset(second) == multiset(items)
  {
    var t := new ProductTable();
    t.Load(items);
    t.SortTable(2);
    first := t.products;
    t.SortTable(2);
    second := t.products;
    forall i, j | 0 <= i < j < |first| ensures first[i].quantity <= first[j].quantity {
      OrderedByColumn(2, 1, first, i, j);
    }
    forall i, j | 0 <= i < j < |second| ensures second[i].quantity >= second[j].quantity {
      OrderedByColumn(2, -1, second, i, j);
    }
  }
}
