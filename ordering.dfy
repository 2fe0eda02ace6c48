/** The column sort of the product table: the comparator sortTable hands to
    products.sort, the stable sort itself, and the per-column direction map
    that flips on every call. */
module Ordering {
  import opened Products

  /** Stand-in for String.prototype.localeCompare: code-point lexicographic
      order, answering -1, 0 or 1. */
  function LexCompare(a: string, b: string): (c: int)
    ensures -1 <= c <= 1
  {
    if a == [] && b == [] then 0
    else if a == [] then -1
    else if b == [] then 1
    else if a[0] < b[0] then -1
    else if a[0] > b[0] then 1
    else LexCompare(a[1..], b[1..])
  }

  /** Only equal strings compare as equal. */
  lemma {:induction false} LexCompareZero(a: string, b: string)
    ensures LexCompare(a, b) == 0 <==> a == b
  {
    if a != [] && b != [] && a[0] == b[0] {
      LexCompareZero(a[1..], b[1..]);
      assert a == [a[0]] + a[1..] && b == [b[0]] + b[1..];
    }
  }

  /** Swapping the arguments negates the answer. */
  lemma {:induction false} LexCompareFlip(a: string, b: string)
    ensures LexCompare(b, a) == -LexCompare(a, b)
  {
    if a != [] && b != [] && a[0] == b[0] {
      LexCompareFlip(a[1..], b[1..]);
    }
  }

  /** "Not after" is transitive. */
  lemma {:induction false} LexCompareTransitive(a: string, b: string, c: string)
    requires LexCompare(a, b) <= 0 && LexCompare(b, c) <= 0
    ensures LexCompare(a, c) <= 0
  {
    if a != [] && b != [] && c != [] && a[0] == b[0] == c[0] {
      LexCompareTransitive(a[1..], b[1..], c[1..]);
    }
  }

  /** The comparator of sortTable for column 0 (name), 1 (date) and 2
      (quantity), scaled by the direction; every other column compares all
      items as equal. Dates are subtracted as instants in the source; for ISO
      yyyy-mm-dd strings their lexicographic order is the chronological one. */
  function Compare(column: int, dir: int, a: Item, b: Item): int {
    if column == 0 then dir * LexCompare(a.name, b.name)
    else if column == 1 then dir * LexCompare(a.date, b.date)
    else if column == 2 then dir * (a.quantity - b.quantity)
    else 0
  }

  /** The field of the column is the same in a and b (any two items agree on
      a column the comparator does not know). */
  predicate SameKey(column: int, a: Item, b: Item) {
    if column == 0 then a.name == b.name
    else if column == 1 then a.date == b.date
    else if column == 2 then a.quantity == b.quantity
    else true
  }

  /** The comparator is antisymmetric... */
  lemma CompareFlip(column: int, dir: int, a: Item, b: Item)
    requires dir == 1 || dir == -1
    ensures Compare(column, dir, b, a) == -Compare(column, dir, a, b)
  {
    LexCompareFlip(a.name, b.name);
    LexCompareFlip(a.date, b.date);
  }

  /** ...transitive... */
  lemma CompareTransitive(column: int, dir: int, a: Item, b: Item, c: Item)
    requires dir == 1 || dir == -1
    requires Compare(column, dir, a, b) <= 0 && Compare(column, dir, b, c) <= 0
    ensures Compare(column, dir, a, c) <= 0
  {
    if column == 0 {
      if dir == 1 {
        LexCompareTransitive(a.name, b.name, c.name);
      } else {
        LexCompareFlip(a.name, b.name);
        LexCompareFlip(b.name, c.name);
        LexCompareFlip(a.name, c.name);
        LexCompareTransitive(c.name, b.name, a.name);
      }
    } else if column == 1 {
      if dir == 1 {
        LexCompareTransitive(a.date, b.date, c.date);
      } else {
        LexCompareFlip(a.date, b.date);
        LexCompareFlip(b.date, c.date);
        LexCompareFlip(a.date, c.date);
        LexCompareTransitive(c.date, b.date, a.date);
      }
    }
  }

  /** ...and answers 0 exactly for items with the same key, which it treats
      alike whatever they are compared with. */
  lemma CompareTies(column: int, dir: int, a: Item, b: Item, c: Item)
    requires dir == 1 || dir == -1
    ensures Compare(column, dir, a, b) == 0 <==> SameKey(column, a, b)
    ensures SameKey(column, a, b) ==> Compare(column, dir, a, c) == Compare(column, dir, b, c)
  {
    LexCompareZero(a.name, b.name);
    LexCompareZero(a.date, b.date);
  }

  /** Inserts x before the first element it does not sort after, so x stays
      in front of the elements it ties with. */
  function Insert(column: int, dir: int, x: Item, s: seq<Item>): seq<Item> {
    if s == [] then [x]
    else if Compare(column, dir, x, s[0]) <= 0 then [x] + s
    else [s[0]] + Insert(column, dir, x, s[1..])
  }

  /** products.sort with sortTable's comparator: a stable insertion sort. */
  function StableSort(column: int, dir: int, s: seq<Item>): seq<Item> {
    if s == [] then [] else Insert(column, dir, s[0], StableSort(column, dir, s[1..]))
  }

  predicate Ordered(column: int, dir: int, s: seq<Item>) {
    forall i, j :: 0 <= i < j < |s| ==> Compare(column, dir, s[i], s[j]) <= 0
  }

  lemma {:induction false} InsertPermutes(column: int, dir: int, x: Item, s: seq<Item>)
    ensures multiset(Insert(column, dir, x, s)) == multiset(s) + multiset{x}
  {
    if s != [] && Compare(column, dir, x, s[0]) > 0 {
      InsertPermutes(column, dir, x, s[1..]);
      assert s == [s[0]] + s[1..];
    }
  }

  lemma {:induction false} InsertOrdered(column: int, dir: int, x: Item, s: seq<Item>)
    requires dir == 1 || dir == -1
    requires Ordered(column, dir, s)
    ensures Ordered(column, dir, Insert(column, dir, x, s))
  {
    if s == [] {
    } else if Compare(column, dir, x, s[0]) <= 0 {
      var r := [x] + s;
      forall i, j | 0 <= i < j < |r| ensures Compare(column, dir, r[i], r[j]) <= 0 {
        if i == 0 && j > 1 {
          CompareTransitive(column, dir, x, s[0], s[j - 1]);
        }
      }
    } else {
      var t := Insert(column, dir, x, s[1..]);
      InsertOrdered(column, dir, x, s[1..]);
      InsertPermutes(column, dir, x, s[1..]);
      CompareFlip(column, dir, x, s[0]);
      var r := [s[0]] + t;
      forall i, j | 0 <= i < j < |r| ensures Compare(column, dir, r[i], r[j]) <= 0 {
        if i == 0 {
          assert r[j] in multiset(t);
          if r[j] != x {
            assert r[j] in multiset(s[1..]);
            var k :| 0 <= k < |s[1..]| && s[1..][k] == r[j];
            assert Compare(column, dir, s[0], s[k + 1]) <= 0;
          }
        }
      }
    }
  }

  /** The sort only reorders: the result is a permutation of the input. */
  lemma {:induction false} StableSortPermutes(column: int, dir: int, s: seq<Item>)
    ensures multiset(StableSort(column, dir, s)) == multiset(s)
  {
    if s != [] {
      StableSortPermutes(column, dir, s[1..]);
      InsertPermutes(column, dir, s[0], StableSort(column, dir, s[1..]));
      assert s == [s[0]] + s[1..];
    }
  }

  /** The sort puts the items in comparator order. */
  lemma {:induction false} StableSortOrdered(column: int, dir: int, s: seq<Item>)
    requires dir == 1 || dir == -1
    ensures Ordered(column, dir, StableSort(column, dir, s))
  {
    if s != [] {
      StableSortOrdered(column, dir, s[1..]);
      InsertOrdered(column, dir, s[0], StableSort(column, dir, s[1..]));
    }
  }

  /** For a column the comparator does not know, every comparison is 0 and
      the stable sort leaves the order as it was. */
  lemma {:induction false} StableSortUnknownColumn(column: int, dir: int, s: seq<Item>)
    requires column != 0 && column != 1 && column != 2
    ensures StableSort(column, dir, s) == s
  {
    if s != [] {
      StableSortUnknownColumn(column, dir, s[1..]);
      assert s == [s[0]] + s[1..];
    }
  }

  /** The items of s whose key on the column equals that of p, in order. */
  function Ties(column: int, s: seq<Item>, p: Item): seq<Item> {
    if s == [] then []
    else (if SameKey(column, s[0], p) then [s[0]] else []) + Ties(column, s[1..], p)
  }

  lemma {:induction false} TiesInsert(column: int, dir: int, x: Item, s: seq<Item>, p: Item)
    requires dir == 1 || dir == -1
    ensures Ties(column, Insert(column, dir, x, s), p)
         == (if SameKey(column, x, p) then [x] else []) + Ties(column, s, p)
  {
    if s != [] && Compare(column, dir, x, s[0]) > 0 {
      TiesInsert(column, dir, x, s[1..], p);
      var r := Insert(column, dir, x, s);
      assert r[0] == s[0] && r[1..] == Insert(column, dir, x, s[1..]);
      if SameKey(column, x, p) && SameKey(column, s[0], p) {
        CompareTies(column, dir, x, p, s[0]);
        CompareTies(column, dir, s[0], p, x);
        CompareTies(column, dir, p, x, s[0]);
        CompareFlip(column, dir, p, s[0]);
        assert false;
      }
    } else if s != [] {
      var r := Insert(column, dir, x, s);
      assert r[0] == x && r[1..] == s;
    }
  }

  /** Stability: items with equal keys keep their relative order. */
  lemma {:induction false} StableSortIsStable(column: int, dir: int, s: seq<Item>, p: Item)
    requires dir == 1 || dir == -1
    ensures Ties(column, StableSort(column, dir, s), p) == Ties(column, s, p)
  {
    if s != [] {
      StableSortIsStable(column, dir, s[1..], p);
      TiesInsert(column, dir, s[0], StableSort(column, dir, s[1..]), p);
    }
  }

  /** What comparator order means for each column: quantities ascending for
      direction 1 and descending for -1, and likewise names and dates. */
  lemma OrderedByColumn(column: int, dir: int, s: seq<Item>, i: int, j: int)
    requires dir == 1 || dir == -1
    requires Ordered(column, dir, s) && 0 <= i < j < |s|
    ensures column == 0 ==> dir * LexCompare(s[i].name, s[j].name) <= 0
    ensures column == 1 ==> dir * LexCompare(s[i].date, s[j].date) <= 0
    ensures column == 2 && dir == 1 ==> s[i].quantity <= s[j].quantity
    ensures column == 2 && dir == -1 ==> s[i].quantity >= s[j].quantity
  {
    assert Compare(column, dir, s[i], s[j]) <= 0;
  }

  /** The sort direction each column starts with: ascending. */
  const InitialDirections: map<int, int> := map[0 := 1, 1 := 1, 2 := 1]

  /** sortDirection[column] || 1: a missing (or zero) entry reads as 1. */
  function DirectionOf(m: map<int, int>, column: int): int {
    if column in m && m[column] != 0 then m[column] else 1
  }

  /** Every recorded direction is ascending (1) or descending (-1). */
  ghost predicate ValidDirections(m: map<int, int>) {
    forall c :: c in m ==> m[c] == 1 || m[c] == -1
  }

  /** sortDirection[column] = -dir: the direction of this column flips,
      every other column keeps its direction, and the map stays valid. */
  function Toggled(m: map<int, int>, column: int): (m': map<int, int>)
    ensures DirectionOf(m', column) == -DirectionOf(m, column)
    ensures forall c :: c != column ==> DirectionOf(m', c) == DirectionOf(m, c)
    ensures ValidDirections(m) ==> ValidDirections(m')
  {
    m[column := -DirectionOf(m, column)]
  }

  /** A valid map always yields one of the two directions. */
  lemma DirectionIsSign(m: map<int, int>, column: int)
    requires ValidDirections(m)
    ensures DirectionOf(m, column) == 1 || DirectionOf(m, column) == -1
  {
  }

  /** Before any sort, every column (known or not) sorts ascending first. */
  lemma InitialDirectionAscending(column: int)
    ensures ValidDirections(InitialDirections)
    ensures DirectionOf(InitialDirections, column) == 1
  {
  }

  /** Two flips of the same column restore its direction. */
  lemma ToggledTwice(m: map<int, int>, column: int)
    ensures DirectionOf(Toggled(Toggled(m, column), column), column) == DirectionOf(m, column)
  {
  }
}
