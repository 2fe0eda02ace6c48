/** searchProducts: the list the table shows for the text in the search box. */
module Search {
  import opened Text
  import opened Products

  /** The filter predicate for a trimmed, lower-cased query q: the query
      occurs in the lower-cased name, in the lower-cased rendered date or in
      the decimal text of the quantity. */
  predicate Matches(p: Item, q: string) {
    Contains(Lower(p.name), q) || Contains(Lower(RenderDate(p.date)), q) || Contains(DecimalString(p.quantity), q)
  }

  /** Array.prototype.filter: the elements of s that satisfy keep. */
  function Select<T>(s: seq<T>, keep: T -> bool): seq<T> {
    if s == [] then []
    else (if keep(s[0]) then [s[0]] else []) + Select(s[1..], keep)
  }

  /** products.filter with the search predicate. */
  function Filter(s: seq<Item>, q: string): seq<Item> {
    Select(s, p => Matches(p, q))
  }

  /** The query as searchProducts reads it from the search box. */
  function Query(text: string): string {
    Lower(Trim(text))
  }

  /** The list handed to renderTable: everything for an empty query, the
      matching products otherwise. */
  function SearchProducts(products: seq<Item>, text: string): seq<Item> {
    var q := Query(text);
    if q == [] then products else Filter(products, q)
  }

  /** A search box holding only white space shows every product, in order. */
  lemma BlankQueryShowsAll(products: seq<Item>, text: string)
    requires IsBlank(text)
    ensures SearchProducts(products, text) == products
  {
    TrimEmptyIffBlank(text);
  }

  /** A query with something in it filters. */
  lemma QueryShowsMatches(products: seq<Item>, text: string)
    requires !IsBlank(text)
    ensures SearchProducts(products, text) == Filter(products, Query(text))
  {
    TrimEmptyIffBlank(text);
  }

  ghost predicate Increasing(xs: seq<int>) {
    forall k, l :: 0 <= k < l < |xs| ==> xs[k] < xs[l]
  }

  /** idx lists, in increasing order, the positions in s of the elements
      Select(s, keep) keeps, and a position is listed exactly when its
      element satisfies keep. */
  ghost predicate KeptPositions<T>(s: seq<T>, keep: T -> bool, idx: seq<int>) {
    && |idx| == |Select(s, keep)|
    && (forall k :: 0 <= k < |idx| ==> 0 <= idx[k] < |s| && Select(s, keep)[k] == s[idx[k]])
    && Increasing(idx)
    && (forall i :: 0 <= i < |s| ==> (i in idx <==> keep(s[i])))
  }

  /** Every position moved one place to the right. */
  function Shift(xs: seq<int>): (ys: seq<int>)
    ensures |ys| == |xs| && forall k :: 0 <= k < |xs| ==> ys[k] == xs[k] + 1
  {
    if xs == [] then [] else [xs[0] + 1] + Shift(xs[1..])
  }

  lemma ShiftMembers(xs: seq<int>, i: int)
    ensures i in Shift(xs) <==> i - 1 in xs
  {
    var ys := Shift(xs);
    if i - 1 in xs {
      var k :| 0 <= k < |xs| && xs[k] == i - 1;
      assert ys[k] == i;
    }
    if i in ys {
      var k :| 0 <= k < |ys| && ys[k] == i;
      assert xs[k] == i - 1;
    }
  }

  lemma ShiftIncreasing(xs: seq<int>)
    requires Increasing(xs)
    ensures Increasing(Shift(xs))
  {
    var ys := Shift(xs);
    forall k, l | 0 <= k < l < |ys| ensures ys[k] < ys[l] {
      assert xs[k] < xs[l];
    }
  }

  lemma PrependZeroIncreasing(xs: seq<int>)
    requires Increasing(xs) && forall k :: 0 <= k < |xs| ==> xs[k] > 0
    ensures Increasing([0] + xs)
  {
    var ys := [0] + xs;
    forall k, l | 0 <= k < l < |ys| ensures ys[k] < ys[l] {
      assert ys[l] == xs[l - 1];
      if k > 0 {
        assert ys[k] == xs[k - 1];
      }
    }
  }

  /** Select keeps exactly the elements that satisfy keep, in their
      original order. */
  lemma {:induction false} SelectPositions<T>(s: seq<T>, keep: T -> bool) returns (idx: seq<int>)
    ensures KeptPositions(s, keep, idx)
  {
    if s == [] {
      idx := [];
    } else {
      var rest := SelectPositions(s[1..], keep);
      var shifted := Shift(rest);
      idx := (if keep(s[0]) then [0] else []) + shifted;
      StepElements(s, keep, rest, idx);
      ShiftIncreasing(rest);
      if keep(s[0]) {
        PrependZeroIncreasing(shifted);
      } else {
        assert idx == shifted;
      }
      StepMembers(s, keep, rest, idx);
    }
  }

  lemma StepElements<T>(s: seq<T>, keep: T -> bool, rest: seq<int>, idx: seq<int>)
    requires s != [] && |rest| == |Select(s[1..], keep)|
    requires forall k :: 0 <= k < |rest| ==> 0 <= rest[k] < |s| - 1 && Select(s[1..], keep)[k] == s[1..][rest[k]]
    requires idx == (if keep(s[0]) then [0] else []) + Shift(rest)
    ensures |idx| == |Select(s, keep)|
    ensures forall k :: 0 <= k < |idx| ==> 0 <= idx[k] < |s| && Select(s, keep)[k] == s[idx[k]]
  {
    var h := if keep(s[0]) then 1 else 0;
    var shifted := Shift(rest);
    var tail := Select(s[1..], keep);
    var r := Select(s, keep);
    assert r == (if keep(s[0]) then [s[0]] else []) + tail;
    assert |r| == h + |tail| && |idx| == h + |rest|;
    forall k | h <= k < |idx| ensures 0 <= idx[k] < |s| && r[k] == s[idx[k]] {
      assert idx[k] == shifted[k - h];
      assert r[k] == tail[k - h];
    }
  }

  lemma StepMembers<T>(s: seq<T>, keep: T -> bool, rest: seq<int>, idx: seq<int>)
    requires s != [] && forall i :: 0 <= i < |s| - 1 ==> (i in rest <==> keep(s[1..][i]))
    requires forall k :: 0 <= k < |rest| ==> rest[k] >= 0
    requires idx == (if keep(s[0]) then [0] else []) + Shift(rest)
    ensures forall i :: 0 <= i < |s| ==> (i in idx <==> keep(s[i]))
  {
    var head := if keep(s[0]) then [0] else [];
    forall i | 0 <= i < |s| ensures i in idx <==> keep(s[i]) {
      ShiftMembers(rest, i);
      if i == 0 {
        assert -1 !in rest;
      } else {
        assert s[i] == s[1..][i - 1];
        assert i !in head;
      }
    }
  }

  /** The search filter keeps exactly the matching products, in their
      original order (see SelectPositions). */
  lemma FilterSelects(s: seq<Item>, q: string) returns (idx: seq<int>)
    ensures |idx| == |Filter(s, q)|
    ensures forall k :: 0 <= k < |idx| ==> 0 <= idx[k] < |s| && Filter(s, q)[k] == s[idx[k]]
    ensures forall k, l :: 0 <= k < l < |idx| ==> idx[k] < idx[l]
    ensures forall i :: 0 <= i < |s| ==> (i in idx <==> Matches(s[i], q))
  {
    idx := SelectPositions(s, p => Matches(p, q));
    ghost var keep := p => Matches(p, q);
    assert KeptPositions(s, keep, idx);
  }

  /** Only products are shown, and for a non-empty query only matching
      ones. */
  lemma ShownAreProducts(products: seq<Item>, text: string)
    ensures forall x :: x in SearchProducts(products, text) ==>
      x in products && (Query(text) != [] ==> Matches(x, Query(text)))
  {
    var q := Query(text);
    if q != [] {
      var idx := FilterSelects(products, q);
      forall x | x in Filter(products, q) ensures x in products && Matches(x, q) {
        var k :| 0 <= k < |Filter(products, q)| && Filter(products, q)[k] == x;
        assert idx[k] in idx;
      }
    }
  }

  /** Case does not matter: a product whose lower-cased name contains the
      lower-cased, trimmed search text is shown, so "rice" finds "Rice". */
  lemma NameMatchIsShown(products: seq<Item>, text: string, p: Item)
    requires p in products
    requires Contains(Lower(p.name), Query(text))
    ensures p in SearchProducts(products, text)
  {
    if Query(text) != [] {
      var idx := FilterSelects(products, Query(text));
      var i :| 0 <= i < |products| && products[i] == p;
      var k :| 0 <= k < |idx| && idx[k] == i;
      assert Filter(products, Query(text))[k] == p;
    }
  }

  /** In particular a product whose name contains the search text as typed
      (after trimming) is shown. */
  lemma TypedNameIsShown(products: seq<Item>, text: string, p: Item)
    requires p in products
    requires Contains(p.name, Trim(text))
    ensures p in SearchProducts(products, text)
  {
    ContainsLower(p.name, Trim(text));
    NameMatchIsShown(products, text, p);
  }

  /** Typing a product's date as the table shows it finds that product. */
  lemma DateIsShown(products: seq<Item>, p: Item)
    requires p in products && IsIsoDate(p.date)
    ensures p in SearchProducts(products, RenderDate(p.date))
  {
    var t := RenderDate(p.date);
    RenderedDateIsQuery(p.date);
    assert Contains(Lower(t), t) by {
      LowerRenderDate(p.date);
      assert t <= t;
    }
    var idx := FilterSelects(products, t);
    var i :| 0 <= i < |products| && products[i] == p;
    var k :| 0 <= k < |idx| && idx[k] == i;
    assert Filter(products, t)[k] == p;
  }

  /** A shown ISO date is its own query: it starts and ends with a digit
      and holds no upper-case letter. */
  lemma RenderedDateIsQuery(d: string)
    requires IsIsoDate(d)
    ensures Query(RenderDate(d)) == RenderDate(d)
  {
    var t := RenderDate(d);
    assert t[0] == d[8] && t[9] == d[3];
    assert TrimStart(t) == t;
    assert TrimEnd(t) == t;
    LowerRenderDate(d);
  }

  /** Filtering by the empty query would keep every product: the early
      return for an empty query shows the same list as filtering. */
  lemma FilterEmptyQuery(products: seq<Item>)
    ensures Filter(products, []) == products
  {
    forall i | 0 <= i < |products| ensures Matches(products[i], []) {
      ContainsEmpty(Lower(products[i].name));
    }
    SelectAll(products, p => Matches(p, []));
  }

  /** A filter whose predicate holds everywhere keeps the whole sequence. */
  lemma {:induction false} SelectAll<T>(s: seq<T>, keep: T -> bool)
    requires forall i :: 0 <= i < |s| ==> keep(s[i])
    ensures Select(s, keep) == s
  {
    if s != [] {
      SelectAll(s[1..], keep);
      assert s == [s[0]] + s[1..];
    }
  }

  /** Typing a product's quantity finds that product. */
  lemma QuantityIsShown(products: seq<Item>, p: Item)
    requires p in products
    ensures p in SearchProducts(products, DecimalString(p.quantity))
  {
    var t := DecimalString(p.quantity);
    QuantityTextIsQuery(p.quantity);
    assert Contains(t, t) by { assert t <= t; }
    var idx := FilterSelects(products, t);
    var i :| 0 <= i < |products| && products[i] == p;
    var k :| 0 <= k < |idx| && idx[k] == i;
    assert Filter(products, t)[k] == p;
  }

  /** The decimal text of a number is its own query: it has no surrounding
      white space and no upper-case letter. */
  lemma QuantityTextIsQuery(n: int)
    ensures Query(DecimalString(n)) == DecimalString(n)
  {
    var t := DecimalString(n);
    assert !IsWhitespace(t[0]) && !IsWhitespace(t[|t| - 1]) by {
      if n < 0 {
        assert t[1..] == NaturalString(-n);
        assert IsDigit(t[|t| - 1]) by { assert t[|t| - 1] == t[1..][|t| - 2]; }
      }
    }
    assert TrimStart(t) == t;
    assert TrimEnd(t) == t;
    forall k | 0 <= k < |t| ensures LowerChar(t[k]) == t[k] {
      if n < 0 && k > 0 {
        assert t[k] == t[1..][k - 1];
      }
    }
  }
}
