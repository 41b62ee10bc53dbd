/**
 Choosing the catalogue items for the codes the user asked for: keep the items
 whose code was requested (and, on request, that are active), then sort them by
 order number, keeping items with equal numbers in their catalogue order.
 */
module Selection {
  import opened Model
  import opened Text

  /** The requested codes, stripped and lowered, blank ones dropped. */
  function Wanted(selected: seq<string>): (r: set<string>)
    ensures forall k :: k in selected && Strip(k) != [] ==> Lower(Strip(k)) in r
    ensures forall w :: w in r ==> w != [] && Strip(w) == w && Lower(w) == w
    ensures forall w :: w in r ==> exists k :: k in selected && Strip(k) != [] && Lower(Strip(k)) == w
  {
    NormalForms();
    set k | k in selected && Strip(k) != [] :: Lower(Strip(k))
  }

  /** A code that is not blank, stripped and lowered, is non-empty and
      unchanged by stripping and lowering again. */
  lemma NormalForms()
    ensures forall k :: Strip(k) != [] ==> var w := Lower(Strip(k)); w != [] && Strip(w) == w && Lower(w) == w
  {
    forall k | Strip(k) != []
      ensures var w := Lower(Strip(k)); w != [] && Strip(w) == w && Lower(w) == w
    {
      StripLower(Strip(k));
      StripIdempotent(k);
      LowerIdempotent(Strip(k));
    }
  }

  /** The filter condition applied to each catalogue item. */
  predicate Keep(it: Item, wanted: set<string>, useActive: bool) {
    it.kuerzel in wanted && (!useActive || it.active)
  }

  /** The items that pass the filter, in catalogue order. Each item that passes
      is kept as often as it occurs; no other item is. */
  function Filter(items: seq<Item>, wanted: set<string>, useActive: bool): (r: seq<Item>)
    ensures forall x :: multiset(r)[x] == if Keep(x, wanted, useActive) then multiset(items)[x] else 0
  {
    if items == [] then
      []
    else
      var rest := Filter(items[1..], wanted, useActive);
      assert items == [items[0]] + items[1..];
      if Keep(items[0], wanted, useActive) then [items[0]] + rest else rest
  }

  predicate SortedByNummer(xs: seq<Item>) {
    forall i, j :: 0 <= i < j < |xs| ==> xs[i].nummer <= xs[j].nummer
  }

  /** The items with order number `n`, in the order they occur. */
  function WithNummer(xs: seq<Item>, n: int): seq<Item> {
    if xs == [] then []
    else (if xs[0].nummer == n then [xs[0]] else []) + WithNummer(xs[1..], n)
  }

  /** Puts `x` before the first element whose number is not smaller, that is,
      before every element with the same number. */
  function Insert(x: Item, s: seq<Item>): (r: seq<Item>)
    ensures multiset(r) == multiset(s) + multiset{x}
  {
    if s == [] || x.nummer <= s[0].nummer then
      [x] + s
    else
      assert s == [s[0]] + s[1..];
      [s[0]] + Insert(x, s[1..])
  }

  /** Inserting into a sorted sequence keeps it sorted. */
  lemma {:induction false} InsertSorted(x: Item, s: seq<Item>)
    requires SortedByNummer(s)
    ensures SortedByNummer(Insert(x, s))
  {
    if s != [] && s[0].nummer < x.nummer {
      InsertSorted(x, s[1..]);
      InsertAbove(x, s[1..], s[0].nummer);
      ConsSorted(s[0], Insert(x, s[1..]));
    }
  }

  /** Inserting an item no lower than `lo` into items no lower than `lo`
      gives items no lower than `lo`. */
  lemma InsertAbove(x: Item, s: seq<Item>, lo: int)
    requires lo <= x.nummer && forall k :: 0 <= k < |s| ==> lo <= s[k].nummer
    ensures forall k :: 0 <= k < |Insert(x, s)| ==> lo <= Insert(x, s)[k].nummer
  {
    var t := Insert(x, s);
    forall j | 0 <= j < |t|
      ensures lo <= t[j].nummer
    {
      assert t[j] in multiset(t);
      assert t[j] == x || t[j] in s;
    }
  }

  lemma ConsSorted(y: Item, t: seq<Item>)
    requires SortedByNummer(t) && forall k :: 0 <= k < |t| ==> y.nummer <= t[k].nummer
    ensures SortedByNummer([y] + t)
  {
    var r := [y] + t;
    forall i, j | 0 <= i < j < |r|
      ensures r[i].nummer <= r[j].nummer
    {
      assert r[j] == t[j - 1];
      if i > 0 {
        assert r[i] == t[i - 1];
      }
    }
  }

  /** Inserting `x` puts it in front of the items with its number and leaves
      the items of every other number as they were. */
  lemma {:induction false} InsertWithNummer(x: Item, s: seq<Item>, n: int)
    ensures WithNummer(Insert(x, s), n) == if x.nummer == n then [x] + WithNummer(s, n) else WithNummer(s, n)
  {
    if s == [] || x.nummer <= s[0].nummer {
      assert ([x] + s)[1..] == s;
    } else {
      var t := Insert(x, s[1..]);
      InsertWithNummer(x, s[1..], n);
      assert ([s[0]] + t)[1..] == t;
    }
  }

  /** Python's `sorted(xs, key=lambda it: it.nummer)`, a stable sort. The
      result is ordered by number, has the same elements, and keeps the items
      of each number in their input order. */
  function SortByNummer(xs: seq<Item>): (r: seq<Item>)
    ensures SortedByNummer(r)
    ensures multiset(r) == multiset(xs)
    ensures forall n :: WithNummer(r, n) == WithNummer(xs, n)
  {
    if xs == [] then
      []
    else
      var rest := SortByNummer(xs[1..]);
      assert xs == [xs[0]] + xs[1..];
      InsertSorted(xs[0], rest);
      assert forall n :: WithNummer(Insert(xs[0], rest), n) == WithNummer(xs, n) by {
        forall n
          ensures WithNummer(Insert(xs[0], rest), n) == WithNummer(xs, n)
        {
          InsertWithNummer(xs[0], rest, n);
        }
      }
      Insert(xs[0], rest)
  }

  /** `select_items_for_kuerzel` on the catalogue `items` as read: the items
      whose code is requested (and that are active when `useActive` is on),
      each as often as in the catalogue, ordered by number, with the items of
      one number in catalogue order. */
  function SelectItemsForKuerzel(selected: seq<string>, items: seq<Item>, useActive: bool): (r: seq<Item>)
    ensures SortedByNummer(r)
    ensures forall x :: multiset(r)[x] == if Keep(x, Wanted(selected), useActive) then multiset(items)[x] else 0
    ensures forall n :: WithNummer(r, n) == WithNummer(Filter(items, Wanted(selected), useActive), n)
  {
    SortByNummer(Filter(items, Wanted(selected), useActive))
  }

  // ---------------------------------------------------------------------
  // Lemmas

  /** The filter works item by item: the kept items of a concatenation are
      the kept items of its first part followed by those of its second. */
  lemma {:induction false} FilterConcat(a: seq<Item>, b: seq<Item>, wanted: set<string>, useActive: bool)
    ensures Filter(a + b, wanted, useActive) == Filter(a, wanted, useActive) + Filter(b, wanted, useActive)
  {
    if a != [] {
      FilterConcat(a[1..], b, wanted, useActive);
      FilterConcatStep(a, b, wanted, useActive);
    } else {
      EmptyConcat(a, b);
    }
  }

  lemma FilterConcatStep(a: seq<Item>, b: seq<Item>, wanted: set<string>, useActive: bool)
    requires a != []
    requires Filter(a[1..] + b, wanted, useActive) == Filter(a[1..], wanted, useActive) + Filter(b, wanted, useActive)
    ensures Filter(a + b, wanted, useActive) == Filter(a, wanted, useActive) + Filter(b, wanted, useActive)
  {
    var x := a[0];
    var head := if Keep(x, wanted, useActive) then [x] else [];
    ConsConcat(a, b);
    calc {
      Filter(a + b, wanted, useActive);
      Filter([x] + (a[1..] + b), wanted, useActive);
      { FilterCons(x, a[1..] + b, wanted, useActive); }
      head + Filter(a[1..] + b, wanted, useActive);
      head + (Filter(a[1..], wanted, useActive) + Filter(b, wanted, useActive));
      { AppendAssoc(head, Filter(a[1..], wanted, useActive), Filter(b, wanted, useActive)); }
      head + Filter(a[1..], wanted, useActive) + Filter(b, wanted, useActive);
      { FilterCons(x, a[1..], wanted, useActive); }
      Filter(a, wanted, useActive) + Filter(b, wanted, useActive);
    }
  }

  /** Within each number the selection keeps catalogue order: its items
      with number `n` are the catalogue's items with number `n` that pass the
      filter, in the order the catalogue lists them. */
  lemma SelectionKeepsCatalogueOrder(selected: seq<string>, items: seq<Item>, useActive: bool, n: int)
    ensures WithNummer(SelectItemsForKuerzel(selected, items, useActive), n)
         == Filter(WithNummer(items, n), Wanted(selected), useActive)
  {
    FilterWithNummer(items, Wanted(selected), useActive, n);
  }

  /** Filtering and picking one number commute. */
  lemma {:induction false} FilterWithNummer(items: seq<Item>, wanted: set<string>, useActive: bool, n: int)
    ensures WithNummer(Filter(items, wanted, useActive), n) == Filter(WithNummer(items, n), wanted, useActive)
  {
    if items != [] {
      FilterWithNummer(items[1..], wanted, useActive, n);
      FilterWithNummerStep(items, wanted, useActive, n);
    }
  }

  lemma FilterWithNummerStep(items: seq<Item>, wanted: set<string>, useActive: bool, n: int)
    requires items != []
    requires WithNummer(Filter(items[1..], wanted, useActive), n) == Filter(WithNummer(items[1..], n), wanted, useActive)
    ensures WithNummer(Filter(items, wanted, useActive), n) == Filter(WithNummer(items, n), wanted, useActive)
  {
    var x, rest := items[0], items[1..];
    var same := if x.nummer == n then [x] else [];
    FilterConcat(same, WithNummer(rest, n), wanted, useActive);
    if Keep(x, wanted, useActive) {
      WithNummerCons(x, Filter(rest, wanted, useActive), n);
      if same != [] {
        FilterOne(x, wanted, useActive);
      }
    } else {
      if same != [] {
        FilterOne(x, wanted, useActive);
      }
      EmptyConcat(Filter(same, wanted, useActive), Filter(WithNummer(rest, n), wanted, useActive));
    }
  }

  lemma WithNummerCons(x: Item, s: seq<Item>, n: int)
    ensures WithNummer([x] + s, n) == (if x.nummer == n then [x] else []) + WithNummer(s, n)
  {
    assert ([x] + s)[1..] == s;
  }

  lemma FilterCons(x: Item, s: seq<Item>, wanted: set<string>, useActive: bool)
    ensures Filter([x] + s, wanted, useActive) == (if Keep(x, wanted, useActive) then [x] else []) + Filter(s, wanted, useActive)
  {
    assert ([x] + s)[1..] == s;
  }

  /** A single item is kept exactly when it passes the filter. */
  lemma FilterOne(x: Item, wanted: set<string>, useActive: bool)
    ensures Filter([x], wanted, useActive) == if Keep(x, wanted, useActive) then [x] else []
  {
    FilterCons(x, [], wanted, useActive);
    assert [x] + [] == [x];
  }

  /** A requested code is matched whatever its case and surrounding whitespace. */
  lemma WantedNormalises(selected: seq<string>, k: string)
    requires k in selected && Strip(k) != []
    ensures Lower(Strip(k)) in Wanted(selected)
    ensures Wanted(selected) == Wanted(selected + [Lower(Strip(k))])
  {
    var w := Lower(Strip(k));
    StripLower(Strip(k));
    StripIdempotent(k);
    LowerIdempotent(Strip(k));
    assert Strip(w) == w;
    assert Strip(w) != [] by {
      assert |Lower(Strip(k))| == |Strip(k)|;
    }
    assert Lower(Strip(w)) == w;
  }

  lemma {:induction false} WithNummerNone(xs: seq<Item>, n: int)
    requires forall i :: 0 <= i < |xs| ==> xs[i].nummer != n
    ensures WithNummer(xs, n) == []
  {
    if xs != [] {
      WithNummerNone(xs[1..], n);
    }
  }

  lemma {:induction false} WithNummerHasMember(xs: seq<Item>, i: nat)
    requires i < |xs|
    ensures WithNummer(xs, xs[i].nummer) != []
  {
    if i > 0 && xs[0].nummer != xs[i].nummer {
      WithNummerHasMember(xs[1..], i - 1);
    }
  }

  /** Being sorted by number and keeping each number's items in a given order
      fixes the sequence: the stable sort's contract has one solution. */
  lemma {:induction false} StableOrderUnique(r1: seq<Item>, r2: seq<Item>)
    requires SortedByNummer(r1) && SortedByNummer(r2)
    requires forall n :: WithNummer(r1, n) == WithNummer(r2, n)
    ensures r1 == r2
  {
    if r1 != [] {
      WithNummerHasMember(r1, 0);
    }
    if r2 != [] {
      WithNummerHasMember(r2, 0);
    }
    if r1 != [] && r2 != [] {
      var m1, m2 := r1[0].nummer, r2[0].nummer;
      if m1 < m2 {
        WithNummerNone(r2, m1);
      } else if m2 < m1 {
        WithNummerNone(r1, m2);
      }
      assert m1 == m2;
      var w1, w2 := WithNummer(r1, m1), WithNummer(r2, m1);
      assert w1 == [r1[0]] + WithNummer(r1[1..], m1);
      assert w2 == [r2[0]] + WithNummer(r2[1..], m1);
      assert r1[0] == w1[0] == w2[0] == r2[0];
      forall n ensures WithNummer(r1[1..], n) == WithNummer(r2[1..], n) {
        if n == m1 {
          assert w1[1..] == WithNummer(r1[1..], n);
          assert w2[1..] == WithNummer(r2[1..], n);
        } else {
          assert WithNummer(r1, n) == WithNummer(r1[1..], n);
          assert WithNummer(r2, n) == WithNummer(r2[1..], n);
        }
      }
      StableOrderUnique(r1[1..], r2[1..]);
      assert r1 == [r1[0]] + r1[1..];
      assert r2 == [r2[0]] + r2[1..];
    }
  }

  /** The selection is the only sequence that is sorted by number and lists
      each number's selected items in catalogue order. */
  lemma SelectionIsDetermined(selected: seq<string>, items: seq<Item>, useActive: bool, r: seq<Item>)
    requires SortedByNummer(r)
    requires forall n :: WithNummer(r, n) == WithNummer(Filter(items, Wanted(selected), useActive), n)
    ensures r == SelectItemsForKuerzel(selected, items, useActive)
  {
    StableOrderUnique(r, SelectItemsForKuerzel(selected, items, useActive));
  }

  /** An item is selected exactly when it is in the catalogue and passes the filter. */
  lemma SelectionMembers(selected: seq<string>, items: seq<Item>, useActive: bool, x: Item)
    ensures x in SelectItemsForKuerzel(selected, items, useActive) <==> x in items && Keep(x, Wanted(selected), useActive)
  {
    var r := SelectItemsForKuerzel(selected, items, useActive);
    assert x in r <==> multiset(r)[x] > 0;
    assert x in items <==> multiset(items)[x] > 0;
  }
}
