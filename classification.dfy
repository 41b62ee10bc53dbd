/**
 The classification engine, `replace_pathological`: every item becomes one entry
 (or, when bilateral, a left and a right entry), put either in the normal list
 with the item's own text or in the pathological list with the text the user
 typed. The prompts are replaced by an answer provider and the affected order
 numbers are a parameter.
 */
module Classification {
  import opened Model
  import opened Text
  import opened Selection

  /** The raw reply typed at the prompt for a side of the item at a given
      position of the run; the single question of an item that is not
      bilateral is asked with `NoSide`. */
  type Answer = (nat, Side) -> string

  datatype Target = Normal | Pathological

  /** Where one entry went: its list, the position of its item in the input,
      and the entry itself. */
  datatype Placement = Placement(target: Target, origin: nat, entry: Entry)

  /** The number of entries an item gives. */
  function Width(it: Item): nat {
    if it.bilateral then 2 else 1
  }

  /** The sides an item gives entries for, in the order they are produced. */
  function Sides(it: Item): seq<Side> {
    if it.bilateral then [Links, Rechts] else [NoSide]
  }

  /** One question: a non-blank reply is a pathological finding with that
      text; a blank one leaves the side normal with the item's text. */
  function Ask(it: Item, side: Side, origin: nat, answer: Answer): (p: Placement)
    ensures p.origin == origin && p.entry.side == side
    ensures p.target == Normal <==> AllSpace(answer(origin, side))
    ensures p.entry.text == if p.target == Normal then it.text else Strip(answer(origin, side))
  {
    var reply := Strip(answer(origin, side));
    StripEmpty(answer(origin, side));
    if reply != [] then
      Placement(Pathological, origin, Entry(side, reply))
    else
      Placement(Normal, origin, Entry(side, it.text))
  }

  /** What one item at position `origin` contributes: one placement per
      side, the sides in order. */
  function ItemPlacements(it: Item, origin: nat, affected: set<int>, answer: Answer): (ps: seq<Placement>)
    ensures |ps| == Width(it) == |Sides(it)|
    ensures forall k :: 0 <= k < |ps| ==> ps[k].origin == origin && ps[k].entry.side == Sides(it)[k]
  {
    if it.nummer in affected && it.bilateral then
      [Ask(it, Links, origin, answer), Ask(it, Rechts, origin, answer)]
    else if it.nummer in affected then
      [Ask(it, NoSide, origin, answer)]
    else if it.bilateral then
      [Placement(Normal, origin, Entry(Links, it.text)), Placement(Normal, origin, Entry(Rechts, it.text))]
    else
      [Placement(Normal, origin, Entry(NoSide, it.text))]
  }

  /** The trace of a whole run: the items' placements, item after item. */
  function Placements(items: seq<Item>, affected: set<int>, answer: Answer): (ps: seq<Placement>)
    ensures |ps| == TotalWidth(items)
  {
    if items == [] then
      []
    else
      var n := |items| - 1;
      Placements(items[..n], affected, answer) + ItemPlacements(items[n], n, affected, answer)
  }

  /** The placements that went to list `b`, in trace order. */
  function PlacedIn(ps: seq<Placement>, b: Target): seq<Placement> {
    if ps == [] then
      []
    else
      var n := |ps| - 1;
      PlacedIn(ps[..n], b) + (if ps[n].target == b then [ps[n]] else [])
  }

  /** The placements that come from the item at position `i`. */
  function FromItem(ps: seq<Placement>, i: nat): seq<Placement> {
    if ps == [] then
      []
    else
      var n := |ps| - 1;
      FromItem(ps[..n], i) + (if ps[n].origin == i then [ps[n]] else [])
  }

  /** The entries of the placements that went to list `b`, in trace order. */
  function ListOf(ps: seq<Placement>, b: Target): seq<Entry> {
    if ps == [] then
      []
    else
      var n := |ps| - 1;
      ListOf(ps[..n], b) + (if ps[n].target == b then [ps[n].entry] else [])
  }

  function TotalWidth(items: seq<Item>): nat {
    if items == [] then 0 else TotalWidth(items[..|items| - 1]) + Width(items[|items| - 1])
  }

  function Nummern(items: seq<Item>): set<int> {
    set it | it in items :: it.nummer
  }

  /** Entry `p` may come before entry `q` in a list: from an earlier item, or
      the left and then the right entry of one bilateral item. */
  predicate Before(p: Placement, q: Placement) {
    || p.origin < q.origin
    || (p.origin == q.origin && p.entry.side == Links && q.entry.side == Rechts)
  }

  predicate Ordered(ps: seq<Placement>) {
    forall i, j :: 0 <= i < j < |ps| ==> Before(ps[i], ps[j])
  }

  /** `replace_pathological`: walks the items in order and appends each
      entry to the normal or the pathological list. The two lists are the
      entries of the run's trace that went to each. */
  method ReplacePathological(items: seq<Item>, affected: set<int>, answer: Answer)
    returns (normal: seq<Entry>, pathological: seq<Entry>)
    ensures normal == ListOf(Placements(items, affected, answer), Normal)
    ensures pathological == ListOf(Placements(items, affected, answer), Pathological)
  {
    normal, pathological := [], [];
    for i := 0 to |items|
      invariant normal == ListOf(Placements(items[..i], affected, answer), Normal)
      invariant pathological == ListOf(Placements(items[..i], affected, answer), Pathological)
    {
      NextItem(items, i, affected, answer, Normal);
      NextItem(items, i, affected, answer, Pathological);
      normal, pathological := PlaceItem(normal, pathological, items[i], i, affected, answer);
    }
    assert items[..|items|] == items;
  }

  /** One pass of the loop in `replace_pathological`: the item's entries are
      appended to the list their placement names, side after side. */
  method PlaceItem(normal: seq<Entry>, pathological: seq<Entry>, item: Item, origin: nat,
                   affected: set<int>, answer: Answer)
    returns (normal': seq<Entry>, pathological': seq<Entry>)
    ensures normal' == normal + ListOf(ItemPlacements(item, origin, affected, answer), Normal)
    ensures pathological' == pathological + ListOf(ItemPlacements(item, origin, affected, answer), Pathological)
  {
    ItemLists(item, origin, affected, answer);
    var isChosen := item.nummer in affected;
    if isChosen && item.bilateral {
      var left := Strip(answer(origin, Links));
      var right := Strip(answer(origin, Rechts));
      normal', pathological' := AppendAnswer(normal, pathological, Links, left, item.text);
      normal', pathological' := AppendAnswer(normal', pathological', Rechts, right, item.text);
      AppendAssoc(normal, if left == [] then [Entry(Links, item.text)] else [], if right == [] then [Entry(Rechts, item.text)] else []);
      AppendAssoc(pathological, if left != [] then [Entry(Links, left)] else [], if right != [] then [Entry(Rechts, right)] else []);
    } else if isChosen {
      var newText := Strip(answer(origin, NoSide));
      normal', pathological' := AppendAnswer(normal, pathological, NoSide, newText, item.text);
    } else if item.bilateral {
      normal', pathological' := normal + [Entry(Links, item.text)] + [Entry(Rechts, item.text)], pathological;
      AppendAssoc(normal, [Entry(Links, item.text)], [Entry(Rechts, item.text)]);
    } else {
      normal', pathological' := normal + [Entry(NoSide, item.text)], pathological;
    }
  }

  /** `(pathological if reply else normal).append(Entry(side, reply or text))`:
      a non-blank reply goes to the pathological list, otherwise the default
      text goes to the normal list. */
  method AppendAnswer(normal: seq<Entry>, pathological: seq<Entry>, side: Side, reply: string, text: string)
    returns (normal': seq<Entry>, pathological': seq<Entry>)
    ensures reply != [] ==> normal' == normal && pathological' == pathological + [Entry(side, reply)]
    ensures reply == [] ==> normal' == normal + [Entry(side, text)] && pathological' == pathological
  {
    if reply != [] {
      normal', pathological' := normal, pathological + [Entry(side, reply)];
    } else {
      normal', pathological' := normal + [Entry(side, text)], pathological;
    }
  }

  /** List `b` of a run grows by the entries the item at position `i` sends there. */
  lemma NextItem(items: seq<Item>, i: nat, affected: set<int>, answer: Answer, b: Target)
    requires i < |items|
    ensures ListOf(Placements(items[..i + 1], affected, answer), b)
         == ListOf(Placements(items[..i], affected, answer), b)
            + ListOf(ItemPlacements(items[i], i, affected, answer), b)
  {
    assert items[..i + 1][..i] == items[..i];
    ListOfConcat(Placements(items[..i], affected, answer), ItemPlacements(items[i], i, affected, answer), b);
  }

  /** The entries one item sends to each list, case by case. */
  lemma ItemLists(it: Item, origin: nat, affected: set<int>, answer: Answer)
    ensures var n := ListOf(ItemPlacements(it, origin, affected, answer), Normal);
      var p := ListOf(ItemPlacements(it, origin, affected, answer), Pathological);
      && (it.nummer in affected && it.bilateral ==>
            var l := Strip(answer(origin, Links));
            var r := Strip(answer(origin, Rechts));
            && n == (if l == [] then [Entry(Links, it.text)] else []) + (if r == [] then [Entry(Rechts, it.text)] else [])
            && p == (if l != [] then [Entry(Links, l)] else []) + (if r != [] then [Entry(Rechts, r)] else []))
      && (it.nummer in affected && !it.bilateral ==>
            var t := Strip(answer(origin, NoSide));
            && n == (if t == [] then [Entry(NoSide, it.text)] else [])
            && p == (if t != [] then [Entry(NoSide, t)] else []))
      && (it.nummer !in affected && it.bilateral ==>
            n == [Entry(Links, it.text), Entry(Rechts, it.text)] && p == [])
      && (it.nummer !in affected && !it.bilateral ==>
            n == [Entry(NoSide, it.text)] && p == [])
  {
    var ip := ItemPlacements(it, origin, affected, answer);
    ListOfShort(ip, Normal);
    ListOfShort(ip, Pathological);
  }

  lemma ListOfShort(qs: seq<Placement>, b: Target)
    requires 1 <= |qs| <= 2
    ensures ListOf(qs, b) ==
      (if qs[0].target == b then [qs[0].entry] else [])
      + (if |qs| == 2 && qs[1].target == b then [qs[1].entry] else [])
  {
    assert qs[..0] == [];
    if |qs| == 2 {
      assert qs[..1][..0] == [];
    }
  }

  /** The list of a concatenated trace is the concatenation of the lists. */
  lemma {:induction false} ListOfConcat(ps: seq<Placement>, qs: seq<Placement>, b: Target)
    ensures ListOf(ps + qs, b) == ListOf(ps, b) + ListOf(qs, b)
  {
    if qs == [] {
      assert ps + qs == ps;
    } else {
      var n := |qs| - 1;
      assert (ps + qs)[..|ps + qs| - 1] == ps + qs[..n];
      ListOfConcat(ps, qs[..n], b);
    }
  }

  // ---------------------------------------------------------------------
  // Lemmas

  /** The rules for one item: an item that is not affected is normal with its
      own text on every side; for an affected one each side is decided by its
      own stripped reply, pathological with that reply when it is not blank and
      normal with the item's text when it is. */
  lemma ItemRules(it: Item, origin: nat, affected: set<int>, answer: Answer)
    ensures var ps := ItemPlacements(it, origin, affected, answer);
      && (it.nummer !in affected ==>
            forall k :: 0 <= k < |ps| ==> ps[k].target == Normal && ps[k].entry.text == it.text)
      && (it.nummer in affected ==>
            forall k :: 0 <= k < |ps| ==>
              if Strip(answer(origin, Sides(it)[k])) != [] then
                ps[k].target == Pathological && ps[k].entry.text == Strip(answer(origin, Sides(it)[k]))
              else
                ps[k].target == Normal && ps[k].entry.text == it.text)
  {
  }

  /** List `b` holds the entries of the placements that went to `b`, one for one. */
  lemma {:induction false} ListOfPlacedIn(ps: seq<Placement>, b: Target)
    ensures |ListOf(ps, b)| == |PlacedIn(ps, b)|
    ensures forall k :: 0 <= k < |ListOf(ps, b)| ==> ListOf(ps, b)[k] == PlacedIn(ps, b)[k].entry
  {
    if ps != [] {
      ListOfPlacedIn(ps[..|ps| - 1], b);
    }
  }

  lemma {:induction false} PlacedInMembers(ps: seq<Placement>, b: Target)
    ensures forall q :: q in PlacedIn(ps, b) ==> q in ps && q.target == b
  {
    if ps != [] {
      PlacedInMembers(ps[..|ps| - 1], b);
    }
  }

  lemma {:induction false} FromItemAppend(ps: seq<Placement>, qs: seq<Placement>, i: nat)
    ensures FromItem(ps + qs, i) == FromItem(ps, i) + FromItem(qs, i)
  {
    if qs == [] {
      assert ps + qs == ps;
    } else {
      var n := |qs| - 1;
      assert (ps + qs)[..|ps + qs| - 1] == ps + qs[..n];
      FromItemAppend(ps, qs[..n], i);
    }
  }

  lemma {:induction false} FromItemAll(ps: seq<Placement>, i: nat)
    requires forall k :: 0 <= k < |ps| ==> ps[k].origin == i
    ensures FromItem(ps, i) == ps
  {
    if ps != [] {
      FromItemAll(ps[..|ps| - 1], i);
    }
  }

  lemma {:induction false} FromItemNone(ps: seq<Placement>, i: nat)
    requires forall k :: 0 <= k < |ps| ==> ps[k].origin != i
    ensures FromItem(ps, i) == []
  {
    if ps != [] {
      FromItemNone(ps[..|ps| - 1], i);
    }
  }

  /** Every placement of a run comes from one of the items. */
  lemma {:induction false} PlacementsOrigins(items: seq<Item>, affected: set<int>, answer: Answer)
    ensures forall k :: 0 <= k < |Placements(items, affected, answer)| ==>
      Placements(items, affected, answer)[k].origin < |items|
  {
    if items != [] {
      PlacementsOrigins(items[..|items| - 1], affected, answer);
    }
  }

  /** The entries that come from item `i` are exactly what the rules for that
      item give: nothing is lost, added or taken from another item. */
  lemma {:induction false} PlacementsPerItem(items: seq<Item>, affected: set<int>, answer: Answer, i: nat)
    requires i < |items|
    ensures FromItem(Placements(items, affected, answer), i) == ItemPlacements(items[i], i, affected, answer)
  {
    var n := |items| - 1;
    var init := Placements(items[..n], affected, answer);
    var last := ItemPlacements(items[n], n, affected, answer);
    FromItemAppend(init, last, i);
    if i < n {
      PlacementsPerItem(items[..n], affected, answer, i);
      FromItemNone(last, i);
    } else {
      PlacementsOrigins(items[..n], affected, answer);
      FromItemNone(init, i);
      FromItemAll(last, i);
    }
  }

  /** The trace is in item order, and within a bilateral item left comes
      before right. */
  lemma {:induction false} PlacementsOrdered(items: seq<Item>, affected: set<int>, answer: Answer)
    ensures Ordered(Placements(items, affected, answer))
  {
    if items != [] {
      var n := |items| - 1;
      var init := Placements(items[..n], affected, answer);
      var last := ItemPlacements(items[n], n, affected, answer);
      PlacementsOrdered(items[..n], affected, answer);
      PlacementsOrigins(items[..n], affected, answer);
      var ps := init + last;
      forall i, j | 0 <= i < j < |ps| ensures Before(ps[i], ps[j]) {
        if j < |init| {
          assert Before(init[i], init[j]);
        } else if i < |init| {
          assert ps[i].origin < n;
        } else {
          assert i - |init| == 0 && j - |init| == 1;
        }
      }
    }
  }

  /** Each list keeps the order of the trace. */
  lemma {:induction false} PlacedInOrdered(ps: seq<Placement>, b: Target)
    requires Ordered(ps)
    ensures Ordered(PlacedIn(ps, b))
  {
    if ps != [] {
      var n := |ps| - 1;
      PlacedInOrdered(ps[..n], b);
      PlacedInMembers(ps[..n], b);
      var q := PlacedIn(ps[..n], b);
      if ps[n].target == b {
        forall k | 0 <= k < |q| ensures Before(q[k], ps[n]) {
          assert q[k] in ps[..n];
          var m :| 0 <= m < n && ps[..n][m] == q[k];
          assert Before(ps[m], ps[n]);
        }
      }
    }
  }

  lemma PartitionStep(ps: seq<Placement>)
    requires ps != []
    ensures var n := |ps| - 1;
      multiset(PlacedIn(ps, Normal)) + multiset(PlacedIn(ps, Pathological))
      == multiset(PlacedIn(ps[..n], Normal)) + multiset(PlacedIn(ps[..n], Pathological)) + multiset{ps[n]}
  {
  }

  lemma MultisetSnoc(ps: seq<Placement>)
    requires ps != []
    ensures multiset(ps) == multiset(ps[..|ps| - 1]) + multiset{ps[|ps| - 1]}
  {
    assert ps == ps[..|ps| - 1] + [ps[|ps| - 1]];
  }

  /** Every placement goes to exactly one of the two lists. */
  lemma {:induction false} Partition(ps: seq<Placement>)
    ensures multiset(PlacedIn(ps, Normal)) + multiset(PlacedIn(ps, Pathological)) == multiset(ps)
  {
    if ps != [] {
      var n := |ps| - 1;
      Partition(ps[..n]);
      PartitionStep(ps);
      MultisetSnoc(ps);
    }
  }

  /** A bilateral item gives two entries and any other item one, so the two
      lists together hold the sum of these counts. */
  lemma EntryCount(items: seq<Item>, affected: set<int>, answer: Answer)
    ensures var ps := Placements(items, affected, answer);
      |ListOf(ps, Normal)| + |ListOf(ps, Pathological)| == TotalWidth(items)
  {
    var ps := Placements(items, affected, answer);
    Partition(ps);
    ListOfPlacedIn(ps, Normal);
    ListOfPlacedIn(ps, Pathological);
    assert |multiset(PlacedIn(ps, Normal))| + |multiset(PlacedIn(ps, Pathological))| == |multiset(ps)|;
  }

  /** With the items sorted by number, as the selection delivers them, each
      list is ordered by ascending number of the entries' items, and the left
      entry of a bilateral item precedes its right entry. */
  lemma ListsFollowNummer(items: seq<Item>, affected: set<int>, answer: Answer, b: Target)
    requires SortedByNummer(items)
    ensures var q := PlacedIn(Placements(items, affected, answer), b);
      && (forall k :: 0 <= k < |q| ==> q[k].origin < |items|)
      && (forall i, j :: 0 <= i < j < |q| ==>
            items[q[i].origin].nummer <= items[q[j].origin].nummer
            && (q[i].origin == q[j].origin ==> q[i].entry.side == Links && q[j].entry.side == Rechts))
  {
    var ps := Placements(items, affected, answer);
    var q := PlacedIn(ps, b);
    PlacementsOrdered(items, affected, answer);
    PlacedInOrdered(ps, b);
    PlacementsOrigins(items, affected, answer);
    PlacedInMembers(ps, b);
    forall k | 0 <= k < |q| ensures q[k].origin < |items| {
      assert q[k] in ps;
    }
  }

  /** Affected numbers that no item carries change nothing. */
  lemma {:induction false} UnmatchedNumbersInert(items: seq<Item>, affected: set<int>, answer: Answer)
    ensures Placements(items, affected, answer) == Placements(items, affected * Nummern(items), answer)
  {
    if items != [] {
      var n := |items| - 1;
      var init := items[..n];
      UnmatchedNumbersInert(init, affected, answer);
      UnmatchedNumbersInert(init, affected * Nummern(items), answer);
      assert Nummern(init) <= Nummern(items) by {
        forall x | x in Nummern(init) ensures x in Nummern(items) {
          var it :| it in init && it.nummer == x;
          assert it in items;
        }
      }
      assert affected * Nummern(items) * Nummern(init) == affected * Nummern(init);
      assert items[n] in items;
    }
  }

  /** When no item's number is affected, nothing is pathological. */
  lemma {:induction false} NoneAffected(items: seq<Item>, affected: set<int>, answer: Answer)
    requires forall k :: 0 <= k < |items| ==> items[k].nummer !in affected
    ensures ListOf(Placements(items, affected, answer), Pathological) == []
  {
    if items != [] {
      NoneAffected(items[..|items| - 1], affected, answer);
      NoneAffectedStep(items, affected, answer);
    }
  }

  lemma NoneAffectedStep(items: seq<Item>, affected: set<int>, answer: Answer)
    requires items != [] && items[|items| - 1].nummer !in affected
    requires ListOf(Placements(items[..|items| - 1], affected, answer), Pathological) == []
    ensures ListOf(Placements(items, affected, answer), Pathological) == []
  {
    var n := |items| - 1;
    ListOfConcat(Placements(items[..n], affected, answer), ItemPlacements(items[n], n, affected, answer), Pathological);
    UnaffectedItem(items[n], n, affected, answer);
  }

  lemma UnaffectedItem(it: Item, origin: nat, affected: set<int>, answer: Answer)
    requires it.nummer !in affected
    ensures ListOf(ItemPlacements(it, origin, affected, answer), Pathological) == []
  {
    ListOfShort(ItemPlacements(it, origin, affected, answer), Pathological);
  }
}
