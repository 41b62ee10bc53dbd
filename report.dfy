/**
 The whole run after the menu: the selected items are classified with the
 answers given and the two lists are turned into the report. The lemmas here
 follow single findings and one general family of inputs end to end.
 */
module Report {
  import opened Model
  import opened Text
  import opened Classification
  import opened Summary

  /** The report for the items, the affected numbers and the answers. */
  function ReportFor(items: seq<Item>, affected: set<int>, answer: Answer): (r: string)
    ensures "Pathologisch: " <= r
    ensures (forall k :: 0 <= k < |items| ==> items[k].nummer !in affected) ==> "Pathologisch: -\nNormal: " <= r
    ensures items == [] ==> r == "Pathologisch: -\nNormal: -"
  {
    var ps := Placements(items, affected, answer);
    NothingPathological(items, affected, answer);
    EmptyReport();
    SummaryText(ListOf(ps, Normal), ListOf(ps, Pathological))
  }

  lemma NothingPathological(items: seq<Item>, affected: set<int>, answer: Answer)
    ensures (forall k :: 0 <= k < |items| ==> items[k].nummer !in affected) ==>
      ListOf(Placements(items, affected, answer), Pathological) == []
  {
    if forall k :: 0 <= k < |items| ==> items[k].nummer !in affected {
      NoneAffected(items, affected, answer);
    }
  }

  /** The last two steps of `main`: classify the selected items with the
      answers given, then build the report from the two lists. */
  method Summarise(items: seq<Item>, affected: set<int>, answer: Answer) returns (out: string)
    ensures out == ReportFor(items, affected, answer)
  {
    var normal, pathological := ReplacePathological(items, affected, answer);
    out := BuildSummaryText(normal, pathological);
  }

  /** The default texts of the items, in item order. */
  function ItemTexts(items: seq<Item>): seq<string> {
    if items == [] then [] else ItemTexts(items[..|items| - 1]) + [items[|items| - 1].text]
  }

  /** An unaffected bilateral item gives LINKS and RECHTS with its own text,
      both normal. */
  lemma UnaffectedPair(it: Item, origin: nat, affected: set<int>, answer: Answer)
    requires it.bilateral && it.nummer !in affected
    ensures ListOf(ItemPlacements(it, origin, affected, answer), Normal) == [Entry(Links, it.text), Entry(Rechts, it.text)]
    ensures ListOf(ItemPlacements(it, origin, affected, answer), Pathological) == []
  {
    ListOfShort(ItemPlacements(it, origin, affected, answer), Normal);
    ListOfShort(ItemPlacements(it, origin, affected, answer), Pathological);
  }

  /** Bilateral items none of which is affected all stay normal, LINKS and
      RECHTS for each item in turn. */
  lemma {:induction false} UnaffectedBilateral(items: seq<Item>, affected: set<int>, answer: Answer)
    requires forall k :: 0 <= k < |items| ==> items[k].bilateral && items[k].nummer !in affected
    ensures ListOf(Placements(items, affected, answer), Normal) == Pairs(ItemTexts(items))
    ensures ListOf(Placements(items, affected, answer), Pathological) == []
  {
    if items != [] {
      var n := |items| - 1;
      var init := items[..n];
      assert forall k :: 0 <= k < n ==> init[k] == items[k];
      UnaffectedBilateral(init, affected, answer);
      NextItem(items, n, affected, answer, Normal);
      NextItem(items, n, affected, answer, Pathological);
      assert items[..n + 1] == items;
      UnaffectedPair(items[n], n, affected, answer);
      PairsSnoc(ItemTexts(init), items[n].text);
    }
  }

  lemma PairsSnoc(ts: seq<string>, t: string)
    ensures Pairs(ts + [t]) == Pairs(ts) + [Entry(Links, t), Entry(Rechts, t)]
  {
    assert (ts + [t])[..|ts|] == ts;
  }

  /** For such items the report has no pathological finding and lists every
      text once on each side: `LINKS (A, B); RECHTS (A, B)`. */
  lemma UnaffectedBilateralReport(items: seq<Item>, affected: set<int>, answer: Answer)
    requires items != []
    requires forall k :: 0 <= k < |items| ==> items[k].bilateral && items[k].nummer !in affected
    ensures var ps := Placements(items, affected, answer);
      && PathoLine(ListOf(ps, Pathological)) == "-"
      && NormalLine(ListOf(ps, Normal)) == Bracketed("LINKS", ItemTexts(items)) + "; " + Bracketed("RECHTS", ItemTexts(items))
  {
    UnaffectedBilateral(items, affected, answer);
    PairedNormalLine(ItemTexts(items));
    EmptyLines([], []);
  }

  /** Two unaffected bilateral items with texts `a` and `b` give the normal
      line `LINKS (a, b); RECHTS (a, b)`. */
  lemma TwoBilateralLine(a: string, b: string)
    ensures NormalLine(Pairs([a, b])) == ("LINKS (" + (a + ", " + b) + ")") + "; " + ("RECHTS (" + (a + ", " + b) + ")")
  {
    var ab := [a, b];
    assert "LINKS" + " (" == "LINKS (" && "RECHTS" + " (" == "RECHTS (";
    assert NormalLine(Pairs(ab)) == Bracketed("LINKS", ab) + "; " + Bracketed("RECHTS", ab) by {
      PairedNormalLine(ab);
    }
    assert Join(", ", ab) == a + ", " + b by {
      assert ab[1..] == [b];
    }
  }

  /** One placement per side for a finding on one item at the front of the run. */
  lemma FirstItem(it: Item, affected: set<int>, answer: Answer)
    ensures Placements([it], affected, answer) == ItemPlacements(it, 0, affected, answer)
  {
    assert [it][..0] == [];
  }

  /** The report for a run of one item is read off that item's two lists. */
  lemma OneItemReport(it: Item, affected: set<int>, answer: Answer)
    ensures var ip := ItemPlacements(it, 0, affected, answer);
      ReportFor([it], affected, answer) == SummaryText(ListOf(ip, Normal), ListOf(ip, Pathological))
  {
    FirstItem(it, affected, answer);
  }

  /** A list holding one entry of the given side: its only group is that
      side's, with the entry's text. */
  lemma SingleEntry(e: Entry)
    ensures TextsOn([e], e.side) == [e.text]
    ensures forall other :: other != e.side ==> TextsOn([e], other) == []
  {
    assert [e][..0] == [];
  }

  /** One side-less normal entry makes its text the whole normal line. */
  lemma LoneTextLine(t: string)
    ensures NormalLine([Entry(NoSide, t)]) == t
  {
    SingleEntry(Entry(NoSide, t));
  }

  /** One pathological LINKS entry gives `LINKS <text>`. */
  lemma LeftPathoLine(x: string)
    ensures PathoLine([Entry(Links, x)]) == "LINKS " + x
  {
    SingleEntry(Entry(Links, x));
    assert "LINKS" + " " == "LINKS ";
  }

  /** One normal RECHTS entry gives `RECHTS (<text>)`. */
  lemma RightNormalLine(t: string)
    ensures NormalLine([Entry(Rechts, t)]) == "RECHTS (" + t + ")"
  {
    SingleEntry(Entry(Rechts, t));
    assert "RECHTS" + " (" == "RECHTS (";
  }

  lemma PlaceholderReport(n: string)
    ensures "Pathologisch: " + "-" + "\nNormal: " + n == "Pathologisch: -\nNormal: " + n
  {
    assert "Pathologisch: " + "-" + "\nNormal: " == "Pathologisch: -\nNormal: ";
  }

  /** An affected finding without sides answered with a blank reply stays
      normal with its own text. */
  lemma BlankReplyReport(it: Item, answer: Answer)
    requires !it.bilateral
    requires AllSpace(answer(0, NoSide))
    ensures ReportFor([it], {it.nummer}, answer) == "Pathologisch: -\nNormal: " + it.text
  {
    var ip := ItemPlacements(it, 0, {it.nummer}, answer);
    assert ListOf(ip, Normal) == [Entry(NoSide, it.text)] && ListOf(ip, Pathological) == [] by {
      ItemLists(it, 0, {it.nummer}, answer);
      StripEmpty(answer(0, NoSide));
    }
    OneItemReport(it, {it.nummer}, answer);
    LoneTextLine(it.text);
    EmptyLines([], []);
    PlaceholderReport(it.text);
  }

  /** An affected bilateral finding with a left-side answer and a blank
      right-side reply: the left side is pathological with the answer, the
      right side stays normal with the item's text. */
  lemma LeftAnswerReport(it: Item, answer: Answer)
    requires it.bilateral
    requires Strip(answer(0, Links)) != []
    requires AllSpace(answer(0, Rechts))
    ensures ReportFor([it], {it.nummer}, answer)
         == "Pathologisch: " + ("LINKS " + Strip(answer(0, Links))) + "\nNormal: " + ("RECHTS (" + it.text + ")")
  {
    var x := Strip(answer(0, Links));
    var ip := ItemPlacements(it, 0, {it.nummer}, answer);
    assert ListOf(ip, Normal) == [Entry(Rechts, it.text)] && ListOf(ip, Pathological) == [Entry(Links, x)] by {
      ItemLists(it, 0, {it.nummer}, answer);
      StripEmpty(answer(0, Rechts));
    }
    OneItemReport(it, {it.nummer}, answer);
    LeftPathoLine(x);
    RightNormalLine(it.text);
  }

  /** A default text may hold a line break, as a quoted field of the catalogue
      file can; the report is then longer than two lines. */
  lemma LineBreakInText(answer: Answer)
    ensures Split(ReportFor([Item("x", 1, "a\nb", false, true)], {}, answer), '\n')
         == ["Pathologisch: -", "Normal: a", "b"]
  {
    UnaffectedLoneReport(Item("x", 1, "a\nb", false, true), answer);
    ThreeLines();
  }

  /** An unaffected finding without sides stays normal with its own text. */
  lemma UnaffectedLoneReport(it: Item, answer: Answer)
    requires !it.bilateral
    ensures ReportFor([it], {}, answer) == "Pathologisch: -\nNormal: " + it.text
  {
    var ip := ItemPlacements(it, 0, {}, answer);
    assert ListOf(ip, Normal) == [Entry(NoSide, it.text)] && ListOf(ip, Pathological) == [] by {
      ItemLists(it, 0, {}, answer);
    }
    OneItemReport(it, {}, answer);
    LoneTextLine(it.text);
    EmptyLines([], []);
    PlaceholderReport(it.text);
  }

  /** How that report splits at its line breaks. */
  lemma ThreeLines()
    ensures Split("Pathologisch: -\nNormal: " + "a\nb", '\n') == ["Pathologisch: -", "Normal: a", "b"]
  {
    var lines := ["Pathologisch: -", "Normal: a", "b"];
    assert Join("\n", lines) == "Pathologisch: -\nNormal: " + "a\nb";
    SplitJoin(lines, '\n');
  }
}
