/**
 The report `build_summary_text` produces from the normal and the
 pathological entries: each list's texts are grouped by side (LINKS, RECHTS,
 none), each non-empty group becomes one labelled part, and the parts make up
 the line, or `-` when there are none. The report has two lines as long as
 no entry text holds a line break (`TwoLines`).
 */
module Summary {
  import opened Model
  import opened Text

  /** The texts of the entries on `side`, in entry order. */
  function TextsOn(es: seq<Entry>, side: Side): seq<string> {
    if es == [] then
      []
    else
      var n := |es| - 1;
      TextsOn(es[..n], side) + (if es[n].side == side then [es[n].text] else [])
  }

  /** The texts of all entries, in entry order. */
  function Texts(es: seq<Entry>): seq<string> {
    if es == [] then [] else Texts(es[..|es| - 1]) + [es[|es| - 1].text]
  }

  /** `d.get(side)` on the side-to-texts dictionary, an absent key read as no texts. */
  function Get(d: map<Side, seq<string>>, side: Side): seq<string> {
    if side in d then d[side] else []
  }

  /** A labelled pathological part, `LINKS a, b`. */
  function Labelled(name: string, texts: seq<string>): string {
    name + " " + Join(", ", texts)
  }

  /** A labelled normal part, `LINKS (a, b)`. */
  function Bracketed(name: string, texts: seq<string>): string {
    name + " (" + Join(", ", texts) + ")"
  }

  /** The pathological line's parts from the LINKS, RECHTS and side-less
      groups: `LINKS a, b`, `RECHTS c` and the bare texts, each only when its
      group is non-empty, in this order. */
  function PathoPartsOf(l: seq<string>, r: seq<string>, u: seq<string>): seq<string> {
    (if l != [] then [Labelled("LINKS", l)] else [])
    + (if r != [] then [Labelled("RECHTS", r)] else [])
    + (if u != [] then [Join(", ", u)] else [])
  }

  /** The normal line's parts from the three groups: `LINKS (a, b)`,
      `RECHTS (c)` and the bare texts, each only when its group is non-empty,
      in this order. */
  function NormalPartsOf(l: seq<string>, r: seq<string>, u: seq<string>): seq<string> {
    (if l != [] then [Bracketed("LINKS", l)] else [])
    + (if r != [] then [Bracketed("RECHTS", r)] else [])
    + (if u != [] then [Join(", ", u)] else [])
  }

  function PathoParts(es: seq<Entry>): seq<string> {
    PathoPartsOf(TextsOn(es, Links), TextsOn(es, Rechts), TextsOn(es, NoSide))
  }

  function NormalParts(es: seq<Entry>): seq<string> {
    NormalPartsOf(TextsOn(es, Links), TextsOn(es, Rechts), TextsOn(es, NoSide))
  }

  /** A line of parts joined by `sep`, or the placeholder `-` when there are none. */
  function Line(parts: seq<string>, sep: string): string {
    if parts == [] then "-" else Join(sep, parts)
  }

  /** The pathological line's parts are separated by one space. */
  function PathoLine(pathological: seq<Entry>): string {
    Line(PathoParts(pathological), " ")
  }

  /** The normal line's parts are separated by a semicolon. */
  function NormalLine(normal: seq<Entry>): string {
    Line(NormalParts(normal), "; ")
  }

  /** The report, with the groups read off the entry lists side by side. */
  function SummaryText(normal: seq<Entry>, pathological: seq<Entry>): (r: string)
    ensures "Pathologisch: " <= r
    ensures pathological == [] ==> "Pathologisch: -\nNormal: " <= r
    ensures normal == [] ==> |r| >= 10 && r[|r| - 10..] == "\nNormal: -"
  {
    var p, n := PathoLine(pathological), NormalLine(normal);
    EmptyLines(normal, pathological);
    ReportEnds(p, n);
    "Pathologisch: " + p + "\nNormal: " + n
  }

  /** `bucket`: a `defaultdict(list)` that collects the texts of each side in
      entry order. A side is a key exactly when one of its entries was seen. */
  method Bucket(entries: seq<Entry>) returns (d: map<Side, seq<string>>)
    ensures forall side :: Get(d, side) == TextsOn(entries, side)
    ensures forall side :: side in d ==> d[side] != []
  {
    d := map[];
    for i := 0 to |entries|
      invariant forall side :: side in d <==> TextsOn(entries[..i], side) != []
      invariant forall side :: side in d ==> d[side] == TextsOn(entries[..i], side)
    {
      var e := entries[i];
      assert entries[..i + 1][..i] == entries[..i];
      if e.side in d {
        d := d[e.side := d[e.side] + [e.text]];
      } else {
        d := d[e.side := [e.text]];
      }
    }
    assert entries[..|entries|] == entries;
  }

  /** `build_summary_text`: buckets both lists, collects the parts of each line
      step by step and puts the two lines together. The text is the one the
      side-by-side reading of the lists gives. */
  method BuildSummaryText(normal: seq<Entry>, pathological: seq<Entry>) returns (out: string)
    ensures out == SummaryText(normal, pathological)
  {
    var pn := Bucket(pathological);
    var nn := Bucket(normal);
    var pl, pr, pu := Get(pn, Links), Get(pn, Rechts), Get(pn, NoSide);
    var nl, nr, nu := Get(nn, Links), Get(nn, Rechts), Get(nn, NoSide);
    assert PathoParts(pathological) == PathoPartsOf(pl, pr, pu);
    assert NormalParts(normal) == NormalPartsOf(nl, nr, nu);
    var pathoParts := CollectPathoParts(pl, pr, pu);
    var normalParts := CollectNormalParts(nl, nr, nu);

    var pathoLine := if pathoParts != [] then Join(" ", pathoParts) else "-";
    var normalLine := if normalParts != [] then Join("; ", normalParts) else "-";

    out := "Pathologisch: " + pathoLine + "\nNormal: " + normalLine;
  }

  /** The three `if`s that append the pathological line's parts. */
  method CollectPathoParts(l: seq<string>, r: seq<string>, u: seq<string>) returns (parts: seq<string>)
    ensures parts == PathoPartsOf(l, r, u)
  {
    parts := [];
    if l != [] {
      parts := parts + [Labelled("LINKS", l)];
    }
    if r != [] {
      parts := parts + [Labelled("RECHTS", r)];
    }
    if u != [] {
      parts := parts + [Join(", ", u)];
    }
  }

  /** The three `if`s that append the normal line's parts. */
  method CollectNormalParts(l: seq<string>, r: seq<string>, u: seq<string>) returns (parts: seq<string>)
    ensures parts == NormalPartsOf(l, r, u)
  {
    parts := [];
    if l != [] {
      parts := parts + [Bracketed("LINKS", l)];
    }
    if r != [] {
      parts := parts + [Bracketed("RECHTS", r)];
    }
    if u != [] {
      parts := parts + [Join(", ", u)];
    }
  }

  // ---------------------------------------------------------------------
  // Lemmas

  /** Grouping keeps entry order: the group of a concatenation is the
      concatenation of the groups. */
  lemma {:induction false} TextsOnConcat(a: seq<Entry>, b: seq<Entry>, side: Side)
    ensures TextsOn(a + b, side) == TextsOn(a, side) + TextsOn(b, side)
  {
    if b == [] {
      assert a + b == a;
    } else {
      var n := |b| - 1;
      assert (a + b)[..|a + b| - 1] == a + b[..n];
      TextsOnConcat(a, b[..n], side);
    }
  }

  /** Grouping loses and invents nothing: the three groups together hold
      exactly the texts of the entries. */
  lemma {:induction false} GroupsPartition(es: seq<Entry>)
    ensures multiset(TextsOn(es, Links)) + multiset(TextsOn(es, Rechts)) + multiset(TextsOn(es, NoSide))
         == multiset(Texts(es))
  {
    if es != [] {
      var n := |es| - 1;
      var e := es[n];
      GroupsPartition(es[..n]);
      assert multiset(Texts(es)) == multiset(Texts(es[..n])) + multiset{e.text};
      assert multiset(TextsOn(es, e.side)) == multiset(TextsOn(es[..n], e.side)) + multiset{e.text};
      assert forall other :: other != e.side ==> TextsOn(es, other) == TextsOn(es[..n], other);
    }
  }

  /** Every entry is in exactly one group, so the group sizes add up to the
      number of entries. */
  lemma {:induction false} GroupsCount(es: seq<Entry>)
    ensures |TextsOn(es, Links)| + |TextsOn(es, Rechts)| + |TextsOn(es, NoSide)| == |es|
  {
    if es != [] {
      GroupsCount(es[..|es| - 1]);
    }
  }

  /** Entries all on one side form that side's group, and the others are empty. */
  lemma {:induction false} OneSide(es: seq<Entry>, side: Side)
    requires forall k :: 0 <= k < |es| ==> es[k].side == side
    ensures TextsOn(es, side) == Texts(es)
    ensures forall other :: other != side ==> TextsOn(es, other) == []
  {
    if es != [] {
      var n := |es| - 1;
      OneSide(es[..n], side);
    }
  }

  /** A line has parts exactly when its list has entries. */
  lemma PartsEmpty(es: seq<Entry>)
    ensures PathoParts(es) == [] <==> es == []
    ensures NormalParts(es) == [] <==> es == []
  {
    GroupsCount(es);
  }

  /** Without pathological entries the pathological line is the placeholder
      `-`; without normal entries so is the normal line. */
  lemma EmptyLines(normal: seq<Entry>, pathological: seq<Entry>)
    ensures pathological == [] ==> PathoLine(pathological) == "-"
    ensures normal == [] ==> NormalLine(normal) == "-"
  {
  }

  /** With nothing at all to report, the text is the two placeholders. */
  lemma EmptyReport()
    ensures SummaryText([], []) == "Pathologisch: -\nNormal: -"
  {
    EmptyLines([], []);
  }

  /** The entries of bilateral items with texts `ts` that all stay normal:
      LINKS and RECHTS for each text in turn. */
  function Pairs(ts: seq<string>): seq<Entry> {
    if ts == [] then
      []
    else
      var m := |ts| - 1;
      Pairs(ts[..m]) + [Entry(Links, ts[m]), Entry(Rechts, ts[m])]
  }

  /** Such entries give the normal line `LINKS (ts); RECHTS (ts)`. */
  lemma PairedNormalLine(ts: seq<string>)
    requires ts != []
    ensures NormalLine(Pairs(ts)) == Bracketed("LINKS", ts) + "; " + Bracketed("RECHTS", ts)
  {
    Paired(ts);
    var l := Bracketed("LINKS", ts);
    var r := Bracketed("RECHTS", ts);
    assert NormalParts(Pairs(ts)) == [l, r];
    assert Join("; ", [l, r]) == l + "; " + Join("; ", [r]);
  }

  lemma {:induction false} Paired(ts: seq<string>)
    ensures TextsOn(Pairs(ts), Links) == ts
    ensures TextsOn(Pairs(ts), Rechts) == ts
    ensures TextsOn(Pairs(ts), NoSide) == []
  {
    if ts != [] {
      var m := |ts| - 1;
      var pair := [Entry(Links, ts[m]), Entry(Rechts, ts[m])];
      Paired(ts[..m]);
      OnePair(ts[m]);
      TextsOnConcat(Pairs(ts[..m]), pair, Links);
      TextsOnConcat(Pairs(ts[..m]), pair, Rechts);
      TextsOnConcat(Pairs(ts[..m]), pair, NoSide);
      assert ts == ts[..m] + [ts[m]];
    }
  }

  lemma OnePair(t: string)
    ensures TextsOn([Entry(Links, t), Entry(Rechts, t)], Links) == [t]
    ensures TextsOn([Entry(Links, t), Entry(Rechts, t)], Rechts) == [t]
    ensures TextsOn([Entry(Links, t), Entry(Rechts, t)], NoSide) == []
  {
    var pair := [Entry(Links, t), Entry(Rechts, t)];
    assert pair[..1] == [Entry(Links, t)];
    assert pair[..1][..0] == [];
    assert TextsOn(pair[..1], Links) == [t];
    assert TextsOn(pair[..1], Rechts) == [];
    assert TextsOn(pair[..1], NoSide) == [];
  }

  /** The fixed pieces of the report hold no line break. */
  lemma FixedKeepOut()
    ensures '\n' !in "Pathologisch: " && '\n' !in "Normal: "
    ensures '\n' !in "LINKS" && '\n' !in "RECHTS"
    ensures '\n' !in " " && '\n' !in ", " && '\n' !in "; " && '\n' !in " (" && '\n' !in ")"
  {
  }

  /** No entry text holds a line break. */
  predicate NoNewline(es: seq<Entry>) {
    forall k :: 0 <= k < |es| ==> '\n' !in es[k].text
  }

  lemma {:induction false} JoinKeepsOut(sep: string, xs: seq<string>, c: char)
    requires c !in sep
    requires forall k :: 0 <= k < |xs| ==> c !in xs[k]
    ensures c !in Join(sep, xs)
  {
    if |xs| > 1 {
      JoinKeepsOut(sep, xs[1..], c);
    }
  }

  /** A group of texts without line breaks joins to a text without one. */
  lemma {:induction false} GroupKeepsOut(es: seq<Entry>, side: Side)
    requires NoNewline(es)
    ensures '\n' !in Join(", ", TextsOn(es, side))
  {
    FixedKeepOut();
    TextsOnKeepsOut(es, side);
    JoinKeepsOut(", ", TextsOn(es, side), '\n');
  }

  lemma {:induction false} TextsOnKeepsOut(es: seq<Entry>, side: Side)
    requires NoNewline(es)
    ensures forall k :: 0 <= k < |TextsOn(es, side)| ==> '\n' !in TextsOn(es, side)[k]
  {
    if es != [] {
      TextsOnKeepsOut(es[..|es| - 1], side);
    }
  }

  /** Entry texts without line breaks give lines without line breaks. */
  lemma PathoLineKeepsOut(pathological: seq<Entry>)
    requires NoNewline(pathological)
    ensures '\n' !in PathoLine(pathological)
  {
    PathoPartsKeepOut(pathological);
    FixedKeepOut();
    JoinKeepsOut(" ", PathoParts(pathological), '\n');
  }

  lemma PathoPartsKeepOut(pathological: seq<Entry>)
    requires NoNewline(pathological)
    ensures forall k :: 0 <= k < |PathoParts(pathological)| ==> '\n' !in PathoParts(pathological)[k]
  {
    var pp := PathoParts(pathological);
    forall k | 0 <= k < |pp|
      ensures '\n' !in pp[k]
    {
      FixedKeepOut();
      GroupKeepsOut(pathological, Links);
      GroupKeepsOut(pathological, Rechts);
      GroupKeepsOut(pathological, NoSide);
    }
  }

  lemma NormalLineKeepsOut(normal: seq<Entry>)
    requires NoNewline(normal)
    ensures '\n' !in NormalLine(normal)
  {
    NormalPartsKeepOut(normal);
    FixedKeepOut();
    JoinKeepsOut("; ", NormalParts(normal), '\n');
  }

  lemma NormalPartsKeepOut(normal: seq<Entry>)
    requires NoNewline(normal)
    ensures forall k :: 0 <= k < |NormalParts(normal)| ==> '\n' !in NormalParts(normal)[k]
  {
    var np := NormalParts(normal);
    forall k | 0 <= k < |np|
      ensures '\n' !in np[k]
    {
      FixedKeepOut();
      GroupKeepsOut(normal, Links);
      GroupKeepsOut(normal, Rechts);
      GroupKeepsOut(normal, NoSide);
    }
  }

  /** The headings frame the two lines, whatever they hold. */
  lemma ReportEnds(p: string, n: string)
    ensures "Pathologisch: " <= "Pathologisch: " + p + "\nNormal: " + n
    ensures p == "-" ==> "Pathologisch: -\nNormal: " <= "Pathologisch: " + p + "\nNormal: " + n
    ensures n == "-" ==> var r := "Pathologisch: " + p + "\nNormal: " + n; |r| >= 10 && r[|r| - 10..] == "\nNormal: -"
  {
    var r := "Pathologisch: " + p + "\nNormal: " + n;
    assert r == ("Pathologisch: " + p + "\nNormal: ") + n;
    if p == "-" {
      assert "Pathologisch: " + p + "\nNormal: " == "Pathologisch: -\nNormal: ";
    }
    if n == "-" {
      assert r == ("Pathologisch: " + p) + "\nNormal: -";
    }
  }

  lemma ReportShape(p: string, n: string)
    ensures "Pathologisch: " + p + "\nNormal: " + n == ("Pathologisch: " + p) + ['\n'] + ("Normal: " + n)
  {
    assert "\nNormal: " == ['\n'] + "Normal: ";
    ConcatRegroup("Pathologisch: ", p, '\n', "Normal: ", n);
  }

  lemma ConcatRegroup(a: string, p: string, c: char, b: string, n: string)
    ensures a + p + ([c] + b) + n == (a + p) + [c] + (b + n)
  {
  }

  /** The report is two lines: split at line breaks it gives back the
      pathological line and the normal line, each with its heading. */
  lemma TwoLines(normal: seq<Entry>, pathological: seq<Entry>)
    requires NoNewline(normal) && NoNewline(pathological)
    ensures Split(SummaryText(normal, pathological), '\n')
         == ["Pathologisch: " + PathoLine(pathological), "Normal: " + NormalLine(normal)]
  {
    var first := "Pathologisch: " + PathoLine(pathological);
    var second := "Normal: " + NormalLine(normal);
    assert '\n' !in first by {
      FixedKeepOut();
      PathoLineKeepsOut(pathological);
    }
    assert '\n' !in second by {
      FixedKeepOut();
      NormalLineKeepsOut(normal);
    }
    ReportShape(PathoLine(pathological), NormalLine(normal));
    SplitConcat(first, '\n', second);
    SplitNoSeparator(first, '\n');
    SplitNoSeparator(second, '\n');
  }
}
