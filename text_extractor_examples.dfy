/**
 * Small pages for the reading-order reconstruction, computed in full: two
 * fragments on one line, two lines, the tolerance boundary, a blank item,
 * the falsy key 0, and the dependence of the lines on arrival order.
 */
module TextExtractorExamples {
  import opened Records
  import opened TextExtractor
  import opened TextExtractorFacts

  /** A text item without newlines whose string is not blank. */
  ghost predicate Plain(item: ContentItem)
  {
    Kept(item) && '\n' !in item.str
  }

  lemma PlainFragment(item: ContentItem)
    requires Plain(item)
    ensures FragmentOf(item) == Fragment(item.str, item.x, item.y)
  {
    var r := ReplaceNewlines(item.str);
    assert forall i :: 0 <= i < |r| ==> r[i] == item.str[i];
  }

  lemma FragmentsOfTwo(a: ContentItem, b: ContentItem)
    ensures Fragments([a, b]) ==
      (if Kept(a) then [FragmentOf(a)] else []) + (if Kept(b) then [FragmentOf(b)] else [])
  {
    assert [a][..0] == [];
    assert Fragments([a]) == if Kept(a) then [FragmentOf(a)] else [];
    assert [a, b][..1] == [a];
  }

  lemma GroupsOfTwo(f: Fragment, g: Fragment)
    ensures GroupAll([f]) == map[f.y := [Entry(f.text, f.x)]]
    ensures GroupAll([f, g]) == AddToGroups(GroupAll([f]), g)
  {
    assert [f][..0] == [];
    assert GroupKey(map[], f.y) == f.y;
    assert [f, g][..1] == [f];
  }

  /** A second fragment within tolerance of a first one at a non-zero y joins its line. */
  lemma NearFragmentsShareLine(f: Fragment, g: Fragment)
    requires f.y != 0 && Near(f.y, g.y)
    ensures GroupAll([f, g]) == map[f.y := [Entry(f.text, f.x), Entry(g.text, g.x)]]
  {
    GroupsOfTwo(f, g);
    var g1 := GroupAll([f]);
    assert g1.Keys == {f.y};
    assert LeastNearKey(g1.Keys, g.y, f.y);
    assert GroupKey(g1, g.y) == f.y;
    assert g1[f.y] + [Entry(g.text, g.x)] == [Entry(f.text, f.x), Entry(g.text, g.x)];
    assert AddToGroups(g1, g) == g1[f.y := [Entry(f.text, f.x), Entry(g.text, g.x)]];
  }

  /** A second fragment out of tolerance of the first one opens a line of its own. */
  lemma FarFragmentsSplitLines(f: Fragment, g: Fragment)
    requires !Near(f.y, g.y)
    ensures GroupAll([f, g]) == map[f.y := [Entry(f.text, f.x)], g.y := [Entry(g.text, g.x)]]
  {
    GroupsOfTwo(f, g);
    var g1 := GroupAll([f]);
    assert g1.Keys == {f.y};
    var k := GroupKey(g1, g.y);
    assert k == g.y;
    assert g.y != f.y;
  }

  lemma SortOne(e: Entry)
    ensures SortByX([e]) == [e]
  {
    assert [e][..0] == [];
    assert InsertByX([], e) == [e];
  }

  lemma SortTwo(e1: Entry, e2: Entry)
    ensures SortByX([e1, e2]) == if e1.x <= e2.x then [e1, e2] else [e2, e1]
  {
    var s := [e1, e2];
    assert s[..1] == [e1];
    SortOne(e1);
    assert SortByX(s) == InsertByX([e1], e2);
    InsertAfterOne(e1, e2);
  }

  lemma InsertAfterOne(e1: Entry, e2: Entry)
    ensures InsertByX([e1], e2) == if e1.x <= e2.x then [e1, e2] else [e2, e1]
  {
    if e2.x < e1.x {
      assert [e1][..0] == [];
      assert InsertByX([], e2) == [e2];
      assert InsertByX([e1], e2) == InsertByX([], e2) + [e1];
    }
  }

  lemma JoinTwo(s: string, t: string, sep: string)
    ensures Join([s, t], sep) == s + sep + t
  {
    assert [s, t][..1] == [s];
  }

  lemma LineOfOne(e: Entry)
    ensures LineText([e]) == e.text
  {
    SortOne(e);
    assert Texts([e]) == [e.text];
  }

  lemma LineOfTwo(e1: Entry, e2: Entry)
    ensures LineText([e1, e2]) ==
      if e1.x <= e2.x then e1.text + " " + e2.text else e2.text + " " + e1.text
  {
    SortTwo(e1, e2);
    var sorted := if e1.x <= e2.x then [e1, e2] else [e2, e1];
    assert Texts(sorted) == [sorted[0].text, sorted[1].text];
    JoinTwo(sorted[0].text, sorted[1].text, " ");
  }

  lemma PageOfOneLine(k: nat, es: seq<Entry>)
    ensures PageTextOf(map[k := es]) == LineText(es)
  {
    var groups := map[k := es];
    assert groups.Keys == {k};
    assert MaxKey({k}) == k;
    assert {k} - {k} == {};
    assert DescendingKeys({k}) == [k];
    assert [k][..0] == [];
  }

  lemma PageOfTwoLines(k1: nat, e1: seq<Entry>, k2: nat, e2: seq<Entry>)
    requires k1 > k2
    ensures PageTextOf(map[k1 := e1, k2 := e2]) == LineText(e1) + "\n" + LineText(e2)
  {
    var groups := map[k1 := e1, k2 := e2];
    assert groups.Keys == {k1, k2};
    DescendingKeysFirst({k1, k2}, k1);
    assert {k1, k2} - {k1} == {k2};
    DescendingKeysFirst({k2}, k2);
    assert {k2} - {k2} == {};
    assert DescendingKeys({k1, k2}) == [k1, k2];
    LineTextsSnoc(groups, [k1], k2);
    assert [k1][..0] == [];
    assert LineTexts(groups, [k1]) == [LineText(e1)];
    assert [k1] + [k2] == [k1, k2];
    assert groups[k1] == e1 && groups[k2] == e2;
    assert LineTexts(groups, [k1, k2]) == [LineText(e1), LineText(e2)];
    assert PageTextOf(groups) == Join(LineTexts(groups, [k1, k2]), "\n");
    JoinTwo(LineText(e1), LineText(e2), "\n");
  }

  /**
   * Two fragments within tolerance of each other share a line and read
   * left to right, joined by a space: `"World"` at x 50 and `"Hello"` at
   * x 0 give `"Hello World"`.
   */
  lemma SameLineReadsLeftToRight(a: ContentItem, b: ContentItem)
    requires Plain(a) && Plain(b) && a.y != 0 && Near(a.y, b.y) && b.x < a.x
    ensures PageText([a, b]) == b.str + " " + a.str
  {
    var ea, eb := Entry(a.str, a.x), Entry(b.str, b.x);
    PlainPair(a, b);
    NearFragmentsShareLine(FragmentOf(a), FragmentOf(b));
    assert GroupAll(Fragments([a, b])) == map[a.y := [ea, eb]];
    PageOfOneLine(a.y, [ea, eb]);
    LineOfTwo(ea, eb);
  }

  /**
   * Fragments more than the tolerance apart are separate lines, the higher
   * one first: `"Line1"` at y 200 and `"Line2"` at y 100 give `"Line1\nLine2"`.
   */
  lemma DistantLinesTopFirst(a: ContentItem, b: ContentItem)
    requires Plain(a) && Plain(b) && a.y > b.y + YTolerance
    ensures PageText([a, b]) == a.str + "\n" + b.str
  {
    var ea, eb := Entry(a.str, a.x), Entry(b.str, b.x);
    PlainPair(a, b);
    FarFragmentsSplitLines(FragmentOf(a), FragmentOf(b));
    assert GroupAll(Fragments([a, b])) == map[a.y := [ea], b.y := [eb]];
    PageOfTwoLines(a.y, [ea], b.y, [eb]);
    LineOfOne(ea);
    LineOfOne(eb);
  }

  lemma PlainPair(a: ContentItem, b: ContentItem)
    requires Plain(a) && Plain(b)
    ensures Fragments([a, b]) == [Fragment(a.str, a.x, a.y), Fragment(b.str, b.x, b.y)]
  {
    FragmentsOfTwo(a, b);
    PlainFragment(a);
    PlainFragment(b);
  }

  /** The tolerance is inclusive: y 100 and y 105 are one line, y 100 and y 106 two. */
  lemma ToleranceBoundary(s: string, t: string)
    requires !IsBlank(s) && '\n' !in s && !IsBlank(t) && '\n' !in t
    ensures PageText([TextItem(s, 50, 100), TextItem(t, 0, 105)]) == t + " " + s
    ensures PageText([TextItem(s, 0, 106), TextItem(t, 0, 100)]) == s + "\n" + t
  {
    SameLineReadsLeftToRight(TextItem(s, 50, 100), TextItem(t, 0, 105));
    DistantLinesTopFirst(TextItem(s, 0, 106), TextItem(t, 0, 100));
  }

  /** A whitespace-only item is dropped: `"   "` and `"Hi"` give `"Hi"`. */
  lemma BlankItemDropped(b: ContentItem)
    requires Plain(b)
    ensures PageText([TextItem("   ", 0, b.y), b]) == b.str
  {
    var a := TextItem("   ", 0, b.y);
    assert IsBlank("   ");
    FragmentsOfTwo(a, b);
    PlainFragment(b);
    var f := FragmentOf(b);
    assert [f][..0] == [];
    assert GroupKey(map[], f.y) == f.y;
    assert GroupAll([f]) == map[b.y := [Entry(b.str, b.x)]];
    PageOfOneLine(b.y, [Entry(b.str, b.x)]);
    LineOfOne(Entry(b.str, b.x));
  }

  /**
   * The falsy key 0: a fragment at y 3 does not join the line keyed 0,
   * although it is within tolerance; the page has two lines.
   */
  lemma ZeroKeySplitsLine(a: ContentItem, b: ContentItem)
    requires Plain(a) && Plain(b) && a.y == 0 && b.y == 3
    ensures PageText([a, b]) == b.str + "\n" + a.str
  {
    FragmentsOfTwo(a, b);
    PlainFragment(a);
    PlainFragment(b);
    var f, g := FragmentOf(a), FragmentOf(b);
    GroupsOfTwo(f, g);
    assert LeastNearKey({0}, 3, 0);
    assert GroupKey(GroupAll([f]), 3) == 3;
    assert GroupAll([f, g]) == map[3 := [Entry(b.str, b.x)], 0 := [Entry(a.str, a.x)]];
    PageOfTwoLines(3, [Entry(b.str, b.x)], 0, [Entry(a.str, a.x)]);
    LineOfOne(Entry(a.str, a.x));
    LineOfOne(Entry(b.str, b.x));
  }

  /**
   * With lines keyed 0 and 3, a fragment at y 2 is near both, yet neither
   * takes it: the least near key is the falsy 0, so it opens the line 2. A
   * fragment at y 3 joins the existing line 3, its own y.
   */
  lemma ZeroKeyBypassesNearKey(e0: seq<Entry>, e3: seq<Entry>)
    ensures GroupKey(map[0 := e0, 3 := e3], 2) == 2
    ensures GroupKey(map[0 := e0, 3 := e3], 3) == 3
  {
    ZeroKeyNeverJoined(map[0 := e0, 3 := e3], 2);
    ZeroKeyNeverJoined(map[0 := e0, 3 := e3], 3);
  }

  /**
   * The lines depend on arrival order: fragments at y 100, 104 and 108
   * give the lines {100, 108} with 104 joining 100, while the reverse order
   * gives the same keys with 104 joining 108.
   */
  lemma GroupingDependsOnOrder(p: string, q: string, r: string)
    ensures var a, b, c := Fragment(p, 0, 100), Fragment(q, 0, 104), Fragment(r, 0, 108);
      GroupAll([a, b, c]) == map[100 := [Entry(p, 0), Entry(q, 0)], 108 := [Entry(r, 0)]]
      && GroupAll([c, b, a]) == map[108 := [Entry(r, 0), Entry(q, 0)], 100 := [Entry(p, 0)]]
  {
    var a, b, c := Fragment(p, 0, 100), Fragment(q, 0, 104), Fragment(r, 0, 108);
    NearFragmentsShareLine(a, b);
    ThirdOpensLine(a, b, c);
    NearFragmentsShareLine(c, b);
    ThirdOpensLine(c, b, a);
  }

  /** A third fragment near no line of the first two opens a line of its own. */
  lemma ThirdOpensLine(f: Fragment, g: Fragment, h: Fragment)
    requires forall k :: k in GroupAll([f, g]) ==> !Near(k, h.y)
    ensures GroupAll([f, g, h]) == GroupAll([f, g])[h.y := [Entry(h.text, h.x)]]
  {
    assert [f, g, h][..2] == [f, g];
    var before := GroupAll([f, g]);
    assert GroupKey(before, h.y) == h.y;
    assert h.y !in before;
  }
}
