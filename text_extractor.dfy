/**
 * Reading-order reconstruction of one PDF page: the text items that the PDF
 * text layer reports for a page are grouped into lines by their rounded
 * baseline y, the lines are ordered top-down and each line left-to-right,
 * and the result is joined into the page text.
 *
 * The grouping follows the application's code exactly: a line is keyed by
 * the y of the fragment that created it and that key never moves; a new
 * fragment joins the first existing key within tolerance in `Object.keys`
 * order (ascending for non-negative integer keys), except that a matched
 * key of 0 is falsy and so replaced by the fragment's own y.
 */
module TextExtractor {
  import opened Records

  /** Largest vertical distance at which a fragment joins an existing line. */
  const YTolerance: nat := 5

  /**
   * An element of a page's text content. Only text items carry a string and
   * a transform; `x` is the horizontal translation of the transform and `y`
   * the vertical one, already rounded to an integer.
   */
  datatype ContentItem =
    | TextItem(str: string, x: int, y: nat)
    | MarkedContent

  /** A text item that takes part in the grouping, its text normalised. */
  datatype Fragment = Fragment(text: string, x: int, y: nat)

  /** What a line group stores for each of its fragments. */
  datatype Entry = Entry(text: string, x: int)

  /** Line groups keyed by the y that created them. */
  type Groups = map<nat, seq<Entry>>

  // ---------------------------------------------------------------------
  // Filtering and normalising the items
  // ---------------------------------------------------------------------

  /** The characters `String.prototype.trim` removes (white space and line terminators). */
  predicate IsWhitespace(c: char)
  {
    c == '\t' || c == '\n' || c == '\U{B}' || c == '\U{C}' || c == '\r' || c == ' '
    || c == '\U{A0}' || c == '\U{1680}' || ('\U{2000}' <= c <= '\U{200A}')
    || c == '\U{2028}' || c == '\U{2029}' || c == '\U{202F}' || c == '\U{205F}'
    || c == '\U{3000}' || c == '\U{FEFF}'
  }

  /** `s.trim() === ""`. */
  predicate IsBlank(s: string)
  {
    forall i :: 0 <= i < |s| ==> IsWhitespace(s[i])
  }

  /** An item takes part in the grouping when it is a text item with a non-blank string. */
  predicate Kept(item: ContentItem)
  {
    item.TextItem? && !IsBlank(item.str)
  }

  /** Every `"\n"` of the string replaced by a space, nothing else touched. */
  function ReplaceNewlines(s: string): (r: string)
    ensures |r| == |s|
    ensures forall i :: 0 <= i < |s| ==> r[i] == (if s[i] == '\n' then ' ' else s[i])
  {
    if s == [] then [] else [if s[0] == '\n' then ' ' else s[0]] + ReplaceNewlines(s[1..])
  }

  function FragmentOf(item: ContentItem): Fragment
    requires item.TextItem?
  {
    Fragment(ReplaceNewlines(item.str), item.x, item.y)
  }

  /** The kept items of a page, in input order. */
  function Fragments(items: seq<ContentItem>): (r: seq<Fragment>)
    ensures |r| <= |items|
  {
    if items == [] then []
    else
      var init := Fragments(items[..|items| - 1]);
      var last := items[|items| - 1];
      if Kept(last) then init + [FragmentOf(last)] else init
  }

  // ---------------------------------------------------------------------
  // Choosing a line for a fragment
  // ---------------------------------------------------------------------

  /** `Math.abs(k - y) <= Y_TOLERANCE`. */
  predicate Near(k: nat, y: nat)
  {
    k - y <= YTolerance && y - k <= YTolerance
  }

  /** `g` is the smallest key within tolerance of `y`. */
  ghost predicate LeastNearKey(keys: set<nat>, y: nat, g: nat)
  {
    g in keys && Near(g, y) && forall h :: h in keys && Near(h, y) ==> g <= h
  }

  /** Scans the candidate keys `c, c + 1, ..., y + YTolerance` in ascending order. */
  function FirstNearKeyFrom(keys: set<nat>, y: nat, c: nat): (r: Option<nat>)
    requires y - c <= YTolerance
    ensures r.Some? ==> r.value in keys && Near(r.value, y) && c <= r.value
    ensures forall k :: k in keys && c <= k && Near(k, y) ==> r.Some? && r.value <= k
    decreases y + YTolerance - c
  {
    if c > y + YTolerance then None
    else if c in keys then Some(c)
    else FirstNearKeyFrom(keys, y, c + 1)
  }

  /**
   * `Object.keys(textGroups).map(Number).find(g => Math.abs(g - y) <= 5)`:
   * the keys are listed in ascending order, so the first match is the
   * smallest key within tolerance; `None` when there is none.
   */
  function FindNearKey(keys: set<nat>, y: nat): (r: Option<nat>)
    ensures r.Some? ==> LeastNearKey(keys, y, r.value)
    ensures r.None? ==> forall k :: k in keys ==> !Near(k, y)
  {
    FirstNearKeyFrom(keys, y, if y >= YTolerance then y - YTolerance else 0)
  }

  /**
   * The key of the group a fragment at `y` is pushed to: the first key
   * within tolerance, unless there is none or it is 0 (`... || y`), in which
   * case the fragment's own `y`.
   */
  function GroupKey(groups: Groups, y: nat): (k: nat)
    ensures Near(k, y)
    ensures k == y || (k != 0 && LeastNearKey(groups.Keys, y, k))
    ensures forall g :: LeastNearKey(groups.Keys, y, g) && g != 0 ==> k == g
  {
    match FindNearKey(groups.Keys, y)
    case Some(g) => if g != 0 then g else y
    case None => y
  }

  /** Pushes a fragment onto its group, creating the group if needed. */
  function AddToGroups(groups: Groups, f: Fragment): (r: Groups)
    ensures r.Keys == groups.Keys + {GroupKey(groups, f.y)}
  {
    var k := GroupKey(groups, f.y);
    var e := Entry(f.text, f.x);
    if k in groups then groups[k := groups[k] + [e]] else groups[k := [e]]
  }

  /** The groups after all fragments were pushed, in input order. */
  function GroupAll(frags: seq<Fragment>): (r: Groups)
    ensures forall k :: k in r ==> |r[k]| > 0
  {
    if frags == [] then map[]
    else AddToGroups(GroupAll(frags[..|frags| - 1]), frags[|frags| - 1])
  }

  /** The key each fragment was pushed to, in input order. */
  function Placements(frags: seq<Fragment>): (r: seq<nat>)
    ensures |r| == |frags|
  {
    if frags == [] then []
    else
      var init := frags[..|frags| - 1];
      Placements(init) + [GroupKey(GroupAll(init), frags[|frags| - 1].y)]
  }

  /** The entries of the fragments placed at key `k`, in input order. */
  function EntriesAt(frags: seq<Fragment>, keys: seq<nat>, k: nat): seq<Entry>
    requires |keys| == |frags|
  {
    if frags == [] then []
    else
      var n := |frags| - 1;
      EntriesAt(frags[..n], keys[..n], k)
        + (if keys[n] == k then [Entry(frags[n].text, frags[n].x)] else [])
  }

  // ---------------------------------------------------------------------
  // Ordering lines and fragments
  // ---------------------------------------------------------------------

  ghost function MaxKey(s: set<nat>): (m: nat)
    requires s != {}
    ensures m in s && forall k :: k in s ==> k <= m
  {
    MaxExists(s);
    var m :| m in s && Bounds(s, m); m
  }

  /** `m` is at least every key of `s`. */
  predicate Bounds(s: set<nat>, m: nat)
  {
    forall k :: k in s ==> k <= m
  }

  lemma {:induction false} MaxExists(s: set<nat>)
    requires s != {}
    ensures exists m :: m in s && Bounds(s, m)
  {
    var x :| x in s;
    if s == {x} {
      assert x in s && Bounds(s, x);
    } else {
      var rest := s - {x};
      MaxExists(rest);
      var m :| m in rest && Bounds(rest, m);
      var top := if x > m then x else m;
      assert Bounds(s, top) by {
        forall k | k in s
          ensures k <= top
        {
          if k != x { assert k in rest; }
        }
      }
      assert top in s;
    }
  }

  /** The group keys sorted by `Number(y2) - Number(y1)`: descending. */
  ghost function DescendingKeys(s: set<nat>): seq<nat>
    decreases s
  {
    if s == {} then []
    else
      var m := MaxKey(s);
      [m] + DescendingKeys(s - {m})
  }

  /** The lines are listed once each, strictly top-down. */
  lemma {:induction false} DescendingKeysOrdered(s: set<nat>)
    ensures |DescendingKeys(s)| == |s|
    ensures forall k :: k in DescendingKeys(s) <==> k in s
    ensures forall i, j :: 0 <= i < j < |s| ==> DescendingKeys(s)[i] > DescendingKeys(s)[j]
    decreases s
  {
    if s != {} {
      var m := MaxKey(s);
      var rest := s - {m};
      DescendingKeysOrdered(rest);
      var r := DescendingKeys(s);
      assert r == [m] + DescendingKeys(rest);
      assert |s| == |rest| + 1;
      forall i, j | 0 <= i < j < |s|
        ensures r[i] > r[j]
      {
        if i == 0 {
          assert r[j] in rest;
        }
      }
    }
  }

  /** Inserts `e` after every element whose x is at most `e.x`. */
  function InsertByX(s: seq<Entry>, e: Entry): (r: seq<Entry>)
    ensures |r| == |s| + 1
  {
    if s == [] || s[|s| - 1].x <= e.x then s + [e]
    else InsertByX(s[..|s| - 1], e) + [s[|s| - 1]]
  }

  /** A stable sort by ascending x (the comparator `a.x - b.x`). */
  function SortByX(s: seq<Entry>): (r: seq<Entry>)
    ensures |r| == |s|
  {
    if s == [] then [] else InsertByX(SortByX(s[..|s| - 1]), s[|s| - 1])
  }

  predicate SortedByX(s: seq<Entry>)
  {
    forall i, j :: 0 <= i < j < |s| ==> s[i].x <= s[j].x
  }

  /** The entries whose x is `v`, in order. */
  function WithX(s: seq<Entry>, v: int): seq<Entry>
  {
    if s == [] then []
    else WithX(s[..|s| - 1], v) + (if s[|s| - 1].x == v then [s[|s| - 1]] else [])
  }

  function Texts(es: seq<Entry>): (r: seq<string>)
    ensures |r| == |es| && forall i :: 0 <= i < |es| ==> r[i] == es[i].text
  {
    seq(|es|, i requires 0 <= i < |es| => es[i].text)
  }

  /** `parts.join(sep)`. */
  function Join(parts: seq<string>, sep: string): string
  {
    if parts == [] then ""
    else if |parts| == 1 then parts[0]
    else Join(parts[..|parts| - 1], sep) + sep + parts[|parts| - 1]
  }

  /** One line's text: its entries sorted by x, joined by one space. */
  function LineText(entries: seq<Entry>): string
  {
    Join(Texts(SortByX(entries)), " ")
  }

  /** The texts of the lines keyed by `keys`, in that order. */
  function LineTexts(groups: Groups, keys: seq<nat>): (r: seq<string>)
    requires forall k :: k in keys ==> k in groups
    ensures |r| == |keys|
  {
    if keys == [] then []
    else LineTexts(groups, keys[..|keys| - 1]) + [LineText(groups[keys[|keys| - 1]])]
  }

  ghost function PageTextOf(groups: Groups): string
  {
    DescendingKeysOrdered(groups.Keys);
    Join(LineTexts(groups, DescendingKeys(groups.Keys)), "\n")
  }

  /** The text of a page: its lines top-down joined by `"\n"`. */
  ghost function PageText(items: seq<ContentItem>): (r: string)
    ensures items == [] ==> r == ""
  {
    PageTextOf(GroupAll(Fragments(items)))
  }

  // ---------------------------------------------------------------------
  // The algorithm
  // ---------------------------------------------------------------------

  /** The `forEach` that fills `textGroups`. */
  method GroupFragments(items: seq<ContentItem>) returns (groups: Groups)
    ensures groups == GroupAll(Fragments(items))
  {
    groups := map[];
    for i := 0 to |items|
      invariant groups == GroupAll(Fragments(items[..i]))
    {
      assert items[..i + 1][..i] == items[..i];
      var item := items[i];
      ghost var before := groups;
      if item.TextItem? && !IsBlank(item.str) {
        var y := item.y;
        var found := FindNearKey(groups.Keys, y);
        var closestY := if found.Some? && found.value != 0 then found.value else y;
        if closestY !in groups {
          groups := groups[closestY := []];
        }
        ghost var created := groups;
        groups := groups[closestY := groups[closestY] + [Entry(ReplaceNewlines(item.str), item.x)]];
        PushMatches(before, FragmentOf(item), closestY, created);
        assert Fragments(items[..i + 1]) == Fragments(items[..i]) + [FragmentOf(item)];
      } else {
        assert Fragments(items[..i + 1]) == Fragments(items[..i]);
      }
    }
    assert items[..|items|] == items;
  }

  /** Creating the group when absent and then pushing onto it is `AddToGroups`. */
  lemma PushMatches(before: Groups, f: Fragment, k: nat, created: Groups)
    requires k == GroupKey(before, f.y)
    requires created == if k in before then before else before[k := []]
    ensures created[k := created[k] + [Entry(f.text, f.x)]] == AddToGroups(before, f)
  {
    assert [] + [Entry(f.text, f.x)] == [Entry(f.text, f.x)];
  }

  /**
   * One step of the stable in-place sort: the prefix `a[..i]` is sorted,
   * and `a[i]` is moved left past every entry with a larger x.
   */
  method InsertIntoSorted(a: array<Entry>, i: nat)
    requires i < a.Length
    modifies a
    ensures a[..i + 1] == InsertByX(old(a[..i]), old(a[i]))
    ensures a[i + 1..] == old(a[i + 1..])
  {
    ghost var s := a[..i];
    ghost var tail := a[i + 1..];
    var e := a[i];
    var j := i;
    assert s[..j] == s && s[j..] == [];
    while j > 0 && a[j - 1].x > e.x
      invariant 0 <= j <= i
      invariant a[..] == s[..j] + [a[j]] + s[j..] + tail
      invariant InsertByX(s, e) == InsertByX(s[..j], e) + s[j..]
    {
      ShiftStep(s, e, j);
      ghost var cur := a[..];
      ShiftArray(cur, s, tail, j);
      a[j] := a[j - 1];
      assert a[..] == cur[j := cur[j - 1]];
      j := j - 1;
    }
    ghost var cur := a[..];
    a[j] := e;
    assert a[..] == cur[j := e];
    PlaceEntry(cur, s, e, tail, j);
  }

  lemma PlaceEntry(cur: seq<Entry>, s: seq<Entry>, e: Entry, tail: seq<Entry>, j: nat)
    requires j <= |s| && j < |cur| && cur == s[..j] + [cur[j]] + s[j..] + tail
    requires InsertByX(s, e) == InsertByX(s[..j], e) + s[j..]
    requires j == 0 || s[j - 1].x <= e.x
    ensures cur[j := e][..|s| + 1] == InsertByX(s, e)
    ensures cur[j := e][|s| + 1..] == tail
  {
    assert cur[j := e] == (s[..j] + [e] + s[j..]) + tail;
  }

  lemma ShiftArray(cur: seq<Entry>, s: seq<Entry>, tail: seq<Entry>, j: nat)
    requires 0 < j <= |s| && j < |cur| && cur == s[..j] + [cur[j]] + s[j..] + tail
    ensures cur[j := cur[j - 1]] == s[..j - 1] + [cur[j - 1]] + s[j - 1..] + tail
  {
    assert s[..j] == s[..j - 1] + [s[j - 1]];
    assert s[j - 1..] == [s[j - 1]] + s[j..];
  }

  lemma ShiftStep(s: seq<Entry>, e: Entry, j: nat)
    requires 0 < j <= |s| && s[j - 1].x > e.x
    ensures InsertByX(s[..j], e) + s[j..] == InsertByX(s[..j - 1], e) + s[j - 1..]
  {
    assert s[..j][..j - 1] == s[..j - 1];
    assert s[j - 1..] == [s[j - 1]] + s[j..];
  }

  /** `group.sort((a, b) => a.x - b.x)`: a stable in-place sort of one line. */
  method SortLineInPlace(a: array<Entry>)
    modifies a
    ensures a[..] == SortByX(old(a[..]))
  {
    ghost var input := a[..];
    for i := 0 to a.Length
      invariant a[..i] == SortByX(input[..i])
      invariant a[i..] == input[i..]
    {
      assert a[i] == input[i];
      InsertIntoSorted(a, i);
      assert input[..i + 1][..i] == input[..i];
    }
    assert input[..a.Length] == input;
  }

  /** One line of the page: a copy of the group sorted in place, its texts joined by a space. */
  method SortedLineText(group: seq<Entry>) returns (line: string)
    ensures line == LineText(group)
  {
    var a := new Entry[|group|](j requires 0 <= j < |group| => group[j]);
    assert a[..] == group;
    SortLineInPlace(a);
    line := Join(Texts(a[..]), " ");
  }

  /** The per-page body of `extractText`: grouping, ordering and joining. */
  method ExtractPageText(items: seq<ContentItem>) returns (text: string)
    ensures text == PageText(items)
  {
    var groups := GroupFragments(items);
    var remaining := groups.Keys;
    ghost var done: seq<nat> := [];
    var lines: seq<string> := [];
    while remaining != {}
      invariant remaining <= groups.Keys
      invariant forall k :: k in done ==> k in groups
      invariant DescendingKeys(groups.Keys) == done + DescendingKeys(remaining)
      invariant lines == LineTexts(groups, done)
      decreases remaining
    {
      MaxExists(remaining);
      var k :| k in remaining && Bounds(remaining, k);
      var line := SortedLineText(groups[k]);
      ExtractStep(groups, done, remaining, k);
      lines := lines + [line];
      done := done + [k];
      remaining := remaining - {k};
    }
    text := Join(lines, "\n");
    assert done == DescendingKeys(groups.Keys);
  }

  /** One round of the loop above: the topmost remaining line is emitted next. */
  lemma ExtractStep(groups: Groups, done: seq<nat>, remaining: set<nat>, k: nat)
    requires remaining <= groups.Keys
    requires forall k' :: k' in done ==> k' in groups
    requires DescendingKeys(groups.Keys) == done + DescendingKeys(remaining)
    requires k in remaining && Bounds(remaining, k)
    ensures forall k' :: k' in done + [k] ==> k' in groups
    ensures DescendingKeys(groups.Keys) == (done + [k]) + DescendingKeys(remaining - {k})
    ensures LineTexts(groups, done + [k]) == LineTexts(groups, done) + [LineText(groups[k])]
  {
    DescendingKeysFirst(remaining, k);
    LineTextsSnoc(groups, done, k);
  }

  lemma DescendingKeysFirst(s: set<nat>, k: nat)
    requires k in s && Bounds(s, k)
    ensures DescendingKeys(s) == [k] + DescendingKeys(s - {k})
  {
    assert MaxKey(s) == k;
  }

  lemma LineTextsSnoc(groups: Groups, keys: seq<nat>, k: nat)
    requires forall k' :: k' in keys ==> k' in groups
    requires k in groups
    ensures LineTexts(groups, keys + [k]) == LineTexts(groups, keys) + [LineText(groups[k])]
  {
    assert (keys + [k])[..|keys|] == keys;
  }
}
