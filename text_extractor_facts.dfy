/**
 * Properties of the reading-order reconstruction: which items count, how
 * fragments are placed into lines, how lines and fragments are ordered, and
 * the shape of the page text.
 */
module TextExtractorFacts {
  import opened Records
  import opened TextExtractor

  // ---------------------------------------------------------------------
  // Skipped items
  // ---------------------------------------------------------------------

  lemma {:induction false} FragmentsAppend(a: seq<ContentItem>, b: seq<ContentItem>)
    ensures Fragments(a + b) == Fragments(a) + Fragments(b)
    decreases |b|
  {
    if b == [] {
      assert a + b == a;
    } else {
      var b', last := b[..|b| - 1], b[|b| - 1];
      var tail := if Kept(last) then [FragmentOf(last)] else [];
      assert a + b == (a + b') + [last];
      assert b == b' + [last];
      calc {
        Fragments(a + b);
        Fragments((a + b') + [last]);
        { FragmentsSnoc(a + b', last); }
        Fragments(a + b') + tail;
        { FragmentsAppend(a, b'); }
        (Fragments(a) + Fragments(b')) + tail;
        Fragments(a) + (Fragments(b') + tail);
        { FragmentsSnoc(b', last); }
        Fragments(a) + Fragments(b' + [last]);
      }
    }
  }

  /** One more item adds its fragment when it is kept, and nothing when it is skipped. */
  lemma FragmentsSnoc(s: seq<ContentItem>, x: ContentItem)
    ensures Fragments(s + [x]) == Fragments(s) + (if Kept(x) then [FragmentOf(x)] else [])
  {
    assert (s + [x])[..|s|] == s;
  }

  /**
   * A marked-content item, or a text item whose string trims to empty,
   * contributes nothing: the page text is the same without it.
   */
  lemma SkippedItemContributesNothing(xs: seq<ContentItem>, item: ContentItem, ys: seq<ContentItem>)
    requires !Kept(item)
    ensures PageText(xs + [item] + ys) == PageText(xs + ys)
  {
    FragmentsAppend(xs + [item], ys);
    FragmentsAppend(xs, [item]);
    FragmentsAppend(xs, ys);
    assert [item][..0] == [];
    assert Fragments([item]) == [];
  }

  // ---------------------------------------------------------------------
  // Placing fragments into lines
  // ---------------------------------------------------------------------

  lemma {:induction false} EntriesAtAbsent(frags: seq<Fragment>, keys: seq<nat>, k: nat)
    requires |keys| == |frags| && k !in keys
    ensures EntriesAt(frags, keys, k) == []
    decreases |frags|
  {
    if frags != [] {
      var n := |frags| - 1;
      assert k !in keys[..n];
      EntriesAtAbsent(frags[..n], keys[..n], k);
    }
  }

  /**
   * Every kept fragment is placed in exactly one line: the key it was
   * placed at exists and is within tolerance of its y, the keys are exactly
   * the placements, and each line holds exactly the fragments placed at
   * its key, in input order.
   */
  lemma GroupingSound(frags: seq<Fragment>)
    ensures forall i :: 0 <= i < |frags| ==>
      Placements(frags)[i] in GroupAll(frags) && Near(Placements(frags)[i], frags[i].y)
    ensures forall k :: k in GroupAll(frags) <==> k in Placements(frags)
    ensures forall k :: k in GroupAll(frags) ==>
      GroupAll(frags)[k] == EntriesAt(frags, Placements(frags), k)
  {
    PlacementsNear(frags);
    KeysArePlacements(frags);
    GroupsAreEntriesAt(frags);
  }

  lemma {:induction false} PlacementsNear(frags: seq<Fragment>)
    ensures forall i :: 0 <= i < |frags| ==>
      Placements(frags)[i] in GroupAll(frags) && Near(Placements(frags)[i], frags[i].y)
    decreases |frags|
  {
    if frags != [] {
      var n := |frags| - 1;
      var init, f := frags[..n], frags[n];
      PlacementsNear(init);
      var g, p := GroupAll(init), Placements(init);
      assert GroupAll(frags) == AddToGroups(g, f);
      assert Placements(frags) == p + [GroupKey(g, f.y)];
      forall i | 0 <= i < n
        ensures Placements(frags)[i] in GroupAll(frags) && Near(Placements(frags)[i], frags[i].y)
      {
        assert Placements(frags)[i] == p[i];
        assert frags[i] == init[i];
      }
    }
  }

  lemma {:induction false} KeysArePlacements(frags: seq<Fragment>)
    ensures forall k :: k in GroupAll(frags) <==> k in Placements(frags)
    decreases |frags|
  {
    if frags != [] {
      var n := |frags| - 1;
      var init, f := frags[..n], frags[n];
      KeysArePlacements(init);
      assert GroupAll(frags) == AddToGroups(GroupAll(init), f);
      assert Placements(frags) == Placements(init) + [GroupKey(GroupAll(init), f.y)];
    }
  }

  lemma {:induction false} GroupsAreEntriesAt(frags: seq<Fragment>)
    ensures forall k :: k in GroupAll(frags) ==>
      GroupAll(frags)[k] == EntriesAt(frags, Placements(frags), k)
    decreases |frags|
  {
    if frags != [] {
      var n := |frags| - 1;
      var init, f := frags[..n], frags[n];
      GroupsAreEntriesAt(init);
      KeysArePlacements(init);
      var g, p := GroupAll(init), Placements(init);
      var key := GroupKey(g, f.y);
      assert GroupAll(frags) == AddToGroups(g, f);
      assert Placements(frags) == p + [key];
      assert (p + [key])[..n] == p;
      forall k | k in GroupAll(frags)
        ensures GroupAll(frags)[k] == EntriesAt(frags, Placements(frags), k)
      {
        assert EntriesAt(frags, p + [key], k)
          == EntriesAt(init, p, k) + (if key == k then [Entry(f.text, f.x)] else []);
        if k == key && key !in g {
          EntriesAtAbsent(init, p, k);
        }
      }
    }
  }

  /**
   * Keys never change once created and a group only ever grows at its end:
   * later fragments neither move nor remove what earlier ones placed.
   */
  lemma {:induction false} GroupsOnlyGrow(frags: seq<Fragment>, more: seq<Fragment>)
    ensures Placements(frags + more)[..|frags|] == Placements(frags)
    ensures forall k :: k in GroupAll(frags) ==>
      k in GroupAll(frags + more) && GroupAll(frags)[k] <= GroupAll(frags + more)[k]
    decreases |more|
  {
    if more == [] {
      assert frags + more == frags;
    } else {
      var m := more[..|more| - 1];
      GroupsOnlyGrow(frags, m);
      var all := frags + more;
      assert all[..|all| - 1] == frags + m;
      PlacementsSnoc(frags, m, all);
      GroupsGrowSnoc(frags, m, all);
    }
  }

  lemma PlacementsSnoc(frags: seq<Fragment>, m: seq<Fragment>, all: seq<Fragment>)
    requires all != [] && all[..|all| - 1] == frags + m
    requires Placements(frags + m)[..|frags|] == Placements(frags)
    ensures Placements(all)[..|frags|] == Placements(frags)
  {
    assert Placements(all) == Placements(frags + m) + [GroupKey(GroupAll(frags + m), all[|all| - 1].y)];
  }

  lemma GroupsGrowSnoc(frags: seq<Fragment>, m: seq<Fragment>, all: seq<Fragment>)
    requires all != [] && all[..|all| - 1] == frags + m
    requires forall k :: k in GroupAll(frags) ==>
      k in GroupAll(frags + m) && GroupAll(frags)[k] <= GroupAll(frags + m)[k]
    ensures forall k :: k in GroupAll(frags) ==>
      k in GroupAll(all) && GroupAll(frags)[k] <= GroupAll(all)[k]
  {
    var before := GroupAll(frags + m);
    assert GroupAll(all) == AddToGroups(before, all[|all| - 1]);
    AddToGroupsGrows(before, all[|all| - 1]);
  }

  /** Pushing one fragment keeps every existing key and only appends to one group. */
  lemma AddToGroupsGrows(groups: Groups, f: Fragment)
    ensures forall k :: k in groups ==> k in AddToGroups(groups, f) && groups[k] <= AddToGroups(groups, f)[k]
  {
  }

  /**
   * The falsy key 0: once a line is keyed 0, a fragment at a small positive
   * y within tolerance of it goes to the line keyed by its own y, opening
   * it if absent, instead of joining line 0, even when another key is near.
   */
  lemma ZeroKeyNeverJoined(groups: Groups, y: nat)
    requires 0 in groups && 0 < y <= YTolerance
    ensures GroupKey(groups, y) == y
  {
    assert LeastNearKey(groups.Keys, y, 0);
  }

  // ---------------------------------------------------------------------
  // Ordering within a line
  // ---------------------------------------------------------------------

  lemma {:induction false} InsertByXPermutes(s: seq<Entry>, e: Entry)
    ensures multiset(InsertByX(s, e)) == multiset(s) + multiset{e}
    decreases |s|
  {
    if s != [] && s[|s| - 1].x > e.x {
      var init := s[..|s| - 1];
      InsertByXPermutes(init, e);
      assert s == init + [s[|s| - 1]];
    }
  }

  lemma {:induction false} InsertByXSorted(s: seq<Entry>, e: Entry)
    requires SortedByX(s)
    ensures SortedByX(InsertByX(s, e))
    decreases |s|
  {
    if s != [] && s[|s| - 1].x > e.x {
      var init, last := s[..|s| - 1], s[|s| - 1];
      InsertByXSorted(init, e);
      InsertByXPermutes(init, e);
      var r := InsertByX(init, e);
      forall i | 0 <= i < |r|
        ensures r[i].x <= last.x
      {
        assert r[i] in multiset(r);
        if r[i] != e {
          assert r[i] in multiset(init);
          var j :| 0 <= j < |init| && init[j] == r[i];
        }
      }
    }
  }

  lemma {:induction false} InsertByXStable(s: seq<Entry>, e: Entry, v: int)
    ensures WithX(InsertByX(s, e), v) == WithX(s, v) + (if e.x == v then [e] else [])
    decreases |s|
  {
    if s == [] || s[|s| - 1].x <= e.x {
      WithXSnoc(s, e, v);
    } else {
      var init, last := s[..|s| - 1], s[|s| - 1];
      var r := InsertByX(init, e);
      assert InsertByX(s, e) == r + [last];
      InsertByXStable(init, e, v);
      WithXSnoc(r, last, v);
      WithXSnoc(init, last, v);
      assert init + [last] == s;
    }
  }

  lemma WithXSnoc(s: seq<Entry>, e: Entry, v: int)
    ensures WithX(s + [e], v) == WithX(s, v) + (if e.x == v then [e] else [])
  {
    assert (s + [e])[..|s|] == s;
  }

  /** Within a line, fragments are in ascending x. */
  lemma {:induction false} SortByXSorted(s: seq<Entry>)
    ensures SortedByX(SortByX(s))
    decreases |s|
  {
    if s != [] {
      SortByXSorted(s[..|s| - 1]);
      InsertByXSorted(SortByX(s[..|s| - 1]), s[|s| - 1]);
    }
  }

  /** Sorting a line keeps exactly its fragments. */
  lemma {:induction false} SortByXPermutes(s: seq<Entry>)
    ensures multiset(SortByX(s)) == multiset(s)
    decreases |s|
  {
    if s != [] {
      var init := s[..|s| - 1];
      SortByXPermutes(init);
      InsertByXPermutes(SortByX(init), s[|s| - 1]);
      assert s == init + [s[|s| - 1]];
    }
  }

  /** Fragments with equal x keep their arrival order (the sort is stable). */
  lemma {:induction false} SortByXStable(s: seq<Entry>, v: int)
    ensures WithX(SortByX(s), v) == WithX(s, v)
    decreases |s|
  {
    if s != [] {
      var init := s[..|s| - 1];
      SortByXStable(init, v);
      InsertByXStable(SortByX(init), s[|s| - 1], v);
    }
  }

  // ---------------------------------------------------------------------
  // The shape of the page text
  // ---------------------------------------------------------------------

  function CountNewlines(s: string): nat
  {
    if s == [] then 0
    else CountNewlines(s[..|s| - 1]) + (if s[|s| - 1] == '\n' then 1 else 0)
  }

  lemma {:induction false} CountNewlinesAppend(a: string, b: string)
    ensures CountNewlines(a + b) == CountNewlines(a) + CountNewlines(b)
    decreases |b|
  {
    if b == [] {
      assert a + b == a;
    } else {
      CountNewlinesAppend(a, b[..|b| - 1]);
      assert (a + b)[..|a + b| - 1] == a + b[..|b| - 1];
      assert (a + b)[|a + b| - 1] == b[|b| - 1];
    }
  }

  lemma {:induction false} NoNewlineCountsZero(s: string)
    requires '\n' !in s
    ensures CountNewlines(s) == 0
    decreases |s|
  {
    if s != [] {
      NoNewlineCountsZero(s[..|s| - 1]);
    }
  }

  ghost predicate NewlineFree(parts: seq<string>)
  {
    forall i :: 0 <= i < |parts| ==> '\n' !in parts[i]
  }

  /** Joining newline-free parts by `sep` puts exactly one `sep` between neighbours. */
  lemma {:induction false} JoinNewlines(parts: seq<string>, sep: string)
    requires NewlineFree(parts) && parts != []
    ensures CountNewlines(Join(parts, sep)) == (|parts| - 1) * CountNewlines(sep)
    decreases |parts|
  {
    var last := parts[|parts| - 1];
    NoNewlineCountsZero(last);
    if |parts| > 1 {
      var init := parts[..|parts| - 1];
      assert NewlineFree(init) by {
        forall i | 0 <= i < |init| ensures '\n' !in init[i] {
          assert init[i] == parts[i];
        }
      }
      JoinNewlines(init, sep);
      var j := Join(init, sep);
      assert Join(parts, sep) == j + sep + last;
      CountNewlinesAppend(j + sep, last);
      CountNewlinesAppend(j, sep);
      assert CountNewlines(Join(parts, sep)) == (|init| - 1) * CountNewlines(sep) + CountNewlines(sep);
    }
  }

  ghost predicate EntriesNewlineFree(es: seq<Entry>)
  {
    forall i :: 0 <= i < |es| ==> '\n' !in es[i].text
  }

  lemma {:induction false} FragmentsNewlineFree(items: seq<ContentItem>)
    ensures forall i :: 0 <= i < |Fragments(items)| ==> '\n' !in Fragments(items)[i].text
    decreases |items|
  {
    if items != [] {
      FragmentsNewlineFree(items[..|items| - 1]);
    }
  }

  lemma {:induction false} GroupsNewlineFree(frags: seq<Fragment>)
    requires forall i :: 0 <= i < |frags| ==> '\n' !in frags[i].text
    ensures forall k :: k in GroupAll(frags) ==> EntriesNewlineFree(GroupAll(frags)[k])
    decreases |frags|
  {
    if frags != [] {
      GroupsNewlineFree(frags[..|frags| - 1]);
    }
  }

  lemma LineNewlineFree(es: seq<Entry>)
    requires EntriesNewlineFree(es)
    ensures '\n' !in LineText(es)
  {
    var sorted := SortByX(es);
    SortedNewlineFree(es);
    var texts := Texts(sorted);
    if texts != [] {
      JoinNewlines(texts, " ");
      if '\n' in Join(texts, " ") {
        CountPositive(Join(texts, " "));
      }
    }
  }

  lemma SortedNewlineFree(es: seq<Entry>)
    requires EntriesNewlineFree(es)
    ensures EntriesNewlineFree(SortByX(es))
  {
    var sorted := SortByX(es);
    SortByXPermutes(es);
    forall i | 0 <= i < |sorted|
      ensures '\n' !in sorted[i].text
    {
      assert sorted[i] in multiset(es);
      var j :| 0 <= j < |es| && es[j] == sorted[i];
    }
  }

  lemma {:induction false} CountPositive(s: string)
    requires '\n' in s
    ensures CountNewlines(s) > 0
    decreases |s|
  {
    if s[|s| - 1] != '\n' {
      assert s == s[..|s| - 1] + [s[|s| - 1]];
      CountPositive(s[..|s| - 1]);
    }
  }

  lemma {:induction false} LineTextsNewlineFree(groups: Groups, keys: seq<nat>)
    requires forall k :: k in keys ==> k in groups
    requires forall k :: k in groups ==> EntriesNewlineFree(groups[k])
    ensures NewlineFree(LineTexts(groups, keys))
    decreases |keys|
  {
    if keys != [] {
      LineTextsNewlineFree(groups, keys[..|keys| - 1]);
      LineNewlineFree(groups[keys[|keys| - 1]]);
    }
  }

  /**
   * Embedded newlines became spaces, so the page text has exactly one
   * `"\n"` fewer than it has lines, and none at all when no item is kept.
   */
  lemma PageTextNewlines(items: seq<ContentItem>)
    ensures var lines := |GroupAll(Fragments(items))|;
      CountNewlines(PageText(items)) == if lines == 0 then 0 else lines - 1
  {
    FragmentsNewlineFree(items);
    GroupsNewlineFree(Fragments(items));
    PageTextOfNewlines(GroupAll(Fragments(items)));
  }

  lemma PageTextOfNewlines(groups: Groups)
    requires forall k :: k in groups ==> EntriesNewlineFree(groups[k])
    ensures CountNewlines(PageTextOf(groups)) == if |groups| == 0 then 0 else |groups| - 1
  {
    DescendingKeysOrdered(groups.Keys);
    var keys := DescendingKeys(groups.Keys);
    var lines := LineTexts(groups, keys);
    assert PageTextOf(groups) == Join(lines, "\n");
    assert |lines| == |groups| by {
      assert |groups.Keys| == |groups|;
    }
    if lines != [] {
      LineTextsNewlineFree(groups, keys);
      JoinNewlines(lines, "\n");
      assert CountNewlines("\n") == 1 by {
        assert "\n"[..0] == [];
      }
    }
  }

  /** No kept fragment gives the empty page text, and only then. */
  lemma PageTextEmptyIff(items: seq<ContentItem>)
    ensures PageText(items) == "" <==> Fragments(items) == []
  {
    var frags := Fragments(items);
    if frags != [] {
      var groups := GroupAll(frags);
      GroupingSound(frags);
      assert Placements(frags)[0] in groups;
      DescendingKeysOrdered(groups.Keys);
      var keys := DescendingKeys(groups.Keys);
      var lines := LineTexts(groups, keys);
      FragmentsNonBlank(items);
      GroupsNonEmptyText(frags);
      assert |keys| > 0;
      LastLineNonEmpty(groups, keys);
      JoinEndsWithLast(lines, "\n");
    }
  }

  lemma {:induction false} FragmentsNonBlank(items: seq<ContentItem>)
    ensures forall i :: 0 <= i < |Fragments(items)| ==> Fragments(items)[i].text != ""
    decreases |items|
  {
    if items != [] {
      FragmentsNonBlank(items[..|items| - 1]);
    }
  }

  lemma {:induction false} GroupsNonEmptyText(frags: seq<Fragment>)
    requires forall i :: 0 <= i < |frags| ==> frags[i].text != ""
    ensures forall k :: k in GroupAll(frags) ==>
      GroupAll(frags)[k] != [] && forall j :: 0 <= j < |GroupAll(frags)[k]| ==> GroupAll(frags)[k][j].text != ""
    decreases |frags|
  {
    if frags != [] {
      GroupsNonEmptyText(frags[..|frags| - 1]);
    }
  }

  lemma LastLineNonEmpty(groups: Groups, keys: seq<nat>)
    requires keys != [] && forall k :: k in keys ==> k in groups
    requires forall k :: k in groups ==>
      groups[k] != [] && forall j :: 0 <= j < |groups[k]| ==> groups[k][j].text != ""
    ensures LineTexts(groups, keys)[|keys| - 1] != ""
  {
    var es := groups[keys[|keys| - 1]];
    var sorted := SortByX(es);
    SortByXPermutes(es);
    assert es[0] in multiset(sorted);
    var texts := Texts(sorted);
    assert sorted[|sorted| - 1] in multiset(es);
    JoinEndsWithLast(texts, " ");
  }

  /** A join of a non-empty list ends with its last part. */
  lemma JoinEndsWithLast(parts: seq<string>, sep: string)
    requires parts != []
    ensures |Join(parts, sep)| >= |parts[|parts| - 1]|
    ensures parts[|parts| - 1] != "" ==> Join(parts, sep) != ""
  {
  }
}
