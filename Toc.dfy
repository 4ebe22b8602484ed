/** The table-of-contents widget's computations, separated from the DOM:
    the headings it scans, the items it builds, the ids it observes, the
    active-section rule, the progress figure and the per-item helpers. */
module Toc {
  import opened Wrappers
  import opened Decimal
  import opened Slug

  /** The digit of an `h1`..`h6` tag, `parseInt(tagName.charAt(1))`. */
  type HeadingLevel = l: int | 1 <= l <= 6 witness 1

  /** A rendered heading element: its level, its `id` attribute (`""` when it
      has none) and its `textContent` (`None` when null). */
  datatype Heading = Heading(level: HeadingLevel, id: string, textContent: Option<string>)

  datatype TocItem = TocItem(id: string, text: string, level: HeadingLevel)

  /** The optional props of the widget (`className` only styles it). */
  datatype Props = Props(
    maxLevel: Option<int>,
    showNumbers: Option<bool>,
    collapsible: Option<bool>,
    title: Option<string>)

  // ---------------------------------------------------------------------------
  // Prop defaults

  /** `props.maxLevel || 3`: absent and `0` are both falsy. */
  function EffectiveMaxLevel(p: Option<int>): (m: int)
    ensures p == None || p == Some(0) ==> m == 3
    ensures p.Some? && p.value != 0 ==> m == p.value
  {
    match p
    case None => 3
    case Some(v) => if v == 0 then 3 else v
  }

  /** `props.title || "Table of Contents"`: absent and `""` are both falsy. */
  function EffectiveTitle(t: Option<string>): (r: string)
    ensures t == None || t == Some("") ==> r == "Table of Contents"
    ensures t.Some? && t.value != "" ==> r == t.value
    ensures r != ""
  {
    match t
    case None => "Table of Contents"
    case Some(v) => if v == "" then "Table of Contents" else v
  }

  // ---------------------------------------------------------------------------
  // Building the items

  /** `!heading.id`: an empty id attribute counts as none. */
  predicate HasId(h: Heading) {
    h.id != ""
  }

  predicate Qualifies(h: Heading, maxLevel: int) {
    h.level <= maxLevel
  }

  /** The heading as the scan leaves it in the document: a qualifying heading
      without an id gets the id derived from its text. */
  function WithId(h: Heading, maxLevel: int): (r: Heading)
    ensures r.level == h.level && r.textContent == h.textContent
    ensures HasId(h) || !Qualifies(h, maxLevel) ==> r == h
    ensures !HasId(h) && Qualifies(h, maxLevel) ==> r.id == DerivedId(h.textContent)
  {
    if Qualifies(h, maxLevel) && !HasId(h) then h.(id := DerivedId(h.textContent)) else h
  }

  /** The whole document after the scan: headings that had an id, and
      headings deeper than `maxLevel`, are left as they were; every other
      heading gets its derived id and nothing else changes. */
  function AssignIds(hs: seq<Heading>, maxLevel: int): (r: seq<Heading>)
    ensures |r| == |hs|
    ensures forall j :: 0 <= j < |hs| ==>
      r[j].level == hs[j].level && r[j].textContent == hs[j].textContent &&
      (HasId(hs[j]) || !Qualifies(hs[j], maxLevel) ==> r[j] == hs[j]) &&
      (!HasId(hs[j]) && Qualifies(hs[j], maxLevel) ==> r[j].id == DerivedId(hs[j].textContent))
  {
    seq(|hs|, j requires 0 <= j < |hs| => WithId(hs[j], maxLevel))
  }

  /** The record pushed for a heading: its id, its text or `""`, its level. */
  function ItemOf(h: Heading): TocItem {
    TocItem(h.id, h.textContent.GetOr(""), h.level)
  }

  /** The items the scan builds from the headings `hs`, in document order. */
  function TocSpec(hs: seq<Heading>, maxLevel: int): (items: seq<TocItem>)
    ensures |items| <= |hs|
    ensures forall k :: 0 <= k < |items| ==> items[k].level <= maxLevel
  {
    if hs == [] then []
    else
      var last := hs[|hs| - 1];
      TocSpec(hs[..|hs| - 1], maxLevel) +
      (if Qualifies(last, maxLevel) then [ItemOf(WithId(last, maxLevel))] else [])
  }

  /** The positions of the headings with `level <= maxLevel`, increasing. */
  function QualifyingIndices(hs: seq<Heading>, maxLevel: int): (idx: seq<nat>)
    ensures forall k :: 0 <= k < |idx| ==> idx[k] < |hs| && Qualifies(hs[idx[k]], maxLevel)
    ensures forall k, l :: 0 <= k < l < |idx| ==> idx[k] < idx[l]
    ensures forall j :: 0 <= j < |hs| && Qualifies(hs[j], maxLevel) ==> j in idx
  {
    if hs == [] then []
    else
      var rest := QualifyingIndices(hs[..|hs| - 1], maxLevel);
      assert forall k :: 0 <= k < |rest| ==> rest[k] < |hs| - 1;
      rest + (if Qualifies(hs[|hs| - 1], maxLevel) then [|hs| - 1] else [])
  }

  /** The items are exactly the qualifying headings, one each, in document
      order: item `k` comes from the `k`-th qualifying heading, its text is the
      heading's text content or `""`, and its id is the heading's own id when it
      had one and the derived one otherwise. */
  lemma {:induction false} TocMirrorsHeadings(hs: seq<Heading>, maxLevel: int)
    ensures var items, idx := TocSpec(hs, maxLevel), QualifyingIndices(hs, maxLevel);
      |items| == |idx| &&
      forall k :: 0 <= k < |items| ==>
        var h := hs[idx[k]];
        items[k].level == h.level && h.level <= maxLevel &&
        items[k].text == h.textContent.GetOr("") &&
        (HasId(h) ==> items[k].id == h.id) &&
        (!HasId(h) ==> items[k].id == DerivedId(h.textContent)) &&
        items[k].id == AssignIds(hs, maxLevel)[idx[k]].id
  {
    if hs != [] {
      var front := hs[..|hs| - 1];
      TocMirrorsHeadings(front, maxLevel);
      var idx := QualifyingIndices(hs, maxLevel);
      var idx0 := QualifyingIndices(front, maxLevel);
      forall k | 0 <= k < |idx0| ensures hs[idx0[k]] == front[idx0[k]] {
      }
    }
  }

  /** One item per heading with `level <= maxLevel`. */
  lemma TocCount(hs: seq<Heading>, maxLevel: int)
    ensures |TocSpec(hs, maxLevel)| == |QualifyingIndices(hs, maxLevel)|
    ensures (forall j :: 0 <= j < |hs| ==> Qualifies(hs[j], maxLevel)) ==> |TocSpec(hs, maxLevel)| == |hs|
    ensures (forall j :: 0 <= j < |hs| ==> !Qualifies(hs[j], maxLevel)) ==> TocSpec(hs, maxLevel) == []
  {
    TocMirrorsHeadings(hs, maxLevel);
    var idx := QualifyingIndices(hs, maxLevel);
    if forall j :: 0 <= j < |hs| ==> Qualifies(hs[j], maxLevel) {
      IncreasingIndicesCoverAll(idx, |hs|);
    }
  }

  /** An increasing sequence of indices below `n` that contains every index
      below `n` has `n` elements. */
  lemma {:induction false} IncreasingIndicesCoverAll(idx: seq<nat>, n: nat)
    requires forall k :: 0 <= k < |idx| ==> idx[k] < n
    requires forall k, l :: 0 <= k < l < |idx| ==> idx[k] < idx[l]
    requires forall j :: 0 <= j < n ==> j in idx
    ensures |idx| == n
  {
    if n > 0 {
      assert n - 1 in idx;
      var last :| 0 <= last < |idx| && idx[last] == n - 1;
      IncreasingEndsHighest(idx, last);
      assert idx[|idx| - 1] == n - 1;
      var front := idx[..|idx| - 1];
      assert forall k :: 0 <= k < |front| ==> front[k] == idx[k] && idx[k] < idx[|idx| - 1];
      forall j | 0 <= j < n - 1 ensures j in front {
        assert j in idx;
        var k :| 0 <= k < |idx| && idx[k] == j;
        assert k != |idx| - 1;
      }
      IncreasingIndicesCoverAll(front, n - 1);
    }
  }

  lemma IncreasingEndsHighest(idx: seq<nat>, p: nat)
    requires forall k, l :: 0 <= k < l < |idx| ==> idx[k] < idx[l]
    requires p < |idx|
    ensures idx[p] <= idx[|idx| - 1]
  {
  }

  // ---------------------------------------------------------------------------
  // Observed headings

  /** The ids of the headings the intersection observer watches, in document
      order: every heading, of any level, whose id is non-empty. */
  function ObservedIds(hs: seq<Heading>): (ids: seq<string>)
    ensures forall id :: id in ids <==> exists j :: 0 <= j < |hs| && HasId(hs[j]) && hs[j].id == id
  {
    if hs == [] then []
    else
      var last := hs[|hs| - 1];
      var front := ObservedIds(hs[..|hs| - 1]);
      assert forall j :: 0 <= j < |hs| - 1 ==> hs[..|hs| - 1][j] == hs[j];
      front + (if HasId(last) then [last.id] else [])
  }

  /** Every item that got a non-empty id is observed once the scan has run. */
  lemma TocItemsObserved(hs: seq<Heading>, maxLevel: int, k: nat)
    requires k < |TocSpec(hs, maxLevel)|
    requires TocSpec(hs, maxLevel)[k].id != ""
    ensures TocSpec(hs, maxLevel)[k].id in ObservedIds(AssignIds(hs, maxLevel))
  {
    TocMirrorsHeadings(hs, maxLevel);
    var idx := QualifyingIndices(hs, maxLevel);
    var after := AssignIds(hs, maxLevel);
    assert HasId(after[idx[k]]) && after[idx[k]].id == TocSpec(hs, maxLevel)[k].id;
  }

  /** A heading deeper than `maxLevel` that has an id is observed but is no
      item, so it can become the active id while no item matches it. */
  lemma DeepHeadingObservedNotListed(hs: seq<Heading>, maxLevel: int, j: nat)
    requires j < |hs| && HasId(hs[j]) && !Qualifies(hs[j], maxLevel)
    requires forall i :: 0 <= i < |hs| && Qualifies(hs[i], maxLevel) ==> WithId(hs[i], maxLevel).id != hs[j].id
    ensures hs[j].id in ObservedIds(AssignIds(hs, maxLevel))
    ensures FindIndex(TocSpec(hs, maxLevel), hs[j].id) == -1
  {
    var after := AssignIds(hs, maxLevel);
    assert after[j] == hs[j];
    TocMirrorsHeadings(hs, maxLevel);
    var items, idx := TocSpec(hs, maxLevel), QualifyingIndices(hs, maxLevel);
    forall k | 0 <= k < |items| ensures items[k].id != hs[j].id {
      assert items[k].id == after[idx[k]].id;
    }
  }

  // ---------------------------------------------------------------------------
  // Active section

  /** One IntersectionObserver entry: the id of its target and whether it
      now intersects the trigger band. */
  datatype IntersectionEntry = Entry(targetId: string, isIntersecting: bool)

  /** The active id after the callback has processed `entries` in order,
      starting from `current`. */
  function ActiveAfter(entries: seq<IntersectionEntry>, current: string): (r: string)
    ensures r == current ||
      exists k :: 0 <= k < |entries| && entries[k].isIntersecting && entries[k].targetId == r
  {
    if entries == [] then current
    else
      var last := entries[|entries| - 1];
      if last.isIntersecting then last.targetId
      else
        var front := entries[..|entries| - 1];
        assert forall k :: 0 <= k < |front| ==> front[k] == entries[k];
        ActiveAfter(front, current)
  }

  /** With no intersecting entry the active id stays as it was. */
  lemma {:induction false} ActiveUnchangedWithoutIntersection(entries: seq<IntersectionEntry>, current: string)
    requires forall k :: 0 <= k < |entries| ==> !entries[k].isIntersecting
    ensures ActiveAfter(entries, current) == current
  {
    if entries != [] {
      ActiveUnchangedWithoutIntersection(entries[..|entries| - 1], current);
    }
  }

  /** The last intersecting entry of the batch wins, whatever came before. */
  lemma {:induction false} LastIntersectingWins(entries: seq<IntersectionEntry>, current: string, k: nat)
    requires k < |entries| && entries[k].isIntersecting
    requires forall j :: k < j < |entries| ==> !entries[j].isIntersecting
    ensures ActiveAfter(entries, current) == entries[k].targetId
  {
    if k < |entries| - 1 {
      LastIntersectingWins(entries[..|entries| - 1], current, k);
    }
  }

  /** The active id is the old one or the target of an intersecting entry;
      the old one survives only when no entry intersects. */
  lemma {:induction false} ActiveComesFromBatch(entries: seq<IntersectionEntry>, current: string)
    ensures ActiveAfter(entries, current) == current ||
      exists k :: 0 <= k < |entries| && entries[k].isIntersecting && entries[k].targetId == ActiveAfter(entries, current)
    ensures (exists k :: 0 <= k < |entries| && entries[k].isIntersecting) ==>
      exists k :: 0 <= k < |entries| && entries[k].isIntersecting && entries[k].targetId == ActiveAfter(entries, current)
  {
    if entries != [] {
      var front := entries[..|entries| - 1];
      ActiveComesFromBatch(front, current);
      if !entries[|entries| - 1].isIntersecting {
        assert forall k :: 0 <= k < |front| ==> front[k] == entries[k];
      }
    }
  }

  // ---------------------------------------------------------------------------
  // Progress

  /** `findIndex(item => item.id === activeId)`. */
  function FindIndex(items: seq<TocItem>, activeId: string): (r: int)
    ensures -1 <= r < |items|
    ensures r == -1 <==> forall k :: 0 <= k < |items| ==> items[k].id != activeId
    ensures r >= 0 ==> items[r].id == activeId && forall k :: 0 <= k < r ==> items[k].id != activeId
  {
    if items == [] then -1
    else if items[0].id == activeId then 0
    else
      var r := FindIndex(items[1..], activeId);
      if r == -1 then -1 else r + 1
  }

  /** `Math.round(num / den)` on exact rationals: halves round up. */
  function RoundHalfUp(num: nat, den: nat): (r: nat)
    requires den > 0
    ensures 2 * den * r <= 2 * num + den < 2 * den * (r + 1)
  {
    (2 * num + den) / (2 * den)
  }

  /** `Math.round(((findIndex + 1) / items.length) * 100)`, shown only when
      there is at least one item. */
  function Progress(items: seq<TocItem>, activeId: string): (p: nat)
    requires |items| > 0
    ensures p <= 100
    ensures FindIndex(items, activeId) == -1 ==> p == 0
  {
    var done := FindIndex(items, activeId) + 1;
    ProgressBound(done, |items|);
    RoundHalfUp(100 * done, |items|)
  }

  lemma ProgressBound(done: nat, n: nat)
    requires 0 < n && done <= n
    ensures RoundHalfUp(100 * done, n) <= 100
    ensures done == 0 ==> RoundHalfUp(100 * done, n) == 0
  {
    var r := RoundHalfUp(100 * done, n);
    assert 200 * done <= 200 * n;
    assert 2 * n * r < 2 * n * 101;
    LessFromProduct(2 * n, r, 101);
    if done == 0 {
      assert 2 * n * r < 2 * n * 1;
      LessFromProduct(2 * n, r, 1);
    }
  }

  /** Cancelling a positive factor keeps a strict inequality. */
  lemma LessFromProduct(c: int, a: int, b: int)
    requires c > 0 && c * a < c * b
    ensures a < b
  {
    assert c * (b - a) > 0;
  }

  lemma RoundHalfUpMonotone(a: nat, b: nat, den: nat)
    requires den > 0 && a <= b
    ensures RoundHalfUp(a, den) <= RoundHalfUp(b, den)
  {
    var ra, rb := RoundHalfUp(a, den), RoundHalfUp(b, den);
    assert 2 * den * ra < 2 * den * (rb + 1);
    LessFromProduct(2 * den, ra, rb + 1);
  }

  /** The progress figure never falls as the active item moves down the list. */
  lemma ProgressMonotone(items: seq<TocItem>, a: string, b: string)
    requires |items| > 0
    requires FindIndex(items, a) <= FindIndex(items, b)
    ensures Progress(items, a) <= Progress(items, b)
  {
    RoundHalfUpMonotone(100 * (FindIndex(items, a) + 1), 100 * (FindIndex(items, b) + 1), |items|);
  }

  /** The last item reads as complete. */
  lemma ProgressAtLastItem(items: seq<TocItem>, activeId: string)
    requires |items| > 0
    requires FindIndex(items, activeId) == |items| - 1
    ensures Progress(items, activeId) == 100
  {
    var n := |items|;
    var r := RoundHalfUp(100 * n, n);
    assert 2 * n * 100 < 2 * n * (r + 1);
    LessFromProduct(2 * n, 100, r + 1);
    ProgressBound(n, n);
  }

  /** Five items with the third active: round(3 / 5 * 100) = 60. */
  lemma ProgressExample(items: seq<TocItem>, activeId: string)
    requires |items| == 5 && FindIndex(items, activeId) == 2
    ensures Progress(items, activeId) == 60
  {
  }

  /** A match does not guarantee a non-zero figure: with 201 items and the
      first one active, round(1 / 201 * 100) = 0. */
  lemma ProgressZeroWithMatch(items: seq<TocItem>, activeId: string)
    requires |items| == 201 && FindIndex(items, activeId) == 0
    ensures Progress(items, activeId) == 0
  {
  }

  // ---------------------------------------------------------------------------
  // Per-item helpers

  /** `getIndentClass`: the padding class of a heading level. Each level
      below the first indents four more units than the one above, and any
      level outside 1..6 gets `pl-0`. */
  function IndentClass(level: int): (r: string)
    ensures r == "pl-" + NatToString(if 1 <= level <= 6 then 4 * (level - 1) else 0)
  {
    assert NatToString(12) == NatToString(1) + [DigitChar(2)];
    assert NatToString(16) == NatToString(1) + [DigitChar(6)];
    assert NatToString(20) == NatToString(2) + [DigitChar(0)];
    if level == 1 then "pl-0"
    else if level == 2 then "pl-4"
    else if level == 3 then "pl-8"
    else if level == 4 then "pl-12"
    else if level == 5 then "pl-16"
    else if level == 6 then "pl-20"
    else "pl-0"
  }

  /** `getNumbering(index, level)`: `""` when numbers are switched off, and
      otherwise the flat ordinal `index + 1` in decimal followed by a dot,
      whatever the level. */
  function Numbering(showNumbers: bool, index: nat, level: int): (tag: string)
    ensures !showNumbers ==> tag == ""
    ensures showNumbers ==>
      |tag| >= 2 && tag[|tag| - 1] == '.' &&
      (forall i :: 0 <= i < |tag| - 1 ==> IsDigit(tag[i])) &&
      ParseNat(tag[..|tag| - 1]) == index + 1
  {
    if !showNumbers then ""
    else
      var digits := IntToString(index + 1);
      assert (digits + ".")[..|digits|] == digits;
      ParseNatToString(index + 1);
      digits + "."
  }

  /** Distinct positions get distinct labels. */
  lemma NumberingDistinct(i: nat, j: nat, li: int, lj: int)
    requires i != j
    ensures Numbering(true, i, li) != Numbering(true, j, lj)
  {
  }
}
