/** The mounted table-of-contents widget: its reactive state as the fields of
    a class, one method per event that changes it, and the document whose
    heading ids the scan writes. */
module TocWidget {
  import opened Wrappers
  import opened Slug
  import opened Toc
  import opened Decimal

  /** The rendered page, as far as the widget sees it: its headings in
      document order. The scan assigns ids to them in place. */
  class Document {
    var headings: seq<Heading>

    constructor (headings: seq<Heading>)
      ensures this.headings == headings
    {
      this.headings := headings;
    }
  }

  class TableOfContents {
    const maxLevel: int
    const showNumbers: bool
    const collapsible: bool
    const title: string

    var tocItems: seq<TocItem>
    var activeId: string
    var isCollapsed: bool
    var isSticky: bool

    /** The widget as created: props resolved to their defaults, no items,
        no active section, expanded and not stuck. */
    constructor (props: Props)
      ensures maxLevel == EffectiveMaxLevel(props.maxLevel)
      ensures showNumbers == props.showNumbers.GetOr(true)
      ensures collapsible == props.collapsible.GetOr(true)
      ensures title == EffectiveTitle(props.title)
      ensures tocItems == [] && activeId == "" && !isCollapsed && !isSticky
    {
      maxLevel := EffectiveMaxLevel(props.maxLevel);
      showNumbers := props.showNumbers.GetOr(true);
      collapsible := props.collapsible.GetOr(true);
      title := EffectiveTitle(props.title);
      tocItems := [];
      activeId := "";
      isCollapsed := false;
      isSticky := false;
    }

    /** Whether the `nav` element (and so the reference used by the scroll
        handler, the collapse button and the progress bar) is rendered. */
    predicate Rendered()
      reads this
    {
      |tocItems| > 0
    }

    /** `generateToc`: walk the headings in document order, give each
        qualifying heading without an id its derived id, and collect one item
        per qualifying heading. */
    method GenerateToc(doc: Document)
      modifies this`tocItems, doc
      ensures tocItems == TocSpec(old(doc.headings), maxLevel)
      ensures doc.headings == AssignIds(old(doc.headings), maxLevel)
    {
      ghost var hs := doc.headings;
      var items: seq<TocItem> := [];
      var i := 0;
      while i < |doc.headings|
        invariant 0 <= i <= |doc.headings| == |hs|
        invariant forall j :: 0 <= j < i ==> doc.headings[j] == WithId(hs[j], maxLevel)
        invariant forall j :: i <= j < |hs| ==> doc.headings[j] == hs[j]
        invariant items == TocSpec(hs[..i], maxLevel)
      {
        var heading := doc.headings[i];
        if heading.level <= maxLevel {
          if heading.id == "" {
            heading := heading.(id := DerivedId(heading.textContent));
            doc.headings := doc.headings[i := heading];
          }
          items := items + [TocItem(heading.id, heading.textContent.GetOr(""), heading.level)];
        }
        assert hs[..i + 1][..i] == hs[..i];
        i := i + 1;
      }
      assert hs[..i] == hs;
      tocItems := items;
    }

    /** `setupIntersectionObserver`: the headings it observes, by id. Every
        heading that has an id is observed, whatever its level. */
    method ObservedTargets(doc: Document) returns (targets: seq<string>)
      ensures targets == ObservedIds(doc.headings)
    {
      targets := [];
      var i := 0;
      while i < |doc.headings|
        invariant 0 <= i <= |doc.headings|
        invariant targets == ObservedIds(doc.headings[..i])
      {
        var heading := doc.headings[i];
        if heading.id != "" {
          targets := targets + [heading.id];
        }
        assert doc.headings[..i + 1][..i] == doc.headings[..i];
        i := i + 1;
      }
      assert doc.headings[..i] == doc.headings;
    }

    /** `onMount`: the scan runs first, so the observer also watches the
        headings that have just received derived ids. */
    method Mount(doc: Document) returns (targets: seq<string>)
      modifies this`tocItems, doc
      ensures tocItems == TocSpec(old(doc.headings), maxLevel)
      ensures doc.headings == AssignIds(old(doc.headings), maxLevel)
      ensures targets == ObservedIds(doc.headings)
      ensures forall k :: 0 <= k < |tocItems| && tocItems[k].id != "" ==> tocItems[k].id in targets
    {
      GenerateToc(doc);
      targets := ObservedTargets(doc);
      forall k | 0 <= k < |tocItems| && tocItems[k].id != "" ensures tocItems[k].id in targets {
        TocItemsObserved(old(doc.headings), maxLevel, k);
      }
    }

    /** The observer callback: for each entry in delivery order, an
        intersecting entry makes its target's id the active one. */
    method OnIntersection(entries: seq<IntersectionEntry>)
      modifies this`activeId
      ensures activeId == ActiveAfter(entries, old(activeId))
    {
      var i := 0;
      while i < |entries|
        invariant 0 <= i <= |entries|
        invariant activeId == ActiveAfter(entries[..i], old(activeId))
      {
        var entry := entries[i];
        if entry.isIntersecting {
          activeId := entry.targetId;
        }
        assert entries[..i + 1][..i] == entries[..i];
        i := i + 1;
      }
      assert entries[..i] == entries;
    }

    /** `handleScroll`, given the top of the widget's bounding box: stuck
        exactly when that top is at most 20 pixels below the viewport top.
        Before the `nav` is rendered there is no box and nothing changes. */
    method HandleScroll(top: real)
      modifies this`isSticky
      ensures isSticky == if Rendered() then top <= 20.0 else old(isSticky)
    {
      if Rendered() {
        isSticky := top <= 20.0;
      }
    }

    /** The collapse button, which exists only on a rendered, collapsible widget. */
    method ToggleCollapsed()
      requires collapsible && Rendered()
      modifies this`isCollapsed
      ensures isCollapsed == !old(isCollapsed)
    {
      isCollapsed := !isCollapsed;
    }

    /** The progress figure shown under the list. */
    function ProgressPercent(): (p: nat)
      reads this
      requires Rendered()
      ensures p <= 100
      ensures FindIndex(tocItems, activeId) == -1 ==> p == 0
    {
      Progress(tocItems, activeId)
    }

    /** Whether an item is drawn as the active one. */
    predicate IsActive(item: TocItem)
      reads this
    {
      activeId == item.id
    }

    /** `getNumbering` with the widget's `showNumbers`: no label when numbers
        are off, otherwise the ordinal `index + 1` and a dot. */
    function GetNumbering(index: nat, level: int): (tag: string)
      ensures !showNumbers ==> tag == ""
      ensures showNumbers ==>
        |tag| >= 2 && tag[|tag| - 1] == '.' &&
        (forall i :: 0 <= i < |tag| - 1 ==> IsDigit(tag[i])) &&
        ParseNat(tag[..|tag| - 1]) == index + 1
    {
      Numbering(showNumbers, index, level)
    }
  }

  /** Some item is drawn active exactly when the progress bar finds a match,
      and with distinct item ids at most one item is drawn active. */
  lemma ActiveItemMatchesProgress(w: TableOfContents)
    ensures (exists k :: 0 <= k < |w.tocItems| && w.IsActive(w.tocItems[k])) <==>
      FindIndex(w.tocItems, w.activeId) >= 0
    ensures (forall i, j :: 0 <= i < j < |w.tocItems| ==> w.tocItems[i].id != w.tocItems[j].id) ==>
      forall i, j :: (0 <= i < |w.tocItems| && 0 <= j < |w.tocItems| &&
        w.IsActive(w.tocItems[i]) && w.IsActive(w.tocItems[j])) ==> i == j
  {
  }

  /** Two clicks on the collapse button restore the previous state. */
  method ToggleTwice(w: TableOfContents)
    requires w.collapsible && w.Rendered()
    modifies w
    ensures w.isCollapsed == old(w.isCollapsed)
    ensures w.tocItems == old(w.tocItems) && w.activeId == old(w.activeId) && w.isSticky == old(w.isSticky)
  {
    w.ToggleCollapsed();
    w.ToggleCollapsed();
  }

  /** A mount followed by one batch of intersections: when the last
      intersecting entry names a heading deeper than `maxLevel`, no item is
      active and progress reads 0. */
  method MountThenScroll(doc: Document, props: Props, entries: seq<IntersectionEntry>, j: nat)
      returns (w: TableOfContents, progress: nat)
    requires j < |doc.headings| && HasId(doc.headings[j])
    requires !Qualifies(doc.headings[j], EffectiveMaxLevel(props.maxLevel))
    requires forall i :: 0 <= i < |doc.headings| && Qualifies(doc.headings[i], EffectiveMaxLevel(props.maxLevel)) ==>
      WithId(doc.headings[i], EffectiveMaxLevel(props.maxLevel)).id != doc.headings[j].id
    requires exists i :: 0 <= i < |doc.headings| && Qualifies(doc.headings[i], EffectiveMaxLevel(props.maxLevel))
    requires |entries| > 0 && entries[|entries| - 1] == Entry(doc.headings[j].id, true)
    modifies doc
    ensures fresh(w)
    ensures w.activeId == old(doc.headings[j].id) && w.activeId in ObservedIds(doc.headings)
    ensures progress == 0
  {
    ghost var hs := doc.headings;
    w := new TableOfContents(props);
    var targets := w.Mount(doc);
    DeepHeadingObservedNotListed(hs, w.maxLevel, j);
    w.OnIntersection(entries);
    LastIntersectingWins(entries, "", |entries| - 1);
    TocCount(hs, w.maxLevel);
    ghost var some :| 0 <= some < |hs| && Qualifies(hs[some], w.maxLevel);
    assert some in QualifyingIndices(hs, w.maxLevel);
    progress := w.ProgressPercent();
  }
}
