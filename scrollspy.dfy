/** The navigation bar's active tab: the scroll-spy decision of
    `updateActiveNav`, its gating by `skipActiveUpdate`, and the end of a tab
    drag, which re-orders the page sections and activates the dragged tab.
    Tabs are identified by their `data-section` value. */
module Navigation {
  import opened Wrappers
  import opened Seqs
  import opened DragReorder

  /** An element's `offsetTop` and `offsetHeight`, in whole pixels. */
  datatype Extent = Extent(top: int, height: int)

  /** A `section[id]` element of the page. */
  datatype Band = Band(id: Id, top: int, height: int)

  /** What the scroll-spy sees: the hero section and the stats grid when they
      exist, and the `section[id]` elements in document order. The stats
      grid's height is read by the source but never used. */
  datatype Layout = Layout(hero: Option<Extent>, stats: Option<Extent>, sections: seq<Band>)

  /** The decision taken before any class is touched: make one tab key
      active, or leave the tabs as they are. */
  datatype Decision = Activate(key: Id) | NoChange

  /** The probe point lies this far below the top of the viewport. */
  const ProbeOffset: int := 100
  /** The hero counts as on screen until the probe is this close to its end. */
  const HeroMargin: int := 200

  predicate InBand(b: Band, probe: int) {
    b.top <= probe < b.top + b.height
  }

  /** `probe` is above the end of the hero, less the margin. */
  predicate InHero(layout: Layout, probe: int) {
    layout.hero.Some? && probe < layout.hero.value.top + layout.hero.value.height - HeroMargin
  }

  /** `probe` is at or below the top of the stats grid and above the first
      section (or there is no section). */
  predicate InStats(layout: Layout, probe: int) {
    && layout.stats.Some?
    && layout.stats.value.top <= probe
    && (layout.sections == [] || probe < layout.sections[0].top)
  }

  /** The `sections.forEach`: every section containing the probe sets the
      active tab, so the last one wins. */
  function LastBand(sections: seq<Band>, probe: int): Option<Id> {
    if sections == [] then None
    else if InBand(sections[|sections| - 1], probe) then Some(sections[|sections| - 1].id)
    else LastBand(sections[..|sections| - 1], probe)
  }

  /** No section contains the probe, or the result is the id of the last
      section that does. */
  lemma {:induction false} LastBandFacts(sections: seq<Band>, probe: int)
    ensures LastBand(sections, probe).None? <==> forall k :: 0 <= k < |sections| ==> !InBand(sections[k], probe)
    ensures LastBand(sections, probe).Some? ==>
      exists k :: 0 <= k < |sections| && InBand(sections[k], probe)
        && sections[k].id == LastBand(sections, probe).value
        && forall j :: k < j < |sections| ==> !InBand(sections[j], probe)
  {
    if sections != [] {
      var n := |sections| - 1;
      var front := sections[..n];
      LastBandFacts(front, probe);
      assert forall k :: 0 <= k < n ==> front[k] == sections[k];
      if !InBand(sections[n], probe) && LastBand(front, probe).Some? {
        var k :| 0 <= k < n && InBand(front[k], probe) && front[k].id == LastBand(front, probe).value
          && forall j :: k < j < n ==> !InBand(front[j], probe);
        assert InBand(sections[k], probe);
      }
    }
  }

  /** `updateActiveNav`'s choice at scroll offset `pageY`. */
  function ScrollTarget(layout: Layout, pageY: int): Decision {
    var probe := pageY + ProbeOffset;
    if InHero(layout, probe) then Activate("top")
    else if InStats(layout, probe) then Activate("dashboard")
    else
      var last := LastBand(layout.sections, probe);
      if last.Some? then Activate(last.value) else NoChange
  }

  /** The tabs stay as they are exactly when the probe is neither in the
      hero nor in the stats area nor in any section. */
  lemma ScrollTargetNoChange(layout: Layout, pageY: int)
    ensures var probe := pageY + ProbeOffset;
      ScrollTarget(layout, pageY) == NoChange <==>
        !InHero(layout, probe) && !InStats(layout, probe) &&
        forall k :: 0 <= k < |layout.sections| ==> !InBand(layout.sections[k], probe)
  {
    LastBandFacts(layout.sections, pageY + ProbeOffset);
  }

  /** Below the hero and stats areas, a probe inside exactly one section
      activates that section's tab. */
  lemma ScrollTargetSection(layout: Layout, pageY: int, k: int)
    requires var probe := pageY + ProbeOffset;
      && 0 <= k < |layout.sections|
      && InBand(layout.sections[k], probe)
      && !InHero(layout, probe) && !InStats(layout, probe)
      && forall j :: 0 <= j < |layout.sections| && j != k ==> !InBand(layout.sections[j], probe)
    ensures ScrollTarget(layout, pageY) == Activate(layout.sections[k].id)
  {
    LastBandFacts(layout.sections, pageY + ProbeOffset);
  }

  /** The tab keys of a tab strip. */
  function Keys(tabs: seq<Id>): set<Id> {
    set t | t in tabs
  }

  /** The navigation state: the keys of the tabs marked active, and the flag
      that suspends the scroll-spy after a drag. */
  class Navigation {
    var active: set<Id>
    var skipActiveUpdate: bool

    constructor ()
      ensures active == {} && !skipActiveUpdate
    {
      active := {};
      skipActiveUpdate := false;
    }

    /** The `navLinks.forEach` that marks exactly the tabs with key `key`. */
    method Highlight(tabs: seq<Id>, key: Id)
      modifies this
      ensures active == (old(active) - Keys(tabs)) + (if key in tabs then {key} else {})
      ensures skipActiveUpdate == old(skipActiveUpdate)
    {
      var before := active;
      for i := 0 to |tabs|
        invariant active == (before - Keys(tabs[..i])) + (if key in tabs[..i] then {key} else {})
        invariant skipActiveUpdate == old(skipActiveUpdate)
      {
        var t := tabs[i];
        assert tabs[..i + 1] == tabs[..i] + [t];
        assert Keys(tabs[..i + 1]) == Keys(tabs[..i]) + {t};
        active := active - {t};
        if t == key {
          active := active + {t};
        }
      }
      assert tabs[..|tabs|] == tabs;
    }

    /** `updateActiveNav`: the hero and stats branches mark their tab and
      return; otherwise each section containing the probe marks its tab in
      turn. */
    method UpdateActiveNav(tabs: seq<Id>, layout: Layout, pageY: int)
      modifies this
      ensures ScrollTarget(layout, pageY) == NoChange ==> active == old(active)
      ensures ScrollTarget(layout, pageY).Activate? ==>
        var key := ScrollTarget(layout, pageY).key;
        active == (old(active) - Keys(tabs)) + (if key in tabs then {key} else {})
      ensures skipActiveUpdate == old(skipActiveUpdate)
    {
      var probe := pageY + ProbeOffset;
      if InHero(layout, probe) {
        Highlight(tabs, "top");
        return;
      }
      if InStats(layout, probe) {
        Highlight(tabs, "dashboard");
        return;
      }
      var sections := layout.sections;
      var before := active;
      for i := 0 to |sections|
        invariant LastBand(sections[..i], probe).None? ==> active == before
        invariant LastBand(sections[..i], probe).Some? ==>
          var key := LastBand(sections[..i], probe).value;
          active == (before - Keys(tabs)) + (if key in tabs then {key} else {})
        invariant skipActiveUpdate == old(skipActiveUpdate)
      {
        assert sections[..i + 1][..i] == sections[..i];
        if InBand(sections[i], probe) {
          Highlight(tabs, sections[i].id);
          assert active - Keys(tabs) == before - Keys(tabs);
        }
      }
      assert sections[..|sections|] == sections;
    }

    /** The window's scroll listener. */
    method OnScroll(tabs: seq<Id>, layout: Layout, pageY: int)
      modifies this
      ensures skipActiveUpdate ==> active == old(active)
      ensures !skipActiveUpdate && ScrollTarget(layout, pageY) == NoChange ==> active == old(active)
      ensures !skipActiveUpdate && ScrollTarget(layout, pageY).Activate? ==>
        var key := ScrollTarget(layout, pageY).key;
        active == (old(active) - Keys(tabs)) + (if key in tabs then {key} else {})
      ensures skipActiveUpdate == old(skipActiveUpdate)
    {
      if !skipActiveUpdate {
        UpdateActiveNav(tabs, layout, pageY);
      }
    }

    /** A tab drag ends: the dashboard follows the new tab order, and the
      dragged tab, when there is one, becomes the only active tab while the
      scroll-spy is suspended. */
    method NavDragEnd(nav: Container, dashboard: Container, hero: Option<Id>, stats: Option<Id>, present: set<Id>,
                      draggedElement: Option<Id>)
      modifies this, dashboard
      ensures dashboard.children == Reordered(old(dashboard.children),
        OrderedSections(old(nav.children), SectionMap(hero, stats, present), old(dashboard.children)))
      ensures draggedElement.None? ==> active == old(active) && skipActiveUpdate == old(skipActiveUpdate)
      ensures draggedElement.Some? ==>
        active == (old(active) - Keys(old(nav.children))) + {draggedElement.value} && skipActiveUpdate
    {
      var tabs := nav.children;
      dashboard.ReorderContentSections(tabs, hero, stats, present);
      if draggedElement.Some? {
        skipActiveUpdate := true;
        active := (active - Keys(tabs)) + {draggedElement.value};
      }
    }

    /** The timer that re-enables the scroll-spy after the smooth scroll. */
    method ResumeScrollSpy()
      modifies this
      ensures !skipActiveUpdate && active == old(active)
    {
      skipActiveUpdate := false;
    }
  }
}
