/** The card controls: minimizing a card, the grid's all-minimized mark, the
    delete confirmation with its pending card, and the close-tab
    confirmation with its pending tab. */
module CardControls {
  import opened Wrappers
  import opened Seqs

  /** Every card of the grid is minimized (`Array.prototype.every`). */
  predicate AllMinimized(cards: seq<Id>, minimized: set<Id>) {
    forall i :: 0 <= i < |cards| ==> cards[i] in minimized
  }

  /** A card grid: its cards in order, the minimized ones, the ones whose
      minimize button shows the plus icon, and the grid's `all-minimized`
      mark. */
  class CardGrid {
    var cards: seq<Id>
    var minimized: set<Id>
    var plusIcon: set<Id>
    var allMinimized: bool

    /** A button shows the plus icon exactly on the minimized cards, and a
        grid that has cards is marked exactly when all of them are
        minimized. */
    ghost predicate Valid()
      reads this
    {
      && plusIcon == minimized
      && (|cards| > 0 ==> (allMinimized <==> AllMinimized(cards, minimized)))
    }

    /** A freshly set-up grid: every card expanded, no mark. */
    constructor (cards: seq<Id>)
      ensures Valid()
      ensures this.cards == cards && minimized == {} && plusIcon == {} && !allMinimized
    {
      this.cards := cards;
      minimized := {};
      plusIcon := {};
      allMinimized := false;
      new;
      assert |cards| > 0 ==> cards[0] !in minimized;
    }

    /** `checkAllMinimized`: a grid without cards keeps its mark; otherwise
        the mark says whether every card is minimized. */
    method CheckAllMinimized()
      modifies this
      ensures |cards| == 0 ==> allMinimized == old(allMinimized)
      ensures |cards| > 0 ==> (allMinimized <==> AllMinimized(cards, minimized))
      ensures cards == old(cards) && minimized == old(minimized) && plusIcon == old(plusIcon)
      ensures plusIcon == minimized ==> Valid()
    {
      if |cards| == 0 {
        return;
      }
      allMinimized := forall i :: 0 <= i < |cards| ==> cards[i] in minimized;
    }

    /** `toggleMinimize(card)`: only that card's state flips, its icon shows
        the plus exactly when it is now minimized, and the grid's mark is
        brought up to date. */
    method ToggleMinimize(card: Id)
      requires Valid()
      modifies this
      ensures Valid()
      ensures minimized == Flip(old(minimized), card)
      ensures card in plusIcon <==> card in minimized
      ensures plusIcon == Flip(old(plusIcon), card)
      ensures cards == old(cards)
      ensures |cards| == 0 ==> allMinimized == old(allMinimized)
      ensures |cards| > 0 ==> (allMinimized <==> AllMinimized(cards, minimized))
    {
      var isMinimized := card in minimized;
      if isMinimized {
        minimized := minimized - {card};
      } else {
        minimized := minimized + {card};
      }
      if card in minimized {
        plusIcon := plusIcon + {card};
      } else {
        plusIcon := plusIcon - {card};
      }
      CheckAllMinimized();
    }
  }

  /** The `cards.cardToDelete` slot and the delete modal. */
  class DeleteFlow {
    var cardToDelete: Option<Id>
    var modalOpen: bool

    constructor ()
      ensures cardToDelete.None? && !modalOpen
    {
      cardToDelete := None;
      modalOpen := false;
    }

    /** `deleteCard`: record the card and open the modal; nothing is
        removed yet. */
    method DeleteCard(card: Id)
      modifies this
      ensures cardToDelete == Some(card) && modalOpen
    {
      cardToDelete := Some(card);
      modalOpen := true;
    }

    /** `hideDelete` (close, cancel, overlay click, Escape): the modal closes
        and the pending card is forgotten. */
    method HideDelete()
      modifies this
      ensures cardToDelete.None? && !modalOpen
    {
      modalOpen := false;
      cardToDelete := None;
    }

    /** `confirmDelete` on the pending card's grid: nothing without a pending
        card; otherwise exactly that card leaves the grid, the others keep
        their order, the grid's mark is brought up to date, and the modal
        closes. */
    method ConfirmDelete(grid: CardGrid)
      requires grid.Valid()
      modifies this, grid
      ensures grid.Valid()
      ensures old(cardToDelete).None? ==>
        && cardToDelete == old(cardToDelete) && modalOpen == old(modalOpen)
        && grid.cards == old(grid.cards) && grid.allMinimized == old(grid.allMinimized)
      ensures old(cardToDelete).Some? ==>
        && grid.cards == Remove(old(grid.cards), old(cardToDelete).value)
        && cardToDelete.None? && !modalOpen
        && (|grid.cards| == 0 ==> grid.allMinimized == old(grid.allMinimized))
        && (|grid.cards| > 0 ==> (grid.allMinimized <==> AllMinimized(grid.cards, grid.minimized)))
      ensures grid.minimized == old(grid.minimized) && grid.plusIcon == old(grid.plusIcon)
    {
      if cardToDelete.None? {
        return;
      }
      grid.cards := Remove(grid.cards, cardToDelete.value);
      grid.CheckAllMinimized();
      HideDelete();
    }
  }

  /** Deleting a card of a grid without repeats leaves exactly the other
      cards, in their order. */
  lemma DeleteLeavesOthers(cards: seq<Id>, card: Id)
    requires Distinct(cards) && card in cards
    ensures var k := IndexOf(cards, card);
      Remove(cards, card) == cards[..k] + cards[k + 1..]
    ensures forall c :: c in Remove(cards, card) <==> c in cards && c != card
    ensures Distinct(Remove(cards, card))
  {
    RemoveAt(cards, IndexOf(cards, card));
    forall c ensures c in Remove(cards, card) <==> c in cards && c != card {
      WithoutIn(cards, {card}, c);
    }
    WithoutDistinct(cards, {card});
  }

  /** The page elements a tab can be closed out of. `sections` are the ids
      `getElementById` finds; the hero section stands for the `top` tab. */
  datatype Page = Page(
    tabs: set<Id>,
    footerLinks: set<Id>,
    sections: set<Id>,
    hero: bool,
    statsGrid: bool)

  /** The tab key that names the hero section and the one that names the
      stats dashboard; closing either also hides the stats grid. */
  const TopTab: Id := "top"
  const DashboardTab: Id := "dashboard"

  /** The pending `tabToClose`, the close-tab modal, and what closing tabs
      has hidden so far (tab keys; the stats grid on its own). */
  class CloseTabFlow {
    var tabToClose: Option<Id>
    var modalOpen: bool
    var hiddenTabs: set<Id>
    var hiddenFooterLinks: set<Id>
    var hiddenSections: set<Id>
    var statsGridHidden: bool

    constructor ()
      ensures tabToClose.None? && !modalOpen
      ensures hiddenTabs == {} && hiddenFooterLinks == {} && hiddenSections == {} && !statsGridHidden
    {
      tabToClose := None;
      modalOpen := false;
      hiddenTabs := {};
      hiddenFooterLinks := {};
      hiddenSections := {};
      statsGridHidden := false;
    }

    /** `openCloseTabModal`: record the tab and open the modal. */
    method Open(sectionId: Id)
      modifies this
      ensures tabToClose == Some(sectionId) && modalOpen
      ensures hiddenTabs == old(hiddenTabs) && hiddenFooterLinks == old(hiddenFooterLinks)
      ensures hiddenSections == old(hiddenSections) && statsGridHidden == old(statsGridHidden)
    {
      tabToClose := Some(sectionId);
      modalOpen := true;
    }

    /** `closeCloseTabModal`. */
    method Close()
      modifies this
      ensures tabToClose.None? && !modalOpen
      ensures hiddenTabs == old(hiddenTabs) && hiddenFooterLinks == old(hiddenFooterLinks)
      ensures hiddenSections == old(hiddenSections) && statsGridHidden == old(statsGridHidden)
    {
      modalOpen := false;
      tabToClose := None;
    }

    /** `confirmCloseTab`: nothing without a pending tab (an empty key counts
        as none, and the modal stays as it is); otherwise the tab, its footer
        link and its section are hidden where they exist, the stats grid too
        for the `top` and `dashboard` tabs, and the modal closes. */
    method Confirm(page: Page)
      modifies this
      ensures old(tabToClose).None? || old(tabToClose) == Some("") ==>
        && tabToClose == old(tabToClose) && modalOpen == old(modalOpen)
        && hiddenTabs == old(hiddenTabs) && hiddenFooterLinks == old(hiddenFooterLinks)
        && hiddenSections == old(hiddenSections) && statsGridHidden == old(statsGridHidden)
      ensures old(tabToClose).Some? && old(tabToClose) != Some("") ==>
        var t := old(tabToClose).value;
        && hiddenTabs == old(hiddenTabs) + (if t in page.tabs then {t} else {})
        && hiddenFooterLinks == old(hiddenFooterLinks) + (if t in page.footerLinks then {t} else {})
        && hiddenSections == old(hiddenSections) +
             (if (t == TopTab && page.hero) || (t != TopTab && t in page.sections) then {t} else {})
        && statsGridHidden == (old(statsGridHidden) || ((t == TopTab || t == DashboardTab) && page.statsGrid))
        && tabToClose.None? && !modalOpen
    {
      if tabToClose.None? || tabToClose.value == "" {
        return;
      }
      var t := tabToClose.value;
      if t in page.tabs {
        hiddenTabs := hiddenTabs + {t};
      }
      if t in page.footerLinks {
        hiddenFooterLinks := hiddenFooterLinks + {t};
      }
      var sectionFound := if t == TopTab then page.hero else t in page.sections;
      if sectionFound {
        hiddenSections := hiddenSections + {t};
      }
      if t == TopTab || t == DashboardTab {
        if page.statsGrid {
          statsGridHidden := true;
        }
      }
      Close();
    }
  }
}
