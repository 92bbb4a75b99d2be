/** Drag-and-drop reordering of the navigation tabs and of the cards inside a
    section: choosing the insertion anchor under the pointer, the provisional
    move on every dragover, the adjacency rule of an explicit drop, the
    replay of a saved card order, and the re-ordering of the page sections
    to follow the tabs. A container is the list of its children's ids. */
module DragReorder {
  import opened Wrappers
  import opened Seqs

  // ---------------------------------------------------------------------
  // Insertion anchor (getDragAfterElement)
  // ---------------------------------------------------------------------

  /** An item's extent along the drag axis: `left`/`width` for the tabs,
      `top`/`height` for the cards, in whole pixels. */
  datatype Box = Box(start: int, size: int)

  /** Twice the pointer's offset from the item's middle,
      `2 * (p - (start + size / 2))`; doubling keeps the halving exact and
      changes neither its sign nor its order. */
  function Offset(b: Box, p: int): int {
    2 * p - 2 * b.start - b.size
  }

  /** The `{ offset, element }` accumulator of the `reduce`. */
  datatype Candidate = Candidate(offset: int, element: Id)

  /** The `reduce` over the candidates, left to right: an item replaces the
      best so far when the pointer is before its middle and closer to it
      than to the best so far; `None` is the initial accumulator, whose
      offset is minus infinity. */
  function Closest(items: seq<Id>, box: Id -> Box, p: int): (c: Option<Candidate>)
  {
    if items == [] then None
    else
      var acc := Closest(items[..|items| - 1], box, p);
      var child := items[|items| - 1];
      var offset := Offset(box(child), p);
      if offset < 0 && (acc.None? || offset > acc.value.offset) then Some(Candidate(offset, child))
      else acc
  }

  /** Position `k` holds the anchor: the pointer is before its middle, no
      other item the pointer is before is closer, and no earlier item is as
      close. */
  predicate IsAnchorAt(items: seq<Id>, box: Id -> Box, p: int, k: int) {
    && 0 <= k < |items|
    && Offset(box(items[k]), p) < 0
    && (forall j :: 0 <= j < |items| && Offset(box(items[j]), p) < 0 ==>
          Offset(box(items[j]), p) <= Offset(box(items[k]), p))
    && (forall j :: 0 <= j < k ==> Offset(box(items[j]), p) != Offset(box(items[k]), p))
  }

  /** The reduce finds nothing exactly when the pointer is past the middle
      of every item; otherwise it finds the anchor, the first of the items
      with the largest negative offset. */
  lemma {:induction false} ClosestFacts(items: seq<Id>, box: Id -> Box, p: int)
    ensures Closest(items, box, p).None? <==>
      forall j :: 0 <= j < |items| ==> Offset(box(items[j]), p) >= 0
    ensures Closest(items, box, p).Some? ==>
      exists k :: IsAnchorAt(items, box, p, k) && items[k] == Closest(items, box, p).value.element
        && Offset(box(items[k]), p) == Closest(items, box, p).value.offset
  {
    if items != [] {
      var n := |items| - 1;
      var front := items[..n];
      ClosestFacts(front, box, p);
      var acc := Closest(front, box, p);
      var offset := Offset(box(items[n]), p);
      assert forall j :: 0 <= j < n ==> front[j] == items[j];
      if offset < 0 && (acc.None? || offset > acc.value.offset) {
        if acc.Some? {
          var k :| IsAnchorAt(front, box, p, k) && front[k] == acc.value.element
            && Offset(box(front[k]), p) == acc.value.offset;
        }
        assert IsAnchorAt(items, box, p, n);
      } else if acc.Some? {
        var k :| IsAnchorAt(front, box, p, k) && front[k] == acc.value.element
          && Offset(box(front[k]), p) == acc.value.offset;
        assert IsAnchorAt(items, box, p, k);
      }
    }
  }

  /** The anchor is one of the candidates. */
  lemma ClosestIn(items: seq<Id>, box: Id -> Box, p: int)
    requires Closest(items, box, p).Some?
    ensures Closest(items, box, p).value.element in items
  {
    ClosestFacts(items, box, p);
  }

  /** `getDragAfterElement(container, p)`: the reduce over the items other
      than the one being dragged; `None` stands for "insert at the end".
      The early return of the tab version on an empty list gives the same
      `None`. */
  function DragAfterElement(children: seq<Id>, dragging: Id, box: Id -> Box, p: int): (a: Option<Id>)
    ensures a.Some? ==> a.value in children && a.value != dragging
  {
    var c := Closest(Remove(children, dragging), box, p);
    if c.None? then None
    else
      ClosestIn(Remove(children, dragging), box, p);
      WithoutIn(children, {dragging}, c.value.element);
      Some(c.value.element)
  }

  /** The anchor, stated on the children themselves: "end" exactly when the
      pointer is past the middle of every other item; otherwise the first
      other item with the largest negative offset. */
  lemma DragAfterElementFacts(children: seq<Id>, dragging: Id, box: Id -> Box, p: int)
    ensures var a := DragAfterElement(children, dragging, box, p);
      && (a.None? <==> forall j :: 0 <= j < |Remove(children, dragging)| ==>
            Offset(box(Remove(children, dragging)[j]), p) >= 0)
      && (a.Some? ==> exists k :: (IsAnchorAt(Remove(children, dragging), box, p, k) &&
            Remove(children, dragging)[k] == a.value))
  {
    ClosestFacts(Remove(children, dragging), box, p);
  }

  /** The child order after one dragover event: the dragged item detached
      and re-inserted before the anchor, or at the end. */
  function ProvisionalMove(children: seq<Id>, dragging: Id, box: Id -> Box, p: int): seq<Id> {
    var a := DragAfterElement(children, dragging, box, p);
    if a.None? then Appended(children, dragging) else InsertedBefore(children, dragging, a.value)
  }

  /** A provisional move of one of the children permutes them, keeps the
      others in their relative order, and leaves the dragged item last or
      immediately before the anchor. */
  lemma ProvisionalMoveFacts(children: seq<Id>, dragging: Id, box: Id -> Box, p: int)
    requires Distinct(children) && dragging in children
    ensures var r := ProvisionalMove(children, dragging, box, p);
      && Distinct(r)
      && multiset(r) == multiset(children)
      && SameOrderOutside(r, children, dragging)
    ensures var r := ProvisionalMove(children, dragging, box, p);
      var a := DragAfterElement(children, dragging, box, p);
      && (a.None? ==> r[|r| - 1] == dragging)
      && (a.Some? ==> exists k :: 0 <= k < |r| - 1 && r[k] == dragging && r[k + 1] == a.value)
  {
    var a := DragAfterElement(children, dragging, box, p);
    if a.None? {
      AppendedFacts(children, dragging);
    } else {
      InsertedBeforeFacts(children, dragging, a.value);
    }
  }

  // ---------------------------------------------------------------------
  // Explicit drop
  // ---------------------------------------------------------------------

  /** `x.nextSibling`, counted over elements. */
  function NextSibling(s: seq<Id>, x: Id): (n: Option<Id>)
    ensures n.Some? ==> x in s
  {
    if x in s && IndexOf(s, x) + 1 < |s| then Some(s[IndexOf(s, x) + 1]) else None
  }

  /** The drop handler on `target`: nothing without a dragged item or when
      it is dropped on itself; when the dragged item sits just before the
      target the two change places; otherwise the dragged item goes just
      before the target. */
  function Dropped(s: seq<Id>, target: Id, dragged: Option<Id>): seq<Id>
    requires target in s
  {
    if dragged.None? || dragged.value == target then s
    else if NextSibling(s, dragged.value) == Some(target) then InsertedBefore(s, target, dragged.value)
    else InsertedBefore(s, dragged.value, target)
  }

  /** Dropping a child of the same container onto another child permutes
      the children and keeps all but the dragged item in relative order; if
      the dragged item was just before the target they swap, and otherwise
      the dragged item ends up just before the target. */
  lemma DropFacts(s: seq<Id>, target: Id, dragged: Id)
    requires Distinct(s) && target in s && dragged in s && dragged != target
    ensures var r := Dropped(s, target, Some(dragged));
      && Distinct(r)
      && multiset(r) == multiset(s)
      && SameOrderOutside(r, s, dragged)
    ensures NextSibling(s, dragged) == Some(target) ==>
      var k := IndexOf(s, dragged);
      k + 1 < |s| && Dropped(s, target, Some(dragged)) == s[..k] + [target, dragged] + s[k + 2..]
    ensures NextSibling(s, dragged) != Some(target) ==>
      var r := Dropped(s, target, Some(dragged));
      exists k :: 0 <= k < |r| - 1 && r[k] == dragged && r[k + 1] == target
  {
    if NextSibling(s, dragged) == Some(target) {
      SwapFacts(s, IndexOf(s, dragged));
    } else {
      InsertedBeforeFacts(s, dragged, target);
    }
  }

  /** Moving the element at `k + 1` before the one at `k` swaps the two. */
  lemma SwapFacts(s: seq<Id>, k: nat)
    requires Distinct(s) && k + 1 < |s|
    ensures var r := InsertedBefore(s, s[k + 1], s[k]);
      && r == s[..k] + [s[k + 1], s[k]] + s[k + 2..]
      && Distinct(r)
      && multiset(r) == multiset(s)
      && SameOrderOutside(r, s, s[k])
  {
    SwapShape(s, k);
    SwapOrder(s, k);
    InsertedBeforeFacts(s, s[k + 1], s[k]);
  }

  lemma SwapShape(s: seq<Id>, k: nat)
    requires Distinct(s) && k + 1 < |s|
    ensures InsertedBefore(s, s[k + 1], s[k]) == s[..k] + [s[k + 1], s[k]] + s[k + 2..]
  {
    var d, t := s[k], s[k + 1];
    var rest := Remove(s, t);
    RemoveAt(s, k + 1);
    assert rest == s[..k] + [d] + s[k + 2..] by {
      assert s[..k + 1] == s[..k] + [d];
    }
    WithoutDistinct(s, {t});
    assert rest[k] == d;
    IndexOfAt(rest, k);
    assert rest[..k] == s[..k] && rest[k..] == [d] + s[k + 2..];
  }

  lemma SwapOrder(s: seq<Id>, k: nat)
    requires Distinct(s) && k + 1 < |s|
    ensures Remove(s[..k] + [s[k + 1], s[k]] + s[k + 2..], s[k]) == Remove(s, s[k])
  {
    var d, t := s[k], s[k + 1];
    var a, b := s[..k] + [t], s[k + 2..];
    forall i | 0 <= i < |b| ensures b[i] != d {
      assert b[i] == s[k + 2 + i];
    }
    forall i | 0 <= i < |a| ensures a[i] != d {
      assert a[i] == (if i < k then s[i] else s[k + 1]);
    }
    RemoveAround(a, d, b);
    assert s[..k] + [t, d] + b == a + [d] + b;
    RemoveAt(s, k);
    assert s[k + 1..] == [t] + b;
    assert a + b == s[..k] + s[k + 1..];
  }

  // ---------------------------------------------------------------------
  // Tabs carry both sets of handlers
  // ---------------------------------------------------------------------

  /* On a wide screen the tabs are made draggable before the portfolio
     loads, so the card wiring, which looks up every draggable element,
     attaches its handlers to the tabs as well. A tab then answers dragover
     with the card rule and the tab strip's rule, and drop with the tab
     rule followed by the card rule. */

  /** A provisional move only rearranges the dragged item: the others keep
      their order, whatever the list. */
  lemma ProvisionalMoveOthers(s: seq<Id>, d: Id, box: Id -> Box, p: int)
    ensures SameOrderOutside(ProvisionalMove(s, d, box, p), s, d)
  {
    var t := Remove(s, d);
    WithoutIn(s, {d}, d);
    var a := DragAfterElement(s, d, box, p);
    if a.None? {
      RemoveAround(t, d, []);
      assert t + [d] + [] == Appended(s, d) && t + [] == t;
    } else {
      WithoutIn(s, {d}, a.value);
      var k := IndexOf(t, a.value);
      assert d !in t[..k] && d !in t[k..] by {
        assert forall y :: y in t[..k] ==> y in t;
        assert forall y :: y in t[k..] ==> y in t;
      }
      RemoveAround(t[..k], d, t[k..]);
      assert t[..k] + t[k..] == t;
    }
  }

  /** The drop on a tab: the tab rule, then the card rule, the two rules
      each with the element its own dragstart handler recorded. */
  function TabDropped(s: seq<Id>, target: Id, navDragged: Option<Id>, cardDragged: Option<Id>): seq<Id>
    requires target in s
  {
    DroppedKeepsTarget(s, target, navDragged);
    Dropped(Dropped(s, target, navDragged), target, cardDragged)
  }

  /** Dropping a tab onto another tab: when the dragged tab sat just
      before the target, the first rule swaps them and the second swaps
      them back, so nothing moves; otherwise the first rule puts the dragged
      tab just before the target and the second swaps them, so it ends just
      after the target. Either way the tabs are permuted and the others
      keep their order. */
  lemma TabDropFacts(s: seq<Id>, target: Id, dragged: Id)
    requires Distinct(s) && target in s && dragged in s && dragged != target
    ensures var r := TabDropped(s, target, Some(dragged), Some(dragged));
      && Distinct(r)
      && multiset(r) == multiset(s)
      && SameOrderOutside(r, s, dragged)
    ensures NextSibling(s, dragged) == Some(target) ==>
      TabDropped(s, target, Some(dragged), Some(dragged)) == s
    ensures NextSibling(s, dragged) != Some(target) ==>
      var r := TabDropped(s, target, Some(dragged), Some(dragged));
      exists k :: 0 <= k < |r| - 1 && r[k] == target && r[k + 1] == dragged
  {
    DropFacts(s, target, dragged);
    if NextSibling(s, dragged) == Some(target) {
      TabDropSwapsBack(s, target, dragged);
    } else {
      TabDropLandsAfter(s, target, dragged);
    }
  }

  /** The dragged tab just before the target: the second rule undoes the
      first. */
  lemma {:induction false} TabDropSwapsBack(s: seq<Id>, target: Id, dragged: Id)
    requires Distinct(s) && target in s && dragged in s && dragged != target
    requires NextSibling(s, dragged) == Some(target)
    ensures TabDropped(s, target, Some(dragged), Some(dragged)) == s
  {
    var k := IndexOf(s, dragged);
    assert k + 1 < |s| && s[k] == dragged && s[k + 1] == target;
    var front, back := s[..k], s[k + 2..];
    FirstDropSwaps(s, k);
    SecondDropUndoes(front, dragged, target, back);
    PairAt(s, k);
  }

  /** A list is the part before position `k`, the pair at `k`, and the rest. */
  lemma PairAt(s: seq<Id>, k: nat)
    requires k + 1 < |s|
    ensures s == s[..k] + [s[k], s[k + 1]] + s[k + 2..]
  {
    assert s[..k + 2] == s[..k] + [s[k], s[k + 1]];
    assert s == s[..k + 2] + s[k + 2..];
  }

  /** The tab rule applied to a dragged tab just before the target swaps
      the two. */
  lemma FirstDropSwaps(s: seq<Id>, k: nat)
    requires Distinct(s) && k + 1 < |s|
    ensures var r := Dropped(s, s[k + 1], Some(s[k]));
      && r == s[..k] + [s[k + 1], s[k]] + s[k + 2..] && Distinct(r)
      && multiset(r) == multiset(s) && SameOrderOutside(r, s, s[k])
  {
    IndexOfAt(s, k);
    assert Dropped(s, s[k + 1], Some(s[k])) == InsertedBefore(s, s[k + 1], s[k]);
    SwapShape(s, k);
    SwapOrder(s, k);
    InsertedBeforeFacts(s, s[k + 1], s[k]);
  }

  /** The drop target stays among the children. */
  lemma DroppedKeepsTarget(s: seq<Id>, target: Id, dragged: Option<Id>)
    requires target in s
    ensures target in Dropped(s, target, dragged)
  {
    if dragged.Some? && dragged.value != target {
      var d := dragged.value;
      var t := Remove(s, d);
      if NextSibling(s, d) == Some(target) {
        WithoutIn(s, {target}, d);
        var u := Remove(s, target);
        var k := IndexOf(u, d);
        assert Dropped(s, target, dragged) == u[..k] + [target] + u[k..];
      } else {
        WithoutIn(s, {d}, target);
        var k := IndexOf(t, target);
        assert Dropped(s, target, dragged) == t[..k] + [d] + t[k..];
        assert t[k..][0] == target;
      }
    }
  }

  /** The card rule applied to a swapped pair swaps it back. */
  lemma {:induction false} SecondDropUndoes(front: seq<Id>, dragged: Id, target: Id, back: seq<Id>)
    requires Distinct(front + [target, dragged] + back)
    ensures Dropped(front + [target, dragged] + back, target, Some(dragged)) == front + [dragged, target] + back
  {
    var s1 := front + [target, dragged] + back;
    var k := |front|;
    assert s1[k] == target && s1[k + 1] == dragged;
    IndexOfAt(s1, k + 1);
    assert NextSibling(s1, dragged) != Some(target) by {
      if k + 2 < |s1| {
        assert s1[k + 2] != s1[k];
      }
    }
    SwapShape(s1, k);
    assert s1[..k] == front && s1[k + 2..] == back;
  }

  /** The dragged tab anywhere else: the first rule puts it just before
      the target, and the second swaps the two. */
  lemma {:induction false} TabDropLandsAfter(s: seq<Id>, target: Id, dragged: Id)
    requires Distinct(s) && target in s && dragged in s && dragged != target
    requires NextSibling(s, dragged) != Some(target)
    ensures var r := TabDropped(s, target, Some(dragged), Some(dragged));
      && Distinct(r)
      && multiset(r) == multiset(s)
      && SameOrderOutside(r, s, dragged)
      && exists k :: 0 <= k < |r| - 1 && r[k] == target && r[k + 1] == dragged
  {
    DropFacts(s, target, dragged);
    var s1 := Dropped(s, target, Some(dragged));
    var k :| 0 <= k < |s1| - 1 && s1[k] == dragged && s1[k + 1] == target;
    SwapAdjacent(s1, k, target, dragged);
  }

  /** The card rule on a dragged tab just before the target swaps them. */
  lemma SwapAdjacent(s: seq<Id>, k: nat, target: Id, dragged: Id)
    requires Distinct(s) && k + 1 < |s| && s[k] == dragged && s[k + 1] == target
    ensures var r := Dropped(s, target, Some(dragged));
      && Distinct(r) && multiset(r) == multiset(s) && SameOrderOutside(r, s, dragged)
      && |r| == |s| && r[k] == target && r[k + 1] == dragged
  {
    FirstDropSwaps(s, k);
  }

  /** Three tabs, the first dropped onto the last: it ends last. */
  lemma TabDropExample()
    ensures TabDropped(["a", "b", "c"], "c", Some("a"), Some("a")) == ["b", "c", "a"]
  {
    var s: seq<Id> := ["a", "b", "c"];
    assert NextSibling(s, "a") == Some("b");
    assert Remove(s, "a") == ["b", "c"];
    assert IndexOf(["b", "c"], "c") == 1;
    var s1 := Dropped(s, "c", Some("a"));
    assert s1 == ["b", "a", "c"];
    assert IndexOf(s1, "a") == 1;
    assert NextSibling(s1, "a") == Some("c");
    assert Without(["c"], {"c"}) == [];
    assert Without(["a", "c"], {"c"}) == ["a"];
    assert Remove(s1, "c") == ["b", "a"];
    assert IndexOf(["b", "a"], "a") == 1;
  }

  // ---------------------------------------------------------------------
  // Saved-order replay (restoreCardOrder)
  // ---------------------------------------------------------------------

  /** The ids of a saved order that name a card of the container, in saved
      order (the `cardMap.get(cardId)` hits). */
  function KnownIds(order: seq<Id>, cards: seq<Id>): (r: seq<Id>)
    ensures |r| <= |order|
  {
    if order == [] then []
    else
      var last := order[|order| - 1];
      KnownIds(order[..|order| - 1], cards) + (if last in cards then [last] else [])
  }

  lemma {:induction false} KnownIdsIn(order: seq<Id>, cards: seq<Id>, x: Id)
    ensures x in KnownIds(order, cards) <==> x in order && x in cards
  {
    if order != [] {
      var n := |order| - 1;
      KnownIdsIn(order[..n], cards, x);
      assert order == order[..n] + [order[n]];
    }
  }

  lemma {:induction false} KnownIdsDistinct(order: seq<Id>, cards: seq<Id>)
    requires Distinct(order)
    ensures Distinct(KnownIds(order, cards))
  {
    if order != [] {
      var n := |order| - 1;
      assert Distinct(order[..n]);
      KnownIdsDistinct(order[..n], cards);
      KnownIdsIn(order[..n], cards, order[n]);
      assert order[n] !in order[..n];
    }
  }

  /** Replaying a saved order permutes the cards; when the saved order has no
      repeats, the cards it does not mention stay in front in their order
      and the ones it mentions follow in saved order. */
  lemma RestoreFacts(cards: seq<Id>, order: seq<Id>)
    requires Distinct(cards)
    ensures var r := AppendAll(cards, KnownIds(order, cards));
      && Distinct(r)
      && multiset(r) == multiset(cards)
    ensures Distinct(order) ==>
      AppendAll(cards, KnownIds(order, cards)) == Without(cards, set x | x in order) + KnownIds(order, cards)
  {
    var known := KnownIds(order, cards);
    forall i | 0 <= i < |known| ensures known[i] in cards {
      KnownIdsIn(order, cards, known[i]);
    }
    AppendAllPermutes(cards, known);
    if Distinct(order) {
      KnownIdsDistinct(order, cards);
      AppendAllFacts(cards, known);
      forall i | 0 <= i < |cards| ensures cards[i] in (set x | x in known) <==> cards[i] in (set x | x in order) {
        KnownIdsIn(order, cards, cards[i]);
      }
      WithoutSame(cards, set x | x in known, set x | x in order);
    }
  }

  // ---------------------------------------------------------------------
  // Tab-to-section sync (reorderContentSections)
  // ---------------------------------------------------------------------

  /** The content sections looked up by their own id. */
  const ContentSections: seq<Id> := ["about", "projects", "skills", "distinctions", "contact"]

  /** The map from a tab's `data-section` to the section element it stands
      for: `top` to the hero section, `dashboard` to the stats grid, and
      each content section present on the page to itself. */
  function SectionMap(hero: Option<Id>, stats: Option<Id>, present: set<Id>): (m: map<Id, Id>)
    requires "top" !in ContentSections && "dashboard" !in ContentSections
    ensures "top" in m <==> hero.Some?
    ensures hero.Some? ==> m["top"] == hero.value
    ensures "dashboard" in m <==> stats.Some?
    ensures stats.Some? ==> m["dashboard"] == stats.value
    ensures forall k :: k in ContentSections ==> (k in m <==> k in present) && (k in m ==> m[k] == k)
    ensures forall k :: k in m ==> k == "top" || k == "dashboard" || k in ContentSections
  {
    var m0: map<Id, Id> := if hero.Some? then map["top" := hero.value] else map[];
    var m1 := if stats.Some? then m0["dashboard" := stats.value] else m0;
    m1 + map k | k in ContentSections && k in present :: k
  }

  /** The map is one-to-one as long as the hero section and the stats grid
      are two elements other than the content sections. */
  lemma SectionMapInjective(hero: Option<Id>, stats: Option<Id>, present: set<Id>)
    requires hero.Some? ==> hero.value !in ContentSections
    requires stats.Some? ==> stats.value !in ContentSections
    requires hero.Some? && stats.Some? ==> hero.value != stats.value
    ensures Injective(SectionMap(hero, stats, present))
  {
    var m := SectionMap(hero, stats, present);
    forall a, b | a in m && b in m && a != b ensures m[a] != m[b] {
      if a == "top" || a == "dashboard" {
        assert m[a] !in ContentSections;
      } else if b == "top" || b == "dashboard" {
        assert m[b] !in ContentSections;
      } else {
        assert m[a] == a && m[b] == b;
      }
    }
  }

  /** The sections, in tab order, of the tabs whose section is a direct
      child of the dashboard. */
  function OrderedSections(tabs: seq<Id>, sectionMap: map<Id, Id>, children: seq<Id>): (r: seq<Id>)
    ensures forall i :: 0 <= i < |r| ==> r[i] in children
  {
    if tabs == [] then []
    else
      var t := tabs[|tabs| - 1];
      OrderedSections(tabs[..|tabs| - 1], sectionMap, children)
        + (if t in sectionMap && sectionMap[t] in children then [sectionMap[t]] else [])
  }

  /** The order check: some position of the ordered sections holds a
      different child, or lies past the last child. */
  predicate OrderChanged(children: seq<Id>, ordered: seq<Id>) {
    exists i :: 0 <= i < |ordered| && (i >= |children| || children[i] != ordered[i])
  }

  /** The order is unchanged exactly when the ordered sections are the
      first children of the dashboard. */
  lemma OrderChangedPrefix(children: seq<Id>, ordered: seq<Id>)
    ensures !OrderChanged(children, ordered) <==> ordered <= children
  {
    if ordered <= children {
      assert forall i :: 0 <= i < |ordered| ==> children[i] == ordered[i];
    } else if |ordered| <= |children| {
      assert ordered != children[..|ordered|];
      var i :| 0 <= i < |ordered| && ordered[i] != children[..|ordered|][i];
      assert children[i] != ordered[i];
    } else {
      var i := |children|;
      assert 0 <= i < |ordered| && i >= |children| && ordered[i] == ordered[i];
    }
  }

  /** No section is mapped from two tabs. */
  predicate Injective(m: map<Id, Id>) {
    forall a, b :: a in m && b in m && a != b ==> m[a] != m[b]
  }

  lemma {:induction false} OrderedSectionsIn(tabs: seq<Id>, m: map<Id, Id>, children: seq<Id>, x: Id)
    ensures x in OrderedSections(tabs, m, children) <==>
      x in children && exists i :: 0 <= i < |tabs| && tabs[i] in m && m[tabs[i]] == x
  {
    if tabs != [] {
      var n := |tabs| - 1;
      OrderedSectionsIn(tabs[..n], m, children, x);
      assert forall i :: 0 <= i < n ==> tabs[..n][i] == tabs[i];
    }
  }

  /** Distinct tabs mapped one-to-one give sections without repeats. */
  lemma {:induction false} OrderedSectionsDistinct(tabs: seq<Id>, m: map<Id, Id>, children: seq<Id>)
    requires Distinct(tabs) && Injective(m)
    ensures Distinct(OrderedSections(tabs, m, children))
  {
    if tabs != [] {
      var n := |tabs| - 1;
      var t := tabs[n];
      assert Distinct(tabs[..n]);
      OrderedSectionsDistinct(tabs[..n], m, children);
      if t in m && m[t] in children {
        OrderedSectionsIn(tabs[..n], m, children, m[t]);
      }
    }
  }

  /** The dashboard's children after the tabs were reordered: unchanged
      when no tab maps to a child or the mapped sections already lead;
      otherwise each mapped section removed and appended again, in tab
      order. */
  function Reordered(children: seq<Id>, ordered: seq<Id>): seq<Id> {
    if ordered == [] || !OrderChanged(children, ordered) then children
    else AppendAll(Without(children, set x | x in ordered), ordered)
  }

  /** The re-ordered dashboard holds the same children; the ones no tab
      stands for keep their order at the front, and the tabs' sections
      follow in tab order. */
  lemma ReorderedFacts(children: seq<Id>, tabs: seq<Id>, m: map<Id, Id>)
    requires Distinct(children) && Distinct(tabs) && Injective(m)
    ensures var ordered := OrderedSections(tabs, m, children);
      var r := Reordered(children, ordered);
      && Distinct(r)
      && multiset(r) == multiset(children)
      && (ordered != [] && !(ordered <= children) ==>
            r == Without(children, set x | x in ordered) + ordered)
  {
    var ordered := OrderedSections(tabs, m, children);
    OrderChangedPrefix(children, ordered);
    if ordered != [] && OrderChanged(children, ordered) {
      OrderedSectionsDistinct(tabs, m, children);
      var gone := set x | x in ordered;
      var stripped := Without(children, gone);
      AppendAllFacts(stripped, ordered);
      WithoutTwice(children, gone, gone);
      assert gone + gone == gone;
      AppendAllFacts(children, ordered);
      AppendAllPermutes(children, ordered);
    }
  }

  /** `reorderContentSections` on the page's own map: the dashboard keeps
      its children without repeats; once the tabs are out of step, the
      children no tab stands for lead in their order and the tabs'
      sections follow in tab order. */
  lemma DashboardReorderFacts(children: seq<Id>, tabs: seq<Id>, hero: Option<Id>, stats: Option<Id>,
                              present: set<Id>)
    requires Distinct(children) && Distinct(tabs)
    requires hero.Some? ==> hero.value !in ContentSections
    requires stats.Some? ==> stats.value !in ContentSections
    requires hero.Some? && stats.Some? ==> hero.value != stats.value
    ensures var ordered := OrderedSections(tabs, SectionMap(hero, stats, present), children);
      var r := Reordered(children, ordered);
      && Distinct(r)
      && multiset(r) == multiset(children)
      && (ordered != [] && !(ordered <= children) ==>
            r == Without(children, set x | x in ordered) + ordered)
  {
    SectionMapInjective(hero, stats, present);
    ReorderedFacts(children, tabs, SectionMap(hero, stats, present));
  }

  // ---------------------------------------------------------------------
  // A container and its handlers
  // ---------------------------------------------------------------------

  /** A parent element: the tab strip, a card grid, or the dashboard. */
  class Container {
    var children: seq<Id>

    constructor (children: seq<Id>)
      ensures this.children == children
    {
      this.children := children;
    }

    method AppendChild(x: Id)
      modifies this
      ensures children == Appended(old(children), x)
    {
      children := Remove(children, x) + [x];
    }

    /** `insertBefore` with a reference child other than the moved node. */
    method InsertBefore(x: Id, ref: Id)
      requires ref in children && ref != x
      modifies this
      ensures children == InsertedBefore(old(children), x, ref)
    {
      children := InsertedBefore(children, x, ref);
    }

    /** `removeChild` of a child. */
    method RemoveChild(x: Id)
      requires x in children
      modifies this
      ensures children == Remove(old(children), x)
    {
      children := Remove(children, x);
    }

    /** The tab strip's dragover handler: nothing when no tab is being
      dragged, else the provisional move under the pointer's `clientX`. */
    method NavDragOver(dragging: Option<Id>, box: Id -> Box, x: int)
      modifies this
      ensures dragging.None? ==> children == old(children)
      ensures dragging.Some? ==> children == ProvisionalMove(old(children), dragging.value, box, x)
    {
      if dragging.None? {
        return;
      }
      var afterElement := DragAfterElement(children, dragging.value, box, x);
      if afterElement.None? {
        AppendChild(dragging.value);
      } else {
        InsertBefore(dragging.value, afterElement.value);
      }
    }

    /** A card's dragover handler, the card being a child of this container:
      nothing while hovering the card recorded at dragstart; nothing either
      when no element carries the dragging mark (the append then throws);
      else the provisional move under the pointer's `clientY`. */
    method CardDragOver(hovered: Id, draggedElement: Option<Id>, dragging: Option<Id>, box: Id -> Box, y: int)
      modifies this
      ensures draggedElement == Some(hovered) || dragging.None? ==> children == old(children)
      ensures draggedElement != Some(hovered) && dragging.Some? ==>
        children == ProvisionalMove(old(children), dragging.value, box, y)
    {
      if draggedElement == Some(hovered) || dragging.None? {
        return;
      }
      var afterElement := DragAfterElement(children, dragging.value, box, y);
      if afterElement.None? {
        AppendChild(dragging.value);
      } else {
        InsertBefore(dragging.value, afterElement.value);
      }
    }

    /** The drop handler of a child `target` (tab or card). */
    method Drop(target: Id, dragged: Option<Id>)
      requires target in children
      modifies this
      ensures children == Dropped(old(children), target, dragged)
    {
      if dragged.Some? && dragged.value != target {
        if NextSibling(children, dragged.value) == Some(target) {
          InsertBefore(target, dragged.value);
        } else {
          InsertBefore(dragged.value, target);
        }
      }
    }

    /** A dragover on a tab: the card handler on the tab runs first, with
      the vertical anchor, then the tab strip's handler with the horizontal
      one. The first move only shifts the dragged tab, so the second alone
      decides the order. */
    method TabDragOver(hovered: Id, draggedElement: Option<Id>, dragging: Option<Id>,
                       ybox: Id -> Box, y: int, xbox: Id -> Box, x: int)
      modifies this
      ensures dragging.None? ==> children == old(children)
      ensures dragging.Some? ==> children == ProvisionalMove(old(children), dragging.value, xbox, x)
    {
      var before := children;
      CardDragOver(hovered, draggedElement, dragging, ybox, y);
      if dragging.Some? {
        if draggedElement != Some(hovered) {
          ProvisionalMoveOthers(before, dragging.value, ybox, y);
        }
        assert Remove(children, dragging.value) == Remove(before, dragging.value);
      }
      NavDragOver(dragging, xbox, x);
    }

    /** A drop on a tab: the tab's own drop handler, then the card drop
      handler attached to it as well. */
    method TabDrop(target: Id, navDragged: Option<Id>, cardDragged: Option<Id>)
      requires target in children
      modifies this
      ensures children == TabDropped(old(children), target, navDragged, cardDragged)
    {
      Drop(target, navDragged);
      DroppedKeepsTarget(old(children), target, navDragged);
      Drop(target, cardDragged);
    }

    /** The replay of a saved card order: each saved id that names one of
      the cards is appended in turn; without a saved order nothing moves. */
    method RestoreCardOrder(saved: Option<seq<Id>>)
      modifies this
      ensures saved.None? ==> children == old(children)
      ensures saved.Some? ==> children == AppendAll(old(children), KnownIds(saved.value, old(children)))
    {
      if saved.None? {
        return;
      }
      var order := saved.value;
      var cards := children;
      for i := 0 to |order|
        invariant children == AppendAll(cards, KnownIds(order[..i], cards))
      {
        assert order[..i + 1][..i] == order[..i];
        assert KnownIds(order[..i + 1], cards) ==
          KnownIds(order[..i], cards) + (if order[i] in cards then [order[i]] else []);
        AppendAllSnoc(cards, KnownIds(order[..i], cards), order[i]);
        if order[i] in cards {
          AppendChild(order[i]);
        } else {
          assert KnownIds(order[..i], cards) + [] == KnownIds(order[..i], cards);
        }
      }
      assert order[..|order|] == order;
    }

    /** Each listed section that is still a child is removed, in turn. */
    method RemoveEach(sections: seq<Id>)
      modifies this
      ensures children == Without(old(children), set x | x in sections)
    {
      var before := children;
      assert (set x | x in sections[..0]) == {};
      WithoutNone(before, {});
      for i := 0 to |sections|
        invariant children == Without(before, set x | x in sections[..i])
      {
        var gone := set x | x in sections[..i];
        var upTo := sections[..i + 1];
        assert upTo == sections[..i] + [sections[i]];
        assert (set x | x in upTo) == gone + {sections[i]};
        WithoutTwice(before, gone, {sections[i]});
        if sections[i] in children {
          RemoveChild(sections[i]);
        } else {
          RemoveAbsent(children, sections[i]);
        }
      }
      assert sections[..|sections|] == sections;
    }

    /** Each listed section is appended, in turn. */
    method AppendEach(sections: seq<Id>)
      modifies this
      ensures children == AppendAll(old(children), sections)
    {
      var before := children;
      for i := 0 to |sections|
        invariant children == AppendAll(before, sections[..i])
      {
        assert sections[..i + 1] == sections[..i] + [sections[i]];
        AppendAllSnoc(before, sections[..i], sections[i]);
        AppendChild(sections[i]);
      }
      assert sections[..|sections|] == sections;
    }

    /** The dashboard side of `reorderContentSections`, given the tab order,
      the hero section and stats grid when found, and the content sections
      present on the page. */
    method ReorderContentSections(tabs: seq<Id>, hero: Option<Id>, stats: Option<Id>, present: set<Id>)
      modifies this
      ensures children == Reordered(old(children), OrderedSections(tabs, SectionMap(hero, stats, present), old(children)))
    {
      var sectionMap := SectionMap(hero, stats, present);
      var ordered := CollectSections(tabs, sectionMap, children);
      if |ordered| == 0 {
        return;
      }
      var orderChanged := CheckOrderChanged(children, ordered);
      if !orderChanged {
        return;
      }
      RemoveEach(ordered);
      AppendEach(ordered);
    }
  }

  /** The `orderedSections` loop of `reorderContentSections`. */
  method CollectSections(tabs: seq<Id>, sectionMap: map<Id, Id>, children: seq<Id>) returns (ordered: seq<Id>)
    ensures ordered == OrderedSections(tabs, sectionMap, children)
  {
    ordered := [];
    for i := 0 to |tabs|
      invariant ordered == OrderedSections(tabs[..i], sectionMap, children)
    {
      assert tabs[..i + 1][..i] == tabs[..i];
      var t := tabs[i];
      if t in sectionMap && sectionMap[t] in children {
        ordered := ordered + [sectionMap[t]];
      }
    }
    assert tabs[..|tabs|] == tabs;
  }

  /** The `orderChanged` loop of `reorderContentSections`, which stops at the
      first position that differs. */
  method CheckOrderChanged(children: seq<Id>, ordered: seq<Id>) returns (orderChanged: bool)
    ensures orderChanged == OrderChanged(children, ordered)
  {
    orderChanged := false;
    var i := 0;
    while i < |ordered|
      invariant 0 <= i <= |ordered| && i <= |children|
      invariant forall j :: 0 <= j < i ==> children[j] == ordered[j]
      invariant !orderChanged
    {
      if i >= |children| || children[i] != ordered[i] {
        orderChanged := true;
        break;
      }
      i := i + 1;
    }
    OrderChangedPrefix(children, ordered);
    if orderChanged && i < |children| {
      assert children[i] != ordered[i];
    }
  }
}
