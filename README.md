# Portfolio page bookkeeping, modelled in Dafny

The portfolio is a single-page site driven by one script, `app.js`. Most
of that script builds HTML. Beside the HTML work it does some
bookkeeping on lists and sets of ids, and that bookkeeping is what this
project models and proves things about:

- **Code folding.** Each rendered code line has fold groups and may have
  an indicator that controls one group. Collapsing a group hides the lines
  in it. The line that owns the group stays visible.
- **Drag reordering.** This covers:
  - the insertion anchor chosen by both `getDragAfterElement`s;
  - the provisional move on each `dragover`;
  - the swap-or-insert rule of a `drop`;
  - the tabs, which on a wide screen answer both the tab strip's and the
    cards' handlers;
  - replaying a saved card order;
  - `reorderContentSections`, which puts the dashboard sections in the
    order of the navigation tabs.
- **Card controls and modals.** Minimizing a card, the grid's
  `all-minimized` mark, the pending card of the delete modal and the
  pending tab of the close-tab modal.
- **Scroll-spy.** Which tab `updateActiveNav` marks active, and the
  `skipActiveUpdate` flag that suspends it.
- **Logs panel.** The case-insensitive search over project fields, the
  selection rule after a search, opening and closing the panel, and the
  defaults that showing a project writes back into the shared record.
- **Rendering order and stats.** The project and skill sort comparators
  and the two project counts on the stat cards.

DOM elements are replaced by ids: a container is the `seq` of its
children's ids. Geometry is given as whole pixels. The mutable objects
are classes with `modifies` clauses:

- `Container`, a child list;
- `FoldEngine`, the lines, their `folded` classes in an `array`, and the
  collapsed groups;
- `CardGrid`, `DeleteFlow`, `CloseTabFlow`, `Navigation` and `Panel`.

The loops of the source are `for`/`while` loops with invariants. Each
method is specified against a function on values, and the lemmas state
the properties of those functions.

Modules, one per file: `Wrappers`, `Seqs` (child-list operations),
`Text` (ASCII lower-casing, trimming, splitting, substring search),
`Sorting` (a stable sort over a JavaScript-style comparator), `Fold`,
`DragReorder`, `CardControls`, `Navigation`, `Portfolio` and `LogsPanel`.

## Model

| member | source | states |
|---|---|---|
| Fold.CreateCodeLine | app.js:2232-2263 | A line gets a `data-fold-id` only when the id is truthy, and a fold target only when it is foldable and the target is truthy |
| Fold.FoldIdsOfJoin | app.js:1725 | Ids written space-separated into `data-fold-id` are read back by split-and-filter as exactly that list (a round trip) |
| Fold.FoldEngine.constructor | app.js:2232-2263 | Freshly rendered lines: nothing collapsed, no line folded, and the engine invariant (folded classes equal the visibility rule) holds |
| Fold.FoldEngine.ToggleFold | app.js:1703-1718 | No indicator controls the group: nothing changes. Otherwise exactly that group flips, and every line's class afterwards equals the visibility rule |
| Fold.FoldEngine.UpdateLineVisibility | app.js:1720-1753 | Each foldable line is folded exactly when one of its groups is collapsed and is not the group its own indicator controls; other lines keep their class |
| Fold.LineShown | app.js:1731-1744 | The inner loop: the line stays shown exactly when no group of the line hides it |
| Fold.RefreshLine | app.js:1724-1751 | One line's new class: the rule for a foldable line, unchanged for any other |
| Fold.UnfoldableNeverHidden | app.js:1722-1724 | A line without a fold id is never hidden |
| Fold.OwnerIgnoresOwnGroup | app.js:1739-1741 | Whether a group is collapsed does not change the visibility of the line that owns it |
| Fold.ToggleTwice | app.js:1703-1718 | Toggling a group twice brings every line back to the visibility it had |
| Fold.HiddenWithIds | app.js:1725-1743 | A line tagged with a clean id list is hidden iff some listed group is collapsed and is not its own target |
| Fold.SkillCardFolding | app.js:2096-2124 | In a skill card, the comment and category lines are always visible, and each item line is hidden exactly when `skills-<id>` is collapsed |
| Fold.OtherSkillCardUnaffected | app.js:2096-2124 | Collapsing one skill's group hides nothing in another skill's card |
| Fold.AboutCardFolding | app.js:2163-2218 | About card: `object-content` hides everything between the opening line and the closing brace; `roles-array` hides the role items; `skills-array` hides the skill items; nothing else is ever hidden |
| DragReorder.ClosestFacts | app.js:524-536 | The `reduce` finds nothing iff the pointer is at or past every candidate's middle. Otherwise it returns the candidate with the largest negative offset, the first one on ties |
| DragReorder.DragAfterElement | app.js:518-537 | The anchor, when there is one, is a child other than the dragged item |
| DragReorder.DragAfterElementFacts | app.js:1050-1063 | The same characterisation stated over the children without the dragged item (the vertical variant, with `top`/`height`) |
| DragReorder.ProvisionalMoveFacts | app.js:341-345 | A provisional move permutes the children and keeps the others in order. The dragged item ends last when there is no anchor, otherwise just before it |
| DragReorder.Container.NavDragOver | app.js:296-345 | No dragged tab: nothing moves. Otherwise the tabs become the provisional move under `clientX` |
| DragReorder.Container.CardDragOver | app.js:997-1010 | Hovering the card being dragged, or with no dragged element: nothing moves. Otherwise the provisional move under `clientY` |
| DragReorder.Container.Drop | app.js:1028-1044 | A drop on a card: the children become the drop rule's result |
| DragReorder.DroppedKeepsTarget | app.js:1034-1040 | The drop target is still a child after the drop |
| DragReorder.Container.TabDrop | app.js:494-513 | A drop on a tab: its own drop rule runs, then the card drop rule that the card wiring also attached to it |
| DragReorder.TabDropFacts | app.js:506-513 | Dropping a tab onto another permutes the tabs and keeps the others in order. When it sat just before the target, the second rule undoes the first and nothing moves; otherwise it ends just after the target |
| DragReorder.TabDropExample | app.js:506-513 | On tabs a, b, c, dropping a onto c gives b, c, a |
| DragReorder.ProvisionalMoveOthers | app.js:1002-1008 | A provisional move keeps every other item in order, on any list |
| DragReorder.Container.TabDragOver | app.js:997-1010 | A dragover on a tab runs the card handler, then the tab strip's. The result is the tab strip's provisional move alone |
| DragReorder.DropFacts | app.js:1032-1041 | Dropping permutes the children and keeps the others in order. If the dragged item was just before the target, the two swap; otherwise the dragged item ends just before the target |
| DragReorder.NextSibling | app.js:508 | A next sibling exists only for a child |
| DragReorder.SwapFacts | app.js:508-509 | Inserting the next sibling before the dragged item swaps the two and changes nothing else |
| DragReorder.Container.RestoreCardOrder | app.js:1094-1108 | No saved order: nothing moves. Otherwise each saved id that names a card is appended in turn |
| DragReorder.KnownIdsIn | app.js:1103-1108 | The ids the replay appends are exactly the saved ids that name a card |
| DragReorder.RestoreFacts | app.js:1094-1108 | Replaying permutes the cards. With a repeat-free saved order, the unmentioned cards stay in front in their order and the mentioned ones follow in saved order |
| DragReorder.SectionMap | app.js:548-569 | `top` maps to the hero when present, `dashboard` to the stats grid when present, and each content section present on the page to itself; there are no other keys |
| DragReorder.SectionMapInjective | app.js:548-569 | No section is mapped from two tabs, provided the hero and stats grid are two elements other than the content sections |
| DragReorder.OrderedSectionsIn | app.js:575-584 | A section is collected iff it is a child of the dashboard and some tab maps to it |
| DragReorder.OrderedSectionsDistinct | app.js:575-584 | Distinct tabs mapped one-to-one give sections without repeats |
| DragReorder.OrderChangedPrefix | app.js:589-598 | The order counts as unchanged iff the collected sections are the first children of the dashboard |
| DragReorder.CollectSections | app.js:575-584 | The `orderedSections` loop computes the collected sections |
| DragReorder.CheckOrderChanged | app.js:589-596 | The early-exit loop decides exactly the order-changed predicate |
| DragReorder.Container.RemoveEach | app.js:602-606 | Removing each collected section that is still a child leaves the other children in order |
| DragReorder.Container.AppendEach | app.js:609-611 | Appending each collected section in turn |
| DragReorder.Container.ReorderContentSections | app.js:539-612 | The dashboard's new children are the reorder function of its old children and the sections collected through the page's section map |
| DragReorder.ReorderedFacts | app.js:587-611 | Reordering keeps the same children without repeats. When the order changed, the unmapped children keep their order at the front and the mapped sections follow in tab order |
| DragReorder.DashboardReorderFacts | app.js:539-611 | The same, for the section map the page builds: the reorder is a permutation, and after a change the unmapped children lead and the tabs' sections follow in tab order |
| CardControls.CardGrid.constructor | app.js:1412-1425 | A fresh grid satisfies its invariant: icons match the minimized cards, and the mark agrees with "every card minimized" |
| CardControls.CardGrid.CheckAllMinimized | app.js:1412-1425 | A grid without cards keeps its mark; otherwise the mark is set iff every card is minimized |
| CardControls.CardGrid.ToggleMinimize | app.js:1427-1528 | Only that card's minimized flag flips, its icon shows the plus iff it is now minimized, and the grid's mark is brought up to date |
| CardControls.DeleteFlow.DeleteCard | app.js:1530-1533 | Only records the pending card and opens the modal |
| CardControls.DeleteFlow.HideDelete | app.js:1583-1589 | Closes the modal and clears the pending card; no card is removed |
| CardControls.DeleteFlow.ConfirmDelete | app.js:1591-1611 | Nothing pending: a no-op. Otherwise exactly the pending card leaves the grid, the mark is updated, and the slot is cleared |
| CardControls.DeleteLeavesOthers | app.js:1598-1599 | Removing a card from a repeat-free grid leaves exactly the other cards, in order |
| CardControls.CloseTabFlow.Open | app.js:1622-1626 | Records the tab and opens the modal |
| CardControls.CloseTabFlow.Close | app.js:1628-1631 | Closes the modal and clears the pending tab |
| CardControls.CloseTabFlow.Confirm | app.js:1633-1681 | No pending tab (or an empty key): nothing. Otherwise the tab, its footer link and its section are hidden where they exist, the stats grid too for `top`/`dashboard`, and the modal closes |
| Navigation.LastBandFacts | app.js:875-894 | The `forEach` over sections yields none iff no section contains the probe; otherwise it yields the last section that does |
| Navigation.ScrollTargetNoChange | app.js:823-896 | The tabs stay as they are iff the probe is in neither the hero, nor the stats area, nor any section |
| Navigation.ScrollTargetSection | app.js:875-894 | Below the hero and stats areas, a probe in exactly one section activates that section's tab |
| Navigation.Navigation.Highlight | app.js:881-886 | Exactly the tabs with the given key become active among the tabs |
| Navigation.Navigation.UpdateActiveNav | app.js:823-896 | The active tabs follow the scroll-spy decision, and stay as they are on no change |
| Navigation.Navigation.OnScroll | app.js:259-264 | While `skipActiveUpdate` is set the active tabs do not change; otherwise as `updateActiveNav` |
| Navigation.Navigation.NavDragEnd | app.js:390-421 | The dashboard is reordered after the tabs through the page's section map. A dragged tab becomes the only active tab, and the scroll-spy is suspended |
| Navigation.Navigation.ResumeScrollSpy | app.js:462-464 | The scroll-spy is re-enabled and nothing else changes |
| Portfolio.CompareNames | app.js:1985 | The name comparison returns -1, 0 or 1 |
| Portfolio.CompareNamesFlip | app.js:1985 | The name order is antisymmetric and ties only equal names |
| Portfolio.CompareNamesTransitive | app.js:1994 | The name order is transitive |
| Portfolio.ProjectOrderConsistent | app.js:1975-1995 | The project comparator is total and transitive, so sorting by it is well defined |
| Portfolio.SortProjectsFacts | app.js:1975-1995 | The sorted copy holds the same projects. Those with a year precede those without, years never increase, and equal years and the year-less group are in name order |
| Portfolio.ThreeProjectsExample | app.js:1975-1995 | Projects ending in 2020, in 2022 and never are laid out 2022, 2020, open |
| Portfolio.SortSkillsFacts | app.js:2072-2076 | The sorted skills are the given ones, in non-increasing item count |
| Portfolio.ActiveProjects | app.js:1889-1891 | Active projects are never more than all projects |
| Portfolio.ActiveProjectsConcat | app.js:1889-1891 | The active count adds up over concatenation |
| Portfolio.ActiveProjectsPermutation | app.js:1889-1891 | The active count depends only on which projects there are, not on their order |
| Portfolio.StatsAgreeWithRenderedOrder | app.js:1881-1891 | Both stat counts are the same on the rendered order as on the data |
| LogsPanel.FilterIn | app.js:2588-2650 | A project is in the filter's result iff it is in the list and matches |
| LogsPanel.FilterSublist | app.js:2588-2650 | The filter keeps the list's order |
| LogsPanel.SearchFacts | app.js:2583-2650 | The result is an order-preserving sublist. An empty term gives every project; otherwise exactly the matching ones |
| LogsPanel.MatchesNarrows | app.js:2588-2650 | A project matching a term matches every substring of it |
| LogsPanel.LongerQueryNarrows | app.js:2583-2650 | When one query's term contains another's, its results are a sublist of the other's |
| LogsPanel.SearchTermIgnoresCase | app.js:2583 | Lower-casing the query first changes nothing |
| LogsPanel.BlankQueryListsAll | app.js:2583-2586 | A query of whitespace only lists every project |
| LogsPanel.FindById | app.js:2440 | None iff no project has the id; otherwise the first project with it |
| LogsPanel.NormalizedFacts | app.js:2463-2482 | Showing a project fills in only a missing description and a missing status, and showing it again changes nothing more |
| LogsPanel.NormalizedStillMatches | app.js:2463-2482 | A project the search found before it was shown is still found afterwards |
| LogsPanel.ShownWithoutStatusMatchesOnline | app.js:2480-2482 | A project without a status, once shown, is found by searching for "online" |
| LogsPanel.FindReplaced | app.js:2440-2454 | After the write-back, looking the id up finds the updated project |
| LogsPanel.Panel.DataLoaded | app.js:1805 | The loaded data is replaced; the panel's own lists are not |
| LogsPanel.Panel.RenderProjectList | app.js:2411-2436 | The list says "no projects found" iff the filtered list is empty; otherwise it shows that list |
| LogsPanel.Panel.SelectProject | app.js:2438-2483 | The id is recorded even when unknown. Otherwise the first project with it is shown with its defaults filled in, and that update reaches the held, filtered and loaded lists |
| LogsPanel.Panel.Open | app.js:2365-2397 | Nothing on mobile or while no data is loaded. Otherwise a fresh copy is held and listed; a truthy id is recorded, and when a project has it, that project is shown and written back |
| LogsPanel.Panel.Close | app.js:2401-2408 | Closed, nothing selected, the search box empty, every project listed again |
| LogsPanel.Panel.KeepOrSelect | app.js:2654-2668 | Keeps a selection that is still listed, else selects and shows the first result with its write-back, else shows the no-match state. With results, the selection is always one of them |
| LogsPanel.Panel.HandleSearch | app.js:2570-2669 | The box holds the query. Projects are taken from the loaded data if none are held; with still none the list says "loading" and nothing else changes. Otherwise the search result is listed and the selection rule runs on it |
| Seqs.RemoveMultiset | app.js:602-606 | Removing a present child takes exactly one copy out of the child multiset |
| Seqs.InsertedBeforeFacts | app.js:344 | `insertBefore(x, ref)` permutes the children and keeps the others in order; `x` ends just before `ref` |
| Seqs.AppendAllFacts | app.js:609-611 | Appending a list of children moves them to the end in the list's order and keeps the rest in order |
| Sorting.SortFacts | app.js:1975 | Under a consistent comparator, the sorted copy is ordered and is a permutation of the input |
| Text.TrimFacts | app.js:2583 | Trimming removes exactly the leading and trailing whitespace |
| Text.SplitJoin | app.js:1725 | Splitting a space-joined list of space-free pieces gives the pieces back |
| Text.ContainsTransitive | app.js:2590 | Substring containment is transitive |

## Left out

- HTML rendering (`innerHTML` templates, cloned minimized titles, card controls set-up) is not modelled; only the ids and flags it attaches are.
- The data load (`fetch`, cache busting, error panel) and the `data && data.projects` check at app.js:1801 are not modelled. Its outcome is the method `DataLoaded`, and no data is `None`.
- `localStorage` and `JSON.parse` are not modelled. The saved card order is passed in, and `saveNavOrder`, `saveCardOrder` and `restoreNavOrder` return at once in the source, so they are not modelled at all.
- Timers are not modelled: the 1000 ms re-enable of the scroll-spy is the separate method `ResumeScrollSpy`, and the 100 ms `wasDragging` reset and the 300 ms title restore are dropped. The clock, footer stats, counters and typewriter are also not modelled.
- Geometry is given as whole pixels. `Offset` doubles the distance to an item's middle so the source's `/ 2` stays exact; this changes neither the sign nor the order of offsets. Floating-point `yearsExperience` is not modelled.
- Portfolio.CompareNames: `localeCompare` is modelled as code-point lexicographic order, a concrete total order; locale collation is not modelled.
- Text.Lower and Text.Trim: `toLowerCase` and `trim` are modelled on ASCII letters and ASCII whitespace only.
- Scrolling (`scrollTo` after a drag or a tab close), the mobile menu that mirrors the active tab, the theme toggle, tooltips and listener de-duplication are UI only and not modelled.
- Navigation.Navigation.NavDragEnd: the active state is kept per tab key, so the model says which key is active rather than which element carries the class.
- CardControls.CloseTabFlow.Confirm: switching to the first visible tab when the closed tab was active only scrolls, so it is not modelled.
- DragReorder.Container.CardDragOver: a card dragged in from another grid is appended to this grid; its removal from the grid it left is not modelled, since only the target container is represented.
- DragReorder.NextSibling: it counts element siblings only; whitespace text nodes between elements are not modelled.
- DragReorder.Container.TabDrop and DragReorder.Container.TabDragOver model the wide-screen page. There, app.js:178-179 makes the tabs draggable before the portfolio loads, so the card wiring attaches to them too. On a narrow screen the tabs get no drag handlers at all, and that case is not modelled. The tabs are taken to be direct children of the tab strip, and the tab being dragged is the element that carries the `dragging` class.
- LogsPanel.Panel.Open: while no data is loaded the source calls `portfolio.load()` and opens again once it resolves (app.js:2372-2382). That asynchronous retry is not modelled. Open then changes nothing, and `DataLoaded` followed by `Open` gives what the retry gives.
- LogsPanel.Panel.SelectProject: projects are values, not shared objects. The write-back replaces every record equal to the shown one in the held, filtered and loaded lists. This is the same as updating the shared object, except when two distinct records agree in every field. The `active` marks on the list items are rendering and are not modelled.
- Fold.SkillCardFolding and Fold.OtherSkillCardUnaffected require a skill id without spaces, and one other than `array`. With `array`, `skills-array` would collide with a group of the About card. Ids with spaces would be split into several groups.
- Portfolio.Project: fields are typed. The source's falsy defaults (`|| ''`, missing arrays) are modelled as empty strings and empty sequences, and metric values as their string form.
- Sorting.Sort: it is an insertion sort that keeps tied elements in input order, as the stable `Array.prototype.sort` of current engines does; that it is stable is not stated as a lemma.
- Selector escaping in `querySelector` calls built from ids is not modelled.
