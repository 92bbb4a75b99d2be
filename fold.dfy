/** The fold engine of the pseudo-code blocks (`code.toggleFold`,
    `code.updateLineVisibility`) and the way `createCodeLine` and the About
    and Skills generators tag lines with fold groups. */
module Fold {
  import opened Wrappers
  import opened Seqs
  import opened Text

  /** A rendered `.code-line`: its `data-fold-id` attribute, present exactly
      when the line is `.code-foldable`, and the `data-fold-target` of its
      fold indicator, present when the indicator controls a group. */
  datatype CodeLine = CodeLine(foldId: Option<string>, foldTarget: Option<string>)

  /** `createCodeLine(num, foldId, content, isFoldable, indent, foldTarget)`,
      reduced to the fold tags it attaches. */
  function CreateCodeLine(foldId: Option<string>, isFoldable: bool, foldTarget: Option<string>): CodeLine {
    CodeLine(if Truthy(foldId) then foldId else None,
             if isFoldable && Truthy(foldTarget) then foldTarget else None)
  }

  /** The pieces of `split(' ')` that survive `.filter(id => id.trim())`. */
  function NonBlank(parts: seq<string>): (r: seq<string>)
    ensures |r| <= |parts|
  {
    if parts == [] then []
    else (if Trim(parts[0]) != "" then [parts[0]] else []) + NonBlank(parts[1..])
  }

  /** The fold groups a line belongs to, read from its `data-fold-id`. */
  function FoldIds(attr: string): seq<string> {
    NonBlank(Split(attr))
  }

  /** A well-formed group id: no space inside and not all whitespace. */
  predicate CleanId(id: string) {
    NoSpace(id) && exists i :: 0 <= i < |id| && !IsSpace(id[i])
  }

  /** Every group named in a line's attribute is one checked by the line. */
  lemma {:induction false} NonBlankKeepsClean(parts: seq<string>)
    requires forall k :: 0 <= k < |parts| ==> CleanId(parts[k])
    ensures NonBlank(parts) == parts
  {
    if parts != [] {
      TrimFacts(parts[0]);
      NonBlankKeepsClean(parts[1..]);
      assert parts == [parts[0]] + parts[1..];
    }
  }

  /** Round trip of the attribute: ids written space-separated into
      `data-fold-id` are read back as exactly that list. */
  lemma FoldIdsOfJoin(ids: seq<string>)
    requires |ids| >= 1
    requires forall k :: 0 <= k < |ids| ==> CleanId(ids[k])
    ensures FoldIds(Join(ids)) == ids
  {
    SplitJoin(ids);
    NonBlankKeepsClean(ids);
  }

  /** Group `id` being collapsed hides `line`, unless the line's own indicator
      controls `id`. */
  predicate Hides(id: string, line: CodeLine, collapsed: set<string>) {
    id in collapsed && line.foldTarget != Some(id)
  }

  /** The visibility rule: a foldable line is folded exactly when one of its
      groups is collapsed and is not the group the line itself controls. */
  ghost predicate Hidden(line: CodeLine, collapsed: set<string>) {
    line.foldId.Some? &&
    var ids := FoldIds(line.foldId.value);
    exists k :: 0 <= k < |ids| && Hides(ids[k], line, collapsed)
  }

  /** A line's `folded` class after `updateLineVisibility()`, given the one
      it had: foldable lines follow the rule, the others keep theirs. */
  ghost predicate Refreshed(line: CodeLine, collapsed: set<string>, was: bool) {
    if line.foldId.Some? then Hidden(line, collapsed) else was
  }

  /** The `folded` class of every line, as the rule gives it. */
  ghost function View(lines: seq<CodeLine>, collapsed: set<string>): (v: seq<bool>)
    ensures |v| == |lines|
  {
    seq(|lines|, i requires 0 <= i < |lines| => Hidden(lines[i], collapsed))
  }

  /** The groups some indicator controls: those `toggleFold` can find. */
  function Targets(lines: seq<CodeLine>): (t: set<string>)
  {
    set i | 0 <= i < |lines| && lines[i].foldTarget.Some? :: lines[i].foldTarget.value
  }

  /** The fold state of a page: the rendered lines, their `folded` classes
      and the `collapsed` flags of the indicators, one per group (the first
      indicator of a group is the one `querySelector` finds). */
  class FoldEngine {
    const lines: seq<CodeLine>
    const folded: array<bool>
    var collapsed: set<string>

    ghost predicate Valid()
      reads this, folded
    {
      && folded.Length == |lines|
      && collapsed <= Targets(lines)
      && folded[..] == View(lines, collapsed)
    }

    /** Freshly rendered lines: every group expanded, nothing folded. */
    constructor (rendered: seq<CodeLine>)
      ensures Valid() && fresh(folded)
      ensures lines == rendered && collapsed == {}
      ensures forall i :: 0 <= i < folded.Length ==> !folded[i]
    {
      lines := rendered;
      collapsed := {};
      folded := new bool[|rendered|](_ => false);
      new;
      assert folded[..] == View(rendered, {});
    }

    /** `toggleFold(foldTarget)`: a group nobody controls is ignored;
        otherwise exactly that group flips and every line is recomputed. */
    method ToggleFold(target: string)
      requires Valid()
      modifies this, folded
      ensures Valid()
      ensures collapsed == if target in Targets(lines) then Flip(old(collapsed), target) else old(collapsed)
      ensures folded[..] == View(lines, collapsed)
    {
      if target !in Targets(lines) {
        return;
      }
      collapsed := Flip(collapsed, target);
      UpdateLineVisibility();
    }

    /** `updateLineVisibility()`: each foldable line gets `folded` exactly
        when one of its groups hides it; other lines are left as they are. */
    method UpdateLineVisibility()
      requires folded.Length == |lines|
      modifies folded
      ensures forall i :: 0 <= i < |lines| ==> folded[i] == Refreshed(lines[i], collapsed, old(folded[i]))
    {
      for i := 0 to |lines|
        invariant forall j :: 0 <= j < i ==> folded[j] == Refreshed(lines[j], collapsed, old(folded[j]))
        invariant forall j :: i <= j < |lines| ==> folded[j] == old(folded[j])
      {
        var now := RefreshLine(lines[i], collapsed, folded[i]);
        folded[i] := now;
      }
    }
  }

  /** One step of `updateLineVisibility()`: a foldable line's class is
      recomputed, any other line keeps its own. */
  method RefreshLine(line: CodeLine, collapsed: set<string>, was: bool) returns (now: bool)
    ensures now == Refreshed(line, collapsed, was)
  {
    now := was;
    if line.foldId.Some? {
      var shown := LineShown(line, collapsed);
      now := !shown;
    }
  }

  /** The inner loop of `updateLineVisibility()`: a foldable line stays
      shown exactly when none of its groups hides it. */
  method LineShown(line: CodeLine, collapsed: set<string>) returns (shown: bool)
    requires line.foldId.Some?
    ensures shown == !Hidden(line, collapsed)
  {
    var ids := FoldIds(line.foldId.value);
    shown := true;
    var k := 0;
    while k < |ids|
      invariant 0 <= k <= |ids|
      invariant shown <==> forall m :: 0 <= m < k ==> !Hides(ids[m], line, collapsed)
    {
      if ids[k] in collapsed && line.foldTarget != Some(ids[k]) {
        shown := false;
      }
      k := k + 1;
    }
  }

  /** Non-foldable lines are never folded. */
  lemma UnfoldableNeverHidden(line: CodeLine, collapsed: set<string>)
    requires line.foldId.None?
    ensures !Hidden(line, collapsed)
  {
  }

  /** The state of a group's owner line does not depend on that group. */
  lemma {:induction false} OwnerIgnoresOwnGroup(line: CodeLine, collapsed: set<string>, id: string)
    requires line.foldTarget == Some(id)
    ensures Hidden(line, collapsed + {id}) == Hidden(line, collapsed - {id})
  {
    if line.foldId.Some? {
      var ids := FoldIds(line.foldId.value);
      if Hidden(line, collapsed + {id}) {
        var k :| 0 <= k < |ids| && Hides(ids[k], line, collapsed + {id});
        assert Hides(ids[k], line, collapsed - {id});
      }
      if Hidden(line, collapsed - {id}) {
        var k :| 0 <= k < |ids| && Hides(ids[k], line, collapsed - {id});
        assert Hides(ids[k], line, collapsed + {id});
      }
    }
  }

  /** Toggling a group twice brings back the collapsed state, hence, by the
      engine's invariant, every line's visibility. */
  lemma ToggleTwice(lines: seq<CodeLine>, collapsed: set<string>, id: string)
    ensures View(lines, Flip(Flip(collapsed, id), id)) == View(lines, collapsed)
  {
    assert Flip(Flip(collapsed, id), id) == collapsed;
  }

  /** Nesting: for a line tagged with a clean list of groups, it is hidden
      exactly when one of those groups is collapsed and is not the group it
      controls. */
  lemma HiddenWithIds(ids: seq<string>, target: Option<string>, collapsed: set<string>)
    requires |ids| >= 1
    requires forall k :: 0 <= k < |ids| ==> CleanId(ids[k])
    ensures Hidden(CodeLine(Some(Join(ids)), target), collapsed) <==>
      exists k :: 0 <= k < |ids| && ids[k] in collapsed && target != Some(ids[k])
  {
    FoldIdsOfJoin(ids);
  }

  // ---------------------------------------------------------------------
  // Lines produced by the Skills generator
  // ---------------------------------------------------------------------

  /** The group of the skill category with id `skillId`. */
  function SkillFoldId(skillId: string): string {
    "skills-" + skillId
  }

  /** The lines of one skill card: a comment, the category key (which owns
      the group) and one list item per skill name (which belong to it). */
  function SkillLines(skillId: string, itemCount: nat): (lines: seq<CodeLine>)
    ensures |lines| == itemCount + 2
  {
    var f := SkillFoldId(skillId);
    [CreateCodeLine(None, false, None), CreateCodeLine(Some(f), true, Some(f))]
      + seq(itemCount, _ => CreateCodeLine(Some(f), false, None))
  }

  lemma SkillFoldIdClean(skillId: string)
    requires NoSpace(skillId)
    ensures CleanId(SkillFoldId(skillId))
  {
    var f := SkillFoldId(skillId);
    assert f[0] == 's' && !IsSpace(f[0]);
    forall i | 0 <= i < |f| ensures f[i] != ' ' {
      if i >= 7 {
        assert f[i] == skillId[i - 7];
      }
    }
  }

  /** A line tagged with one clean group `g`. */
  lemma OneGroupLine(g: string, target: Option<string>, collapsed: set<string>)
    requires CleanId(g)
    ensures Hidden(CodeLine(Some(g), target), collapsed) <==> g in collapsed && target != Some(g)
  {
    FoldIdsOfJoin([g]);
    var ids := FoldIds(g);
    assert ids == [g];
    if g in collapsed && target != Some(g) {
      assert Hides(ids[0], CodeLine(Some(g), target), collapsed);
    }
  }

  /** An array item tagged with its array group `g` and the enclosing group
      `outer`, controlling neither. */
  lemma TwoGroupLine(g: string, outer: string, collapsed: set<string>)
    requires CleanId(g) && CleanId(outer)
    ensures Hidden(CodeLine(Some(g + " " + outer), None), collapsed) <==> g in collapsed || outer in collapsed
  {
    var ids := [g, outer];
    assert Join(ids[1..]) == outer;
    FoldIdsOfJoin(ids);
    var line := CodeLine(Some(g + " " + outer), None);
    if g in collapsed {
      assert Hides(ids[0], line, collapsed);
    }
    if outer in collapsed {
      assert Hides(ids[1], line, collapsed);
    }
  }

  /** Collapsing a skill category's group hides exactly its item lines and
      leaves its comment and category lines visible; while the group is
      expanded the card shows every line. */
  lemma SkillCardFolding(skillId: string, itemCount: nat, collapsed: set<string>)
    requires NoSpace(skillId)
    ensures var lines := SkillLines(skillId, itemCount);
      forall i :: 0 <= i < |lines| ==>
        (Hidden(lines[i], collapsed) <==> i >= 2 && SkillFoldId(skillId) in collapsed)
  {
    var f := SkillFoldId(skillId);
    var lines := SkillLines(skillId, itemCount);
    SkillFoldIdClean(skillId);
    OneGroupLine(f, None, collapsed);
    OneGroupLine(f, Some(f), collapsed);
    forall i | 0 <= i < |lines|
      ensures Hidden(lines[i], collapsed) <==> i >= 2 && f in collapsed
    {
      if i >= 2 {
        assert lines[i] == CodeLine(Some(f), None);
      } else if i == 1 {
        assert lines[i] == CodeLine(Some(f), Some(f));
      }
    }
  }

  /** A collapsed skill group hides nothing in another skill's card. */
  lemma OtherSkillCardUnaffected(skillId: string, otherId: string, itemCount: nat)
    requires NoSpace(skillId) && NoSpace(otherId) && skillId != otherId
    ensures var lines := SkillLines(otherId, itemCount);
      forall i :: 0 <= i < |lines| ==> !Hidden(lines[i], {SkillFoldId(skillId)})
  {
    var c := {SkillFoldId(skillId)};
    assert SkillFoldId(otherId) !in c by {
      assert SkillFoldId(skillId)[7..] == skillId;
      assert SkillFoldId(otherId)[7..] == otherId;
    }
    SkillCardFolding(otherId, itemCount, c);
  }

  // ---------------------------------------------------------------------
  // Lines produced by the About generator
  // ---------------------------------------------------------------------

  const ObjectContent := "object-content"
  const RolesArray := "roles-array"
  const SkillsArray := "skills-array"

  /** The lines of the About card for `roles` roles and `skills` skills:
      `const person = {` owns `object-content`, the `roles: [` and
      `skills: [` lines own the two array groups, the array items belong to
      both their array group and `object-content`, and the first and last
      lines take no part in folding. */
  function AboutLines(roles: nat, skills: nat): (lines: seq<CodeLine>)
    ensures |lines| == roles + skills + 10
  {
    AboutLinesWith(ObjectContent, RolesArray, SkillsArray, roles, skills)
  }

  /** The About card's layout for given group names. */
  function AboutLinesWith(oc: string, ra: string, sa: string, roles: nat, skills: nat): (lines: seq<CodeLine>)
    ensures |lines| == roles + skills + 10
  {
    var member := CreateCodeLine(Some(oc), false, None);
    [CreateCodeLine(None, false, None),
     CreateCodeLine(Some(oc), true, Some(oc)),
     member,
     CreateCodeLine(Some(oc), true, Some(ra))]
    + seq(roles, _ => CreateCodeLine(Some(ra + " " + oc), false, None))
    + [member, member,
       CreateCodeLine(Some(oc), true, Some(sa))]
    + seq(skills, _ => CreateCodeLine(Some(sa + " " + oc), false, None))
    + [member, member, CreateCodeLine(None, false, None)]
  }

  /** Which part of the About card line `i` is in. */
  predicate IsRoleLine(roles: nat, i: int) {
    4 <= i < 4 + roles
  }

  predicate IsSkillLine(roles: nat, skills: nat, i: int) {
    roles + 7 <= i < roles + 7 + skills
  }

  lemma ObjectContentClean()
    ensures CleanId(ObjectContent)
  {
    assert !IsSpace(ObjectContent[0]);
  }

  lemma RolesArrayClean()
    ensures CleanId(RolesArray)
  {
    assert !IsSpace(RolesArray[0]);
  }

  lemma SkillsArrayClean()
    ensures CleanId(SkillsArray)
  {
    assert !IsSpace(SkillsArray[0]);
  }

  /** The line at each position of the About card. */
  lemma AboutLineAt(oc: string, ra: string, sa: string, roles: nat, skills: nat, i: nat)
    requires oc != "" && ra != "" && sa != ""
    requires i < roles + skills + 10
    ensures var line := AboutLinesWith(oc, ra, sa, roles, skills)[i];
      line == if i == 0 || i == roles + skills + 9 then CodeLine(None, None)
        else if i == 1 then CodeLine(Some(oc), Some(oc))
        else if i == 3 then CodeLine(Some(oc), Some(ra))
        else if IsRoleLine(roles, i) then CodeLine(Some(ra + " " + oc), None)
        else if i == roles + 6 then CodeLine(Some(oc), Some(sa))
        else if IsSkillLine(roles, skills, i) then CodeLine(Some(sa + " " + oc), None)
        else CodeLine(Some(oc), None)
  {
    var member := CreateCodeLine(Some(oc), false, None);
    var p1 := [CreateCodeLine(None, false, None), CreateCodeLine(Some(oc), true, Some(oc)), member,
               CreateCodeLine(Some(oc), true, Some(ra))];
    var p2 := seq(roles, _ => CreateCodeLine(Some(ra + " " + oc), false, None));
    var p3 := [member, member, CreateCodeLine(Some(oc), true, Some(sa))];
    var p4 := seq(skills, _ => CreateCodeLine(Some(sa + " " + oc), false, None));
    var p5 := [member, member, CreateCodeLine(None, false, None)];
    var lines := AboutLinesWith(oc, ra, sa, roles, skills);
    assert lines == p1 + p2 + p3 + p4 + p5;
    assert (ra + " " + oc) != "";
    assert (sa + " " + oc) != "";
    if i < 4 {
      assert lines[i] == p1[i];
    } else if i < 4 + roles {
      assert lines[i] == p2[i - 4];
    } else if i < roles + 7 {
      assert lines[i] == p3[i - roles - 4];
    } else if i < roles + 7 + skills {
      assert lines[i] == p4[i - roles - 7];
    } else {
      assert lines[i] == p5[i - roles - skills - 7];
    }
  }

  /** The About card under any fold state: a line is hidden exactly when it
      lies inside the object and `object-content` is collapsed, or it is an
      item of an array whose group is collapsed. The first line, the
      `const person = {` line and the closing brace are always visible. */
  lemma AboutCardFolding(roles: nat, skills: nat, collapsed: set<string>)
    ensures var lines := AboutLines(roles, skills);
      forall i :: 0 <= i < |lines| ==>
        (Hidden(lines[i], collapsed) <==>
          || (ObjectContent in collapsed && 2 <= i < |lines| - 1)
          || (RolesArray in collapsed && IsRoleLine(roles, i))
          || (SkillsArray in collapsed && IsSkillLine(roles, skills, i)))
  {
    ObjectContentClean();
    RolesArrayClean();
    SkillsArrayClean();
    AboutFoldingWith(ObjectContent, RolesArray, SkillsArray, roles, skills, collapsed);
  }

  lemma AboutFoldingWith(oc: string, ra: string, sa: string, roles: nat, skills: nat, collapsed: set<string>)
    requires CleanId(oc) && CleanId(ra) && CleanId(sa) && oc != ra && oc != sa
    ensures var lines := AboutLinesWith(oc, ra, sa, roles, skills);
      forall i :: 0 <= i < |lines| ==>
        (Hidden(lines[i], collapsed) <==>
          || (oc in collapsed && 2 <= i < |lines| - 1)
          || (ra in collapsed && IsRoleLine(roles, i))
          || (sa in collapsed && IsSkillLine(roles, skills, i)))
  {
    var lines := AboutLinesWith(oc, ra, sa, roles, skills);
    OneGroupLine(oc, None, collapsed);
    OneGroupLine(oc, Some(oc), collapsed);
    OneGroupLine(oc, Some(ra), collapsed);
    OneGroupLine(oc, Some(sa), collapsed);
    TwoGroupLine(ra, oc, collapsed);
    TwoGroupLine(sa, oc, collapsed);
    forall i | 0 <= i < |lines|
      ensures Hidden(lines[i], collapsed) <==>
          || (oc in collapsed && 2 <= i < |lines| - 1)
          || (ra in collapsed && IsRoleLine(roles, i))
          || (sa in collapsed && IsSkillLine(roles, skills, i))
    {
      AboutLineAt(oc, ra, sa, roles, skills, i);
    }
  }
}
