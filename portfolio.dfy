/** The portfolio records the page renders, the order in which
    `generateProjects` and `generateSkills` lay them out, and the counts
    `generateStats` shows. */
module Portfolio {
  import opened Wrappers
  import opened Sorting

  /** A project metric: its `label` as `caption`; `value` is the text `toString()` gives, empty when
      the value is missing or falsy. Missing text fields are empty strings. */
  datatype Metric = Metric(caption: string, value: string)

  datatype ProjectUrl = ProjectUrl(caption: string)

  datatype Project = Project(
    id: string,
    name: string,
    description: string,
    shortDescription: string,
    company: string,
    status: string,
    tech: seq<string>,
    metrics: seq<Metric>,
    urls: seq<ProjectUrl>,
    startYear: Option<int>,
    endYear: Option<int>)

  /** A skill category with the names of its items. */
  datatype Skill = Skill(id: string, category: string, items: seq<string>)

  // ---------------------------------------------------------------------
  // Names: localeCompare as a code-point lexicographic order
  // ---------------------------------------------------------------------

  /** `a.localeCompare(b)`: negative, zero or positive as `a` sorts before,
      equal to or after `b`. */
  function CompareNames(a: string, b: string): (r: int)
    ensures -1 <= r <= 1
  {
    if a == [] && b == [] then 0
    else if a == [] then -1
    else if b == [] then 1
    else if a[0] < b[0] then -1
    else if a[0] > b[0] then 1
    else CompareNames(a[1..], b[1..])
  }

  /** The name order is antisymmetric and only ties equal names. */
  lemma {:induction false} CompareNamesFlip(a: string, b: string)
    ensures CompareNames(b, a) == -CompareNames(a, b)
    ensures CompareNames(a, b) == 0 <==> a == b
  {
    if a != [] && b != [] && a[0] == b[0] {
      CompareNamesFlip(a[1..], b[1..]);
      assert a == [a[0]] + a[1..] && b == [b[0]] + b[1..];
    }
  }

  /** The name order is transitive. */
  lemma {:induction false} CompareNamesTransitive(a: string, b: string, c: string)
    requires CompareNames(a, b) <= 0 && CompareNames(b, c) <= 0
    ensures CompareNames(a, c) <= 0
  {
    if a != [] && b != [] && c != [] && a[0] == b[0] == c[0] {
      CompareNamesTransitive(a[1..], b[1..], c[1..]);
    } else if a != [] && b != [] && c != [] && a[0] == b[0] {
      CompareNamesFlip(b, c);
    } else if a != [] && b != [] && c != [] && b[0] == c[0] {
      CompareNamesFlip(a, b);
    } else if b == [] {
      CompareNamesFlip(a, b);
      assert a == [];
    }
  }

  // ---------------------------------------------------------------------
  // Project order (generateProjects)
  // ---------------------------------------------------------------------

  /** The year a project sorts by: its end year, else its start year. */
  function SortYear(p: Project): Option<int> {
    if p.endYear.Some? then p.endYear else p.startYear
  }

  /** The comparator handed to `sort`: projects with a year first, latest
      year first, and by name among equal years and among projects without
      a year. */
  function CompareProjects(a: Project, b: Project): int {
    var aYear := SortYear(a);
    var bYear := SortYear(b);
    if aYear.None? && bYear.Some? then 1
    else if aYear.Some? && bYear.None? then -1
    else if aYear.None? && bYear.None? then CompareNames(a.name, b.name)
    else if bYear.value != aYear.value then bYear.value - aYear.value
    else CompareNames(a.name, b.name)
  }

  lemma ProjectOrderConsistent()
    ensures Consistent(CompareProjects)
  {
    forall a, b ensures CompareProjects(a, b) <= 0 || CompareProjects(b, a) <= 0 {
      CompareNamesFlip(a.name, b.name);
    }
    forall a, b, c | CompareProjects(a, b) <= 0 && CompareProjects(b, c) <= 0
      ensures CompareProjects(a, c) <= 0
    {
      if SortYear(a) == SortYear(b) == SortYear(c) {
        CompareNamesTransitive(a.name, b.name, c.name);
      }
    }
  }

  /** The projects in the order `generateProjects` renders them, from a copy
      of the list. */
  function SortProjects(projects: seq<Project>): seq<Project> {
    Sort(projects, CompareProjects)
  }

  /** The rendered order holds exactly the given projects; every project
      with a year precedes every project without one; years never increase
      along the list; and equal years, as well as the projects without a
      year, are in name order. */
  lemma SortProjectsFacts(projects: seq<Project>)
    ensures var r := SortProjects(projects);
      && multiset(r) == multiset(projects)
      && (forall i, j :: 0 <= i < j < |r| && SortYear(r[j]).Some? ==> SortYear(r[i]).Some?)
      && (forall i, j :: 0 <= i < j < |r| && SortYear(r[i]).Some? && SortYear(r[j]).Some? ==>
            SortYear(r[i]).value >= SortYear(r[j]).value)
      && (forall i, j :: 0 <= i < j < |r| && SortYear(r[i]) == SortYear(r[j]) ==>
            CompareNames(r[i].name, r[j].name) <= 0)
  {
    ProjectOrderConsistent();
    SortFacts(projects, CompareProjects);
  }

  /** The end-to-end case of three projects ending in 2020, in 2022 and
      not at all (with no start year): 2022 first, then 2020, the open one
      last. */
  lemma ThreeProjectsExample(p2020: Project, p2022: Project, pOpen: Project)
    requires p2020.endYear == Some(2020) && p2022.endYear == Some(2022)
    requires pOpen.endYear.None? && pOpen.startYear.None?
    ensures SortProjects([p2020, p2022, pOpen]) == [p2022, p2020, pOpen]
  {
    assert Sort([pOpen], CompareProjects) == [pOpen];
    assert [p2022, pOpen][1..] == [pOpen];
    assert Sort([p2022, pOpen], CompareProjects) == [p2022, pOpen];
    assert [p2020, p2022, pOpen][1..] == [p2022, pOpen];
    assert Insert(p2020, [pOpen], CompareProjects) == [p2020, pOpen];
  }

  // ---------------------------------------------------------------------
  // Skill order (generateSkills)
  // ---------------------------------------------------------------------

  /** The comparator handed to `sort`: categories with more items first. */
  function CompareSkills(a: Skill, b: Skill): int {
    |b.items| - |a.items|
  }

  function SortSkills(skills: seq<Skill>): seq<Skill> {
    Sort(skills, CompareSkills)
  }

  /** The skill cards come in non-increasing item count and are the given
      categories. */
  lemma SortSkillsFacts(skills: seq<Skill>)
    ensures var r := SortSkills(skills);
      && multiset(r) == multiset(skills)
      && forall i, j :: 0 <= i < j < |r| ==> |r[i].items| >= |r[j].items|
  {
    assert Consistent(CompareSkills);
    SortFacts(skills, CompareSkills);
  }

  // ---------------------------------------------------------------------
  // Stat cards (generateStats)
  // ---------------------------------------------------------------------

  /** `PROJECTS`: the number of projects. */
  function ProjectsCompleted(projects: seq<Project>): nat {
    |projects|
  }

  /** `ACTIVE PROJECTS`: the number of projects without an end year. */
  function ActiveProjects(projects: seq<Project>): (n: nat)
    ensures n <= ProjectsCompleted(projects)
  {
    if projects == [] then 0
    else (if projects[0].endYear.None? then 1 else 0) + ActiveProjects(projects[1..])
  }

  lemma {:induction false} ActiveProjectsConcat(a: seq<Project>, b: seq<Project>)
    ensures ActiveProjects(a + b) == ActiveProjects(a) + ActiveProjects(b)
  {
    if a == [] {
      assert a + b == b;
    } else {
      assert (a + b)[1..] == a[1..] + b;
      ActiveProjectsConcat(a[1..], b);
    }
  }

  /** Taking the project at position `k` out of a list takes its share out
      of the open count. */
  lemma {:induction false} ActiveProjectsRemoveAt(b: seq<Project>, k: int)
    requires 0 <= k < |b|
    ensures ActiveProjects(b) == ActiveProjects(b[..k] + b[k + 1..]) + ActiveProjects([b[k]])
  {
    var front, one, back := b[..k], [b[k]], b[k + 1..];
    var upTo := front + one;
    assert b == upTo + back;
    ActiveProjectsConcat(upTo, back);
    ActiveProjectsConcat(front, one);
    ActiveProjectsConcat(front, back);
  }

  /** The count of open projects depends only on which projects there are,
      not on their order. */
  lemma {:induction false} ActiveProjectsPermutation(a: seq<Project>, b: seq<Project>)
    requires multiset(a) == multiset(b)
    ensures ActiveProjects(a) == ActiveProjects(b)
    decreases |a|
  {
    if a == [] {
      assert |b| == |multiset(b)| == 0;
    } else {
      var x := a[0];
      assert x in multiset(b);
      var k :| 0 <= k < |b| && b[k] == x;
      var b' := b[..k] + b[k + 1..];
      assert b == b[..k] + [x] + b[k + 1..];
      assert a == [x] + a[1..];
      assert multiset(a[1..]) == multiset(a) - multiset{x};
      assert multiset(b') == multiset(b) - multiset{x};
      ActiveProjectsPermutation(a[1..], b');
      ActiveProjectsRemoveAt(b, k);
      ActiveProjectsConcat([x], a[1..]);
    }
  }

  /** The stat cards show the same counts whatever the rendered order. */
  lemma StatsAgreeWithRenderedOrder(projects: seq<Project>)
    ensures ProjectsCompleted(SortProjects(projects)) == ProjectsCompleted(projects)
    ensures ActiveProjects(SortProjects(projects)) == ActiveProjects(projects)
  {
    SortProjectsFacts(projects);
    ActiveProjectsPermutation(SortProjects(projects), projects);
  }
}
