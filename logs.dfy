/** The project logs panel: its search over every text field of a project,
    the selection rule after each search, and opening and closing the
    panel. */
module LogsPanel {
  import opened Wrappers
  import opened Text
  import opened Portfolio

  // ---------------------------------------------------------------------
  // The search predicate
  // ---------------------------------------------------------------------

  /** The term a query searches for: lower-cased, then trimmed. */
  function SearchTerm(query: string): string {
    Trim(Lower(query))
  }

  /** One field matches when its lower-cased text contains the term; a
      missing field is the empty string, which contains no non-empty term. */
  predicate FieldMatches(field: string, term: string) {
    Contains(Lower(field), term)
  }

  /** The filter callback: name, description, short description, company,
      status, any technology, any metric label or value, any link label, or
      the id contains the term. */
  predicate Matches(p: Project, term: string) {
    || FieldMatches(p.name, term)
    || FieldMatches(p.description, term)
    || FieldMatches(p.shortDescription, term)
    || FieldMatches(p.company, term)
    || FieldMatches(p.status, term)
    || (exists i :: 0 <= i < |p.tech| && FieldMatches(p.tech[i], term))
    || (exists i :: 0 <= i < |p.metrics| &&
          (FieldMatches(p.metrics[i].caption, term) || FieldMatches(p.metrics[i].value, term)))
    || (exists i :: 0 <= i < |p.urls| && FieldMatches(p.urls[i].caption, term))
    || FieldMatches(p.id, term)
  }

  /** `allProjects.filter(...)`. */
  function Filter(projects: seq<Project>, term: string): (r: seq<Project>)
    ensures |r| <= |projects|
  {
    if projects == [] then []
    else (if Matches(projects[0], term) then [projects[0]] else []) + Filter(projects[1..], term)
  }

  /** The search result: every project for the empty term, the matching ones
      otherwise. */
  function Search(projects: seq<Project>, term: string): seq<Project> {
    if term == [] then projects else Filter(projects, term)
  }

  /** `r` is `s` with some elements left out, the rest in their order. */
  predicate IsSublist(r: seq<Project>, s: seq<Project>)
    decreases |s|
  {
    if r == [] then true
    else if s == [] then false
    else (r[0] == s[0] && IsSublist(r[1..], s[1..])) || IsSublist(r, s[1..])
  }

  lemma {:induction false} SublistReflexive(s: seq<Project>)
    ensures IsSublist(s, s)
  {
    if s != [] {
      SublistReflexive(s[1..]);
    }
  }

  /** The filter keeps exactly the matching projects. */
  lemma {:induction false} FilterIn(projects: seq<Project>, term: string, p: Project)
    ensures p in Filter(projects, term) <==> p in projects && Matches(p, term)
  {
    if projects != [] {
      FilterIn(projects[1..], term, p);
      assert projects == [projects[0]] + projects[1..];
    }
  }

  /** A stricter predicate keeps a sublist of what a looser one keeps. */
  lemma {:induction false} FilterNarrows(projects: seq<Project>, narrow: string, wide: string)
    requires forall p :: Matches(p, narrow) ==> Matches(p, wide)
    ensures IsSublist(Filter(projects, narrow), Filter(projects, wide))
  {
    if projects != [] {
      var p, rest := projects[0], projects[1..];
      FilterNarrows(rest, narrow, wide);
      var a, b := Filter(rest, narrow), Filter(rest, wide);
      if Matches(p, narrow) {
        assert ([p] + a)[1..] == a && ([p] + b)[1..] == b;
      } else if Matches(p, wide) {
        assert ([p] + b)[1..] == b;
        assert Filter(projects, narrow) == a;
      } else {
        assert Filter(projects, narrow) == a && Filter(projects, wide) == b;
      }
    }
  }

  /** The filter keeps a sublist of the projects. */
  lemma {:induction false} FilterSublist(projects: seq<Project>, term: string)
    ensures IsSublist(Filter(projects, term), projects)
  {
    if projects != [] {
      var p, rest := projects[0], projects[1..];
      FilterSublist(rest, term);
      if Matches(p, term) {
        assert ([p] + Filter(rest, term))[1..] == Filter(rest, term);
      } else {
        assert Filter(projects, term) == Filter(rest, term);
      }
    }
  }

  /** The search result is the order-preserving sublist of the matching
      projects, and every project for an empty term. */
  lemma SearchFacts(projects: seq<Project>, term: string)
    ensures IsSublist(Search(projects, term), projects)
    ensures term == [] ==> Search(projects, term) == projects
    ensures term != [] ==> forall p :: p in Search(projects, term) <==> p in projects && Matches(p, term)
  {
    if term == [] {
      SublistReflexive(projects);
    } else {
      FilterSublist(projects, term);
      forall p ensures p in Search(projects, term) <==> p in projects && Matches(p, term) {
        FilterIn(projects, term, p);
      }
    }
  }

  lemma FieldNarrows(field: string, narrow: string, wide: string)
    requires Contains(narrow, wide) && FieldMatches(field, narrow)
    ensures FieldMatches(field, wide)
  {
    ContainsTransitive(Lower(field), narrow, wide);
  }

  /** A project matching a term matches every piece of that term. */
  lemma MatchesNarrows(p: Project, narrow: string, wide: string)
    requires Contains(narrow, wide) && Matches(p, narrow)
    ensures Matches(p, wide)
  {
    if exists i :: 0 <= i < |p.tech| && FieldMatches(p.tech[i], narrow) {
      var i :| 0 <= i < |p.tech| && FieldMatches(p.tech[i], narrow);
      FieldNarrows(p.tech[i], narrow, wide);
    } else if exists i :: (0 <= i < |p.metrics| &&
        (FieldMatches(p.metrics[i].caption, narrow) || FieldMatches(p.metrics[i].value, narrow))) {
      var i :| 0 <= i < |p.metrics| &&
        (FieldMatches(p.metrics[i].caption, narrow) || FieldMatches(p.metrics[i].value, narrow));
      if FieldMatches(p.metrics[i].caption, narrow) {
        FieldNarrows(p.metrics[i].caption, narrow, wide);
      } else {
        FieldNarrows(p.metrics[i].value, narrow, wide);
      }
    } else if exists i :: 0 <= i < |p.urls| && FieldMatches(p.urls[i].caption, narrow) {
      var i :| 0 <= i < |p.urls| && FieldMatches(p.urls[i].caption, narrow);
      FieldNarrows(p.urls[i].caption, narrow, wide);
    } else if FieldMatches(p.name, narrow) {
      FieldNarrows(p.name, narrow, wide);
    } else if FieldMatches(p.description, narrow) {
      FieldNarrows(p.description, narrow, wide);
    } else if FieldMatches(p.shortDescription, narrow) {
      FieldNarrows(p.shortDescription, narrow, wide);
    } else if FieldMatches(p.company, narrow) {
      FieldNarrows(p.company, narrow, wide);
    } else if FieldMatches(p.status, narrow) {
      FieldNarrows(p.status, narrow, wide);
    } else {
      FieldNarrows(p.id, narrow, wide);
    }
  }

  /** Typing more narrows the list: when one query's term contains
      another's, its results are a sublist of the other's. */
  lemma LongerQueryNarrows(projects: seq<Project>, longer: string, shorter: string)
    requires Contains(SearchTerm(longer), SearchTerm(shorter))
    ensures IsSublist(Search(projects, SearchTerm(longer)), Search(projects, SearchTerm(shorter)))
  {
    var narrow, wide := SearchTerm(longer), SearchTerm(shorter);
    if wide == [] {
      SearchFacts(projects, narrow);
    } else {
      assert narrow != [];
      forall p | Matches(p, narrow) ensures Matches(p, wide) {
        MatchesNarrows(p, narrow, wide);
      }
      FilterNarrows(projects, narrow, wide);
    }
  }

  /** The search ignores ASCII case in the query. */
  lemma SearchTermIgnoresCase(query: string)
    ensures SearchTerm(Lower(query)) == SearchTerm(query)
  {
    LowerIdempotent(query);
  }

  /** A query of nothing but whitespace lists every project. */
  lemma BlankQueryListsAll(projects: seq<Project>, query: string)
    requires forall i :: 0 <= i < |query| ==> IsSpace(query[i])
    ensures Search(projects, SearchTerm(query)) == projects
  {
    forall i | 0 <= i < |Lower(query)| ensures IsSpace(Lower(query)[i]) {
      LowerAt(query, i);
    }
    TrimFacts(Lower(query));
  }

  // ---------------------------------------------------------------------
  // Looking a project up
  // ---------------------------------------------------------------------

  /** `allProjects.find(p => p.id === id)`: the first project with that id. */
  function FindById(projects: seq<Project>, id: string): (r: Option<Project>)
    ensures r.None? <==> forall k :: 0 <= k < |projects| ==> projects[k].id != id
    ensures r.Some? ==> exists k :: (0 <= k < |projects| && projects[k] == r.value && r.value.id == id
      && forall j :: 0 <= j < k ==> projects[j].id != id)
  {
    if projects == [] then None
    else if projects[0].id == id then Some(projects[0])
    else
      var r := FindById(projects[1..], id);
      if r.Some? then
        var k :| 0 <= k < |projects[1..]| && projects[1..][k] == r.value && r.value.id == id
          && forall j :: 0 <= j < k ==> projects[1..][j].id != id;
        assert projects[k + 1] == r.value;
        r
      else r
  }

  // ---------------------------------------------------------------------
  // What showing a project writes back into it
  // ---------------------------------------------------------------------

  /** The defaults `renderProjectDetails` stores into the project it shows:
      a missing description becomes the short description, or a fixed
      text when that is missing too, and a missing status becomes
      "online". Technology and metric lists are never missing here, so
      their defaults change nothing. */
  function Normalized(p: Project): Project {
    p.(description := if p.description != [] then p.description
                      else if p.shortDescription != [] then p.shortDescription
                      else "No description available.",
       status := if p.status != [] then p.status else "online")
  }

  /** Only the description and the status change, only when missing, and
      a shown project is left as it is when shown again. */
  lemma NormalizedFacts(p: Project)
    ensures var q := Normalized(p);
      && q.description != [] && q.status != []
      && (p.description != [] ==> q.description == p.description)
      && (p.status != [] ==> q.status == p.status)
      && q.(description := p.description, status := p.status) == p
      && Normalized(q) == q
  {
  }

  /** The write-back only widens the search: a project found before it
      was shown is still found afterwards. */
  lemma NormalizedStillMatches(p: Project, term: string)
    requires Matches(p, term)
    ensures Matches(Normalized(p), term)
  {
    var q := Normalized(p);
    if term == [] {
      assert FieldMatches(q.name, term);
    } else if FieldMatches(p.description, term) {
      assert p.description != [];
    } else if FieldMatches(p.status, term) {
      assert p.status != [];
    }
  }

  /** "online" is its own lower-case form and its own search term. */
  lemma OnlineIsLowerCase()
    ensures Lower("online") == "online" && SearchTerm("online") == "online"
  {
    var w := "online";
    forall i | 0 <= i < |w| ensures Lower(w)[i] == w[i] {
      LowerAt(w, i);
    }
    assert Lower(w) == w;
    OnlineIsTrimmed();
  }

  lemma OnlineIsTrimmed()
    ensures Trim("online") == "online"
  {
    var w := "online";
    assert !IsSpace(w[0]) && !IsSpace(w[5]);
    assert TrimStart(w) == w;
  }

  /** A project without a status, once shown, is found by searching for
      "online". */
  lemma ShownWithoutStatusMatchesOnline(p: Project)
    requires p.status == []
    ensures Matches(Normalized(p), SearchTerm("online"))
  {
    OnlineIsLowerCase();
    var q := Normalized(p);
    assert q.status == "online";
    assert FieldMatches(q.status, "online");
  }

  /** Every occurrence of `p` replaced by `q`: the project objects a list
      shares, one of them updated in place. */
  function Replaced(s: seq<Project>, p: Project, q: Project): seq<Project> {
    seq(|s|, i requires 0 <= i < |s| => if s[i] == p then q else s[i])
  }

  /** The same replacement in the loaded data, when there is any. */
  function ReplacedIn(data: Option<seq<Project>>, p: Project, q: Project): Option<seq<Project>> {
    if data.Some? then Some(Replaced(data.value, p, q)) else None
  }

  /** After the write-back, looking the id up again finds the updated
      project. */
  lemma {:induction false} FindReplaced(s: seq<Project>, id: string, p: Project, q: Project)
    requires FindById(s, id) == Some(p) && q.id == p.id
    ensures FindById(Replaced(s, p, q), id) == Some(q)
  {
    var r := Replaced(s, p, q);
    if s[0].id != id {
      FindReplaced(s[1..], id, p, q);
      assert r[1..] == Replaced(s[1..], p, q);
      assert r[0] == s[0];
    }
  }

  // ---------------------------------------------------------------------
  // The panel
  // ---------------------------------------------------------------------

  /** What the details pane shows. */
  datatype Details = Placeholder | Showing(project: Project) | NoMatches

  /** What the project list shows. */
  datatype ListView = Blank | Items(projects: seq<Project>) | NoProjectsFound | Loading

  /** The panel's state, with `data` standing for `portfolioData.projects`,
      whose project objects the panel's lists share. */
  class Panel {
    var data: Option<seq<Project>>
    var allProjects: seq<Project>
    var filtered: seq<Project>
    var selected: Option<string>
    var details: Details
    var list: ListView
    var isOpen: bool
    var searchInput: string

    constructor ()
      ensures data.None? && allProjects == [] && filtered == [] && selected.None?
      ensures details == Placeholder && list == Blank && !isOpen && searchInput == ""
    {
      data := None;
      allProjects := [];
      filtered := [];
      selected := None;
      details := Placeholder;
      list := Blank;
      isOpen := false;
      searchInput := "";
    }

    /** `portfolio.load` finishing: the data is replaced by fresh records;
        the panel keeps what it holds. */
    method DataLoaded(projects: seq<Project>)
      modifies this
      ensures data == Some(projects)
      ensures allProjects == old(allProjects) && filtered == old(filtered) && selected == old(selected)
      ensures details == old(details) && list == old(list) && isOpen == old(isOpen)
      ensures searchInput == old(searchInput)
    {
      data := Some(projects);
    }

    /** `renderProjectList`. */
    method RenderProjectList()
      modifies this
      ensures list == if filtered == [] then NoProjectsFound else Items(filtered)
      ensures allProjects == old(allProjects) && filtered == old(filtered) && selected == old(selected)
      ensures details == old(details) && isOpen == old(isOpen) && searchInput == old(searchInput)
      ensures data == old(data)
    {
      if |filtered| == 0 {
        list := NoProjectsFound;
      } else {
        list := Items(filtered);
      }
    }

    /** `selectProject(id)`: the id is recorded even when no project has it.
        The first project with that id is shown, and the defaults written
        into it reach every list that shares it. */
    method SelectProject(id: string)
      modifies this
      ensures selected == Some(id)
      ensures FindById(old(allProjects), id).None? ==>
        && details == old(details) && allProjects == old(allProjects)
        && filtered == old(filtered) && data == old(data)
      ensures FindById(old(allProjects), id).Some? ==>
        var p := FindById(old(allProjects), id).value;
        var q := Normalized(p);
        && details == Showing(q)
        && allProjects == Replaced(old(allProjects), p, q)
        && filtered == Replaced(old(filtered), p, q)
        && data == ReplacedIn(old(data), p, q)
        && FindById(allProjects, id) == Some(q)
      ensures list == old(list) && isOpen == old(isOpen) && searchInput == old(searchInput)
    {
      selected := Some(id);
      var project := FindById(allProjects, id);
      if project.None? {
        return;
      }
      var p := project.value;
      var q := Normalized(p);
      FindReplaced(allProjects, id, p, q);
      allProjects := Replaced(allProjects, p, q);
      filtered := Replaced(filtered, p, q);
      data := ReplacedIn(data, p, q);
      details := Showing(q);
    }

    /** `openLogsPanel(projectId)`: nothing on a small screen or while no
        data is loaded; otherwise a fresh copy of the projects, all listed,
        and the given project, when there is one, selected. */
    method Open(projectId: Option<string>, isMobile: bool)
      modifies this
      ensures isMobile || old(data).None? ==>
        && allProjects == old(allProjects) && filtered == old(filtered) && selected == old(selected)
        && details == old(details) && list == old(list) && isOpen == old(isOpen) && data == old(data)
      ensures !isMobile && old(data).Some? ==>
        var d := old(data).value;
        && isOpen
        && list == (if d == [] then NoProjectsFound else Items(d))
        && (Truthy(projectId) ==> selected == projectId)
        && (!Truthy(projectId) ==> selected == old(selected))
        && (!Truthy(projectId) || FindById(d, projectId.value).None? ==>
              allProjects == d && filtered == d && data == old(data) && details == old(details))
        && (Truthy(projectId) && FindById(d, projectId.value).Some? ==>
              var p := FindById(d, projectId.value).value;
              var q := Normalized(p);
              && details == Showing(q)
              && allProjects == Replaced(d, p, q) && filtered == Replaced(d, p, q)
              && data == Some(Replaced(d, p, q)))
      ensures searchInput == old(searchInput)
    {
      if isMobile || data.None? {
        return;
      }
      allProjects := data.value;
      filtered := allProjects;
      RenderProjectList();
      isOpen := true;
      if Truthy(projectId) {
        SelectProject(projectId.value);
      }
    }

    /** `closeLogsPanel`: closed, nothing selected, the search box emptied and
        every project listed again. */
    method Close()
      modifies this
      ensures !isOpen && selected.None? && searchInput == "" && filtered == allProjects
      ensures list == if allProjects == [] then NoProjectsFound else Items(allProjects)
      ensures allProjects == old(allProjects) && details == old(details) && data == old(data)
    {
      isOpen := false;
      selected := None;
      searchInput := "";
      filtered := allProjects;
      RenderProjectList();
    }

    /** The selection rule after a search: the selection stays when it is
        among the results, else the first result is selected, else the
        details say nothing matches. */
    method KeepOrSelect()
      requires filtered != [] ==> filtered[0] in allProjects
      modifies this
      ensures StillListed(old(selected), old(filtered)) ==>
        && selected == old(selected) && details == old(details) && allProjects == old(allProjects)
        && filtered == old(filtered) && data == old(data)
      ensures !StillListed(old(selected), old(filtered)) && old(filtered) != [] ==>
        var id := old(filtered)[0].id;
        && selected == Some(id)
        && FindById(old(allProjects), id).Some?
        && var p := FindById(old(allProjects), id).value;
           var q := Normalized(p);
           && details == Showing(q)
           && allProjects == Replaced(old(allProjects), p, q)
           && filtered == Replaced(old(filtered), p, q)
           && data == ReplacedIn(old(data), p, q)
      ensures !StillListed(old(selected), old(filtered)) && old(filtered) == [] ==>
        && selected == old(selected) && details == NoMatches && allProjects == old(allProjects)
        && filtered == [] && data == old(data)
      ensures filtered != [] ==> exists k :: 0 <= k < |filtered| && Some(filtered[k].id) == selected
      ensures list == old(list) && isOpen == old(isOpen) && searchInput == old(searchInput)
    {
      var current := if Truthy(selected) then FindById(filtered, selected.value) else None;
      if current.Some? {
        // the selection stays
      } else if |filtered| > 0 {
        var first := filtered[0];
        assert FindById(allProjects, first.id).Some?;
        SelectProject(first.id);
        assert filtered[0].id == first.id;
      } else {
        details := NoMatches;
      }
    }

    /** `handleSearch(query)`, run on each input with the box's text: the
        projects are taken from the loaded data if none are held yet; with
        still none, the list says it is loading. Otherwise the list shows
        the search result and the selection rule runs on it. */
    method HandleSearch(query: string)
      modifies this
      ensures var held := if old(allProjects) == [] && old(data).Some? then old(data).value else old(allProjects);
        && (held == [] ==>
              && list == Loading && allProjects == [] && selected == old(selected)
              && details == old(details) && data == old(data)
              && filtered == (if old(data).Some? then [] else old(filtered)))
        && (held != [] ==>
              var results := Search(held, SearchTerm(query));
              && list == (if results == [] then NoProjectsFound else Items(results))
              && (StillListed(old(selected), results) ==>
                    && selected == old(selected) && details == old(details)
                    && allProjects == held && filtered == results && data == old(data))
              && (!StillListed(old(selected), results) && results != [] ==>
                    && selected == Some(results[0].id)
                    && FindById(held, results[0].id).Some?
                    && var p := FindById(held, results[0].id).value;
                       var q := Normalized(p);
                       && details == Showing(q)
                       && allProjects == Replaced(held, p, q)
                       && filtered == Replaced(results, p, q)
                       && data == ReplacedIn(old(data), p, q))
              && (!StillListed(old(selected), results) && results == [] ==>
                    && selected == old(selected) && details == NoMatches
                    && allProjects == held && filtered == [] && data == old(data)))
      ensures allProjects != [] && filtered != [] ==>
        exists k :: 0 <= k < |filtered| && Some(filtered[k].id) == selected
      ensures isOpen == old(isOpen) && searchInput == query
    {
      searchInput := query;
      if |allProjects| == 0 && data.Some? {
        allProjects := data.value;
        filtered := allProjects;
      }
      if |allProjects| == 0 {
        list := Loading;
        return;
      }
      var searchTerm := SearchTerm(query);
      filtered := Search(allProjects, searchTerm);
      RenderProjectList();
      if filtered != [] && searchTerm != [] {
        FilterIn(allProjects, searchTerm, filtered[0]);
      }
      KeepOrSelect();
    }
  }

  /** The current selection names one of the results. */
  predicate StillListed(selected: Option<string>, results: seq<Project>) {
    Truthy(selected) && exists k :: 0 <= k < |results| && results[k].id == selected.value
  }
}
