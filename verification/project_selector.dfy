/** The exam-project picker: the shared resolver over projects, searching by
    keyword, 20 per page. */
module ProjectSelector {
  import opened Common
  import R = Resolver

  datatype Project = Project(id: string, name: string)

  function IdOf(p: Project): string { p.id }

  const Cfg: R.Config<Project> := R.Config(IdOf, 20, true, false, None)

  const Placeholder := "选择报考项目..."

  /** The request of `searchProjects(keyword)`: 20 per page, filtered by the
      keyword unless it is empty. */
  function SearchRequest(keyword: string): (q: R.ListQuery)
    ensures q.limit == 20 && q.courseId.None? && q.status.None?
    ensures q.search == (if keyword == "" then None else Some(keyword))
  {
    R.SearchQuery(Cfg, keyword, "")
  }

  /** Opening the popover searches with the current text, and so does every
      change of the text while it is open. */
  lemma {:induction false} SearchOnOpenAndType(s: R.State<Project>, text: string)
    ensures !s.open ==> R.SetOpen(Cfg, s, true).effects == [R.Fetch(SearchRequest(s.search))]
    ensures s.open && text != s.search ==> R.SetSearch(Cfg, s, text).effects == [R.Fetch(SearchRequest(text))]
  { }

  /** A project id that is not among the candidates is looked up in an
      unfiltered page of 100; with a selection in place nothing happens. */
  lemma {:induction false} ValueLookup(s: R.State<Project>, value: string)
    requires value != ""
    ensures s.selected.None? && R.NoMatch(IdOf, s.candidates, value) ==>
      R.Reconcile(Cfg, s, Some(value)).effects == [R.FetchFallback(R.ListQuery(None, None, 100, None), value)]
    ensures s.selected.Some? ==> R.Reconcile(Cfg, s, Some(value)) == R.Step(s, [])
  { }

  /** Picking a project reports its id and the project, and closes the popover. */
  lemma {:induction false} SelectReportsProject(s: R.State<Project>, p: Project)
    ensures var r := R.Select(Cfg, s, p);
      r.effects == [R.Changed(Some(p.id), Some(p))] && !r.state.open
  { }

  /** The trigger shows the selected project's name, or the owner's
      `placeholder` (the default text when the owner passes none). */
  function Label(selected: Option<Project>, placeholder: Option<string>): (r: string)
    ensures selected.Some? ==> r == selected.value.name
    ensures selected.None? && placeholder.None? ==> r == Placeholder
    ensures selected.None? && placeholder.Some? ==> r == placeholder.value
  {
    match selected
    case Some(p) => p.name
    case None => placeholder.GetOr(Placeholder)
  }
}
