/** The course picker: the shared resolver over courses, searching by
    keyword, 20 per page. */
module CourseSelector {
  import opened Common
  import R = Resolver

  datatype Course = Course(id: string, name: string, direction: string, instructorName: string)

  function IdOf(c: Course): string { c.id }

  const Cfg: R.Config<Course> := R.Config(IdOf, 20, true, false, None)

  const Placeholder := "选择课程..."

  /** The request of `searchCourses(keyword)`: 20 per page, filtered by the
      keyword unless it is empty. */
  function SearchRequest(keyword: string): (q: R.ListQuery)
    ensures q.limit == 20 && q.courseId.None? && q.status.None?
    ensures q.search == (if keyword == "" then None else Some(keyword))
  {
    R.SearchQuery(Cfg, keyword, "")
  }

  /** Opening the popover searches with the current text, and so does every
      change of the text while it is open. */
  lemma {:induction false} SearchOnOpenAndType(s: R.State<Course>, text: string)
    ensures !s.open ==> R.SetOpen(Cfg, s, true).effects == [R.Fetch(SearchRequest(s.search))]
    ensures s.open && text != s.search ==> R.SetSearch(Cfg, s, text).effects == [R.Fetch(SearchRequest(text))]
    ensures !s.open ==> R.SetSearch(Cfg, s, text).effects == []
  { }

  /** Picking a course reports its id and the course, and closes the popover. */
  lemma {:induction false} SelectReportsCourse(s: R.State<Course>, c: Course)
    ensures var r := R.Select(Cfg, s, c);
      r.effects == [R.Changed(Some(c.id), Some(c))] && !r.state.open && r.state.selected == Some(c)
  { }

  /** The trigger shows the selected course's name, or the owner's
      `placeholder` (the default text when the owner passes none). */
  function Label(selected: Option<Course>, placeholder: Option<string>): (r: string)
    ensures selected.Some? ==> r == selected.value.name
    ensures selected.None? && placeholder.None? ==> r == Placeholder
    ensures selected.None? && placeholder.Some? ==> r == placeholder.value
  {
    match selected
    case Some(c) => c.name
    case None => placeholder.GetOr(Placeholder)
  }
}
