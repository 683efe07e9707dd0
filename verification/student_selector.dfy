/** The student picker: the shared resolver over users, searching by
    keyword, 20 per page. */
module StudentSelector {
  import opened Common
  import R = Resolver

  datatype Student = Student(id: string, name: string, phone: string)

  function IdOf(s: Student): string { s.id }

  const Cfg: R.Config<Student> := R.Config(IdOf, 20, true, false, None)

  const Placeholder := "选择学员..."

  /** The request of `searchStudents(keyword)`: 20 per page, filtered by the
      keyword unless it is empty. */
  function SearchRequest(keyword: string): (q: R.ListQuery)
    ensures q.limit == 20 && q.courseId.None? && q.status.None?
    ensures q.search == (if keyword == "" then None else Some(keyword))
  {
    R.SearchQuery(Cfg, keyword, "")
  }

  /** Opening the popover searches with the current text, and so does every
      change of the text while it is open; a failed search keeps the list. */
  lemma {:induction false} SearchOnOpenAndType(s: R.State<Student>, text: string)
    ensures !s.open ==> R.SetOpen(Cfg, s, true).effects == [R.Fetch(SearchRequest(s.search))]
    ensures s.open && text != s.search ==> R.SetSearch(Cfg, s, text).effects == [R.Fetch(SearchRequest(text))]
    ensures var t := R.SearchFailed(R.SetSearch(Cfg, s, text).state);
      t.candidates == s.candidates && !t.loading
  { }

  /** Picking a student reports its id and the record, and closes the popover;
      clearing reports `(undefined, undefined)`. */
  lemma {:induction false} SelectAndClear(s: R.State<Student>, st: Student)
    ensures var r := R.Select(Cfg, s, st);
      r.effects == [R.Changed(Some(st.id), Some(st))] && !r.state.open
    ensures R.Clear(s).effects == [R.Changed(None, None)] && R.Clear(s).state.selected.None?
  { }

  /** The trigger shows the student's name, the phone number when the name is
      empty, or the owner's `placeholder` (the default text when the owner
      passes none) when nothing is selected. */
  function Label(selected: Option<Student>, placeholder: Option<string>): (r: string)
    ensures selected.None? && placeholder.None? ==> r == Placeholder
    ensures selected.None? && placeholder.Some? ==> r == placeholder.value
    ensures selected.Some? && selected.value.name != "" ==> r == selected.value.name
    ensures selected.Some? && selected.value.name == "" ==> r == selected.value.phone
  {
    match selected
    case Some(st) => OrElse(Some(st.name), st.phone)
    case None => placeholder.GetOr(Placeholder)
  }
}
