/** The remote-search selector shared by the course, project, student and
    question-bank pickers. Each picker keeps `{open, loading, candidates,
    search, selected}`; its React effects and handlers become transition
    functions here, each returning the new state and what it asks of the
    outside world (list requests, `onChange` calls). A response is a discrete
    event; overlapping requests and their arrival order are not modelled. */
module Resolver {
  import opened Common

  /** The parameters of a list request to the entity's list endpoint. */
  datatype ListQuery = ListQuery(search: Option<string>, courseId: Option<string>, limit: nat, status: Option<string>)

  /** Page size of the unfiltered fetch used to resolve an unknown id. */
  const FallbackLimit: nat := 100

  const FallbackQuery: ListQuery := ListQuery(None, None, FallbackLimit, None)

  /** What differs between the pickers: how an entity is identified and what
      its search request carries. `byKeyword` pickers send the search text and
      re-fetch when it changes; `byScope` pickers send the parent course id
      and re-fetch when it changes. */
  datatype Config<!E> = Config(idOf: E -> string, searchLimit: nat, byKeyword: bool, byScope: bool, status: Option<string>)

  /** `scope` mirrors the parent course id a picker was given ("" for none). */
  datatype State<E> = State(open: bool, loading: bool, candidates: seq<E>, search: string, scope: string, selected: Option<E>)

  datatype Effect<E> =
      /** A search request whose result arrives as `SearchSucceeded`/`SearchFailed`. */
    | Fetch(query: ListQuery)
      /** The fallback request made to resolve `value`; its result arrives as `FallbackArrived`. */
    | FetchFallback(query: ListQuery, value: string)
      /** The owner's `onChange(id, entity)`. */
    | Changed(id: Option<string>, entity: Option<E>)

  datatype Step<E> = Step(state: State<E>, effects: seq<Effect<E>>)

  function Initial<E>(scope: string): State<E> {
    State(false, false, [], "", scope, None)
  }

  /** `e` is the first element of `xs` whose id is `id` (`xs.find(...)`). */
  ghost predicate FirstMatch<E>(idOf: E -> string, xs: seq<E>, id: string, e: E) {
    exists i :: 0 <= i < |xs| && xs[i] == e && idOf(xs[i]) == id
      && forall j :: 0 <= j < i ==> idOf(xs[j]) != id
  }

  ghost predicate NoMatch<E>(idOf: E -> string, xs: seq<E>, id: string) {
    forall j :: 0 <= j < |xs| ==> idOf(xs[j]) != id
  }

  /** Index of the first element whose id is `id`. */
  function FindIndex<E>(idOf: E -> string, xs: seq<E>, id: string): (r: Option<nat>)
    ensures r.Some? ==> r.value < |xs| && idOf(xs[r.value]) == id
    ensures r.Some? ==> forall j :: 0 <= j < r.value ==> idOf(xs[j]) != id
    ensures r.None? ==> NoMatch(idOf, xs, id)
  {
    if |xs| == 0 then None
    else if idOf(xs[0]) == id then Some(0)
    else match FindIndex(idOf, xs[1..], id)
      case Some(i) => Some(i + 1)
      case None => None
  }

  /** `xs.find(x => idOf(x) === id)`. */
  function Find<E>(idOf: E -> string, xs: seq<E>, id: string): (r: Option<E>)
    ensures r.Some? ==> FirstMatch(idOf, xs, id, r.value)
    ensures r.None? ==> NoMatch(idOf, xs, id)
  {
    match FindIndex(idOf, xs, id)
    case Some(i) => Some(xs[i])
    case None => None
  }

  /** The list request of the search effect. */
  function SearchQuery<E>(cfg: Config<E>, keyword: string, scope: string): (q: ListQuery)
    ensures q.limit == cfg.searchLimit && q.status == cfg.status
    ensures q.search.Some? <==> cfg.byKeyword && keyword != ""
    ensures q.search.Some? ==> q.search.value == keyword
    ensures q.courseId.Some? <==> cfg.byScope && scope != ""
    ensures q.courseId.Some? ==> q.courseId.value == scope
  {
    ListQuery(if cfg.byKeyword && keyword != "" then Some(keyword) else None,
              if cfg.byScope && scope != "" then Some(scope) else None,
              cfg.searchLimit, cfg.status)
  }

  /** The search effect: mark loading and send the list request. */
  function StartSearch<E>(cfg: Config<E>, s: State<E>): Step<E> {
    Step(s.(loading := true), [Fetch(SearchQuery(cfg, s.search, s.scope))])
  }

  /** The popover opens or closes. Opening always starts a fresh search. */
  function SetOpen<E>(cfg: Config<E>, s: State<E>, open: bool): (r: Step<E>)
    ensures r.state.open == open
    ensures r.state == s.(open := open, loading := r.state.loading)
    ensures open && !s.open ==> r.state.loading && r.effects == [Fetch(SearchQuery(cfg, s.search, s.scope))]
    ensures !(open && !s.open) ==> r.state.loading == s.loading && r.effects == []
  {
    var s' := s.(open := open);
    if open && !s.open then StartSearch(cfg, s') else Step(s', [])
  }

  /** The search text changes. A keyword picker re-fetches while open. */
  function SetSearch<E>(cfg: Config<E>, s: State<E>, text: string): (r: Step<E>)
    ensures r.state == s.(search := text, loading := r.state.loading)
    ensures cfg.byKeyword && s.open && text != s.search ==>
      r.state.loading && r.effects == [Fetch(SearchQuery(cfg, text, s.scope))]
    ensures !(cfg.byKeyword && s.open && text != s.search) ==>
      r.state.loading == s.loading && r.effects == []
  {
    var s' := s.(search := text);
    if cfg.byKeyword && s.open && text != s.search then StartSearch(cfg, s') else Step(s', [])
  }

  /** The parent course id changes. A scoped picker re-fetches while open. */
  function SetScope<E>(cfg: Config<E>, s: State<E>, scope: string): (r: Step<E>)
    ensures r.state == s.(scope := scope, loading := r.state.loading)
    ensures cfg.byScope && s.open && scope != s.scope ==>
      r.state.loading && r.effects == [Fetch(SearchQuery(cfg, s.search, scope))]
    ensures !(cfg.byScope && s.open && scope != s.scope) ==>
      r.state.loading == s.loading && r.effects == []
  {
    var s' := s.(scope := scope);
    if cfg.byScope && s.open && scope != s.scope then StartSearch(cfg, s') else Step(s', [])
  }

  /** A search response arrived: the list replaces the candidates (a missing
      list reads as empty), and loading ends. */
  function SearchSucceeded<E>(s: State<E>, list: Option<seq<E>>): (r: State<E>)
    ensures r.candidates == list.GetOr([]) && !r.loading
    ensures r.(candidates := s.candidates, loading := s.loading) == s
  {
    s.(candidates := list.GetOr([]), loading := false)
  }

  /** A search failed: the error was already shown by the HTTP client; the
      candidates stay as they were, and loading ends. */
  function SearchFailed<E>(s: State<E>): (r: State<E>)
    ensures r.candidates == s.candidates && !r.loading
    ensures r.(loading := s.loading) == s
  {
    s.(loading := false)
  }

  /** The value effect. With a value and nothing selected, the first
      candidate carrying that id becomes the selection; if none does, an
      unfiltered fallback fetch is asked for. With a value and a selection,
      nothing happens, even when the ids differ. Without a value, the
      selection is dropped. */
  function Reconcile<E>(cfg: Config<E>, s: State<E>, value: Option<string>): (r: Step<E>)
    ensures Present(value) && s.selected.None? ==>
      && r.state == s.(selected := r.state.selected)
      && (r.state.selected.Some? ==> FirstMatch(cfg.idOf, s.candidates, value.value, r.state.selected.value) && r.effects == [])
      && (r.state.selected.None? ==> NoMatch(cfg.idOf, s.candidates, value.value)
                                     && r.effects == [FetchFallback(FallbackQuery, value.value)])
    ensures Present(value) && s.selected.Some? ==> r == Step(s, [])
    ensures !Present(value) ==> r == Step(s.(selected := None), [])
  {
    if Present(value) && s.selected.None? then
      match Find(cfg.idOf, s.candidates, value.value)
      case Some(e) => Step(s.(selected := Some(e)), [])
      case None => Step(s, [FetchFallback(FallbackQuery, value.value)])
    else if !Present(value) then Step(s.(selected := None), [])
    else Step(s, [])
  }

  /** The fallback response arrived: the first entity carrying the awaited id
      becomes the selection; without one, nothing changes. No placeholder is
      made up for an id that could not be found. */
  function FallbackArrived<E>(cfg: Config<E>, s: State<E>, value: string, list: Option<seq<E>>): (r: State<E>)
    ensures r == s.(selected := r.selected)
    ensures r.selected != s.selected ==> r.selected.Some? && FirstMatch(cfg.idOf, list.GetOr([]), value, r.selected.value)
    ensures NoMatch(cfg.idOf, list.GetOr([]), value) ==> r == s
    ensures !NoMatch(cfg.idOf, list.GetOr([]), value) ==> r.selected.Some? && cfg.idOf(r.selected.value) == value
  {
    match Find(cfg.idOf, list.GetOr([]), value)
    case Some(e) => s.(selected := Some(e))
    case None => s
  }

  /** The user picks an entity: it becomes the selection, the owner hears its
      id and the entity, and the popover closes. */
  function Select<E>(cfg: Config<E>, s: State<E>, e: E): (r: Step<E>)
    ensures r.state == s.(selected := Some(e), open := false)
    ensures r.effects == [Changed(Some(cfg.idOf(e)), Some(e))]
  {
    Step(s.(selected := Some(e), open := false), [Changed(Some(cfg.idOf(e)), Some(e))])
  }

  /** The clear button: the selection is dropped and the owner hears
      `(undefined, undefined)`. */
  function Clear<E>(s: State<E>): (r: Step<E>)
    ensures r.state == s.(selected := None)
    ensures r.effects == [Changed(None, None)]
  {
    Step(s.(selected := None), [Changed(None, None)])
  }

  /** The consistency effect of a scoped picker: a selection whose parent
      differs from a non-empty scope is dropped, and the owner is told. An
      empty scope never clears. */
  function EnforceScope<E>(scopeOf: E -> string, s: State<E>): (r: Step<E>)
    ensures r.state == s || r.state == s.(selected := None)
    ensures r.state != s || r.effects != [] ==>
      s.scope != "" && s.selected.Some? && scopeOf(s.selected.value) != s.scope
    ensures s.scope != "" && s.selected.Some? && scopeOf(s.selected.value) != s.scope ==>
      r.state.selected.None? && r.effects == [Changed(None, None)]
    ensures r.state.selected.Some? ==> s.scope == "" || scopeOf(r.state.selected.value) == s.scope
  {
    if s.scope != "" && s.selected.Some? && scopeOf(s.selected.value) != s.scope then
      Step(s.(selected := None), [Changed(None, None)])
    else Step(s, [])
  }

  // ------------------------------------------------------------ scenarios

  /** Every search the picker starts ends its loading state when the answer
      comes: a success shows exactly the returned list, a failure keeps the
      candidates shown before, and the selection is untouched either way. */
  lemma {:induction false} SearchCycle<E>(cfg: Config<E>, s: State<E>, text: string, list: Option<seq<E>>)
    requires cfg.byKeyword && s.open && text != s.search
    ensures var started := SetSearch(cfg, s, text);
      && started.state.loading
      && |started.effects| == 1 && started.effects[0].Fetch?
      && started.effects[0].query.search == (if text == "" then None else Some(text))
      && var ok := SearchSucceeded(started.state, list);
         var failed := SearchFailed(started.state);
         && !ok.loading && ok.candidates == list.GetOr([]) && ok.selected == s.selected && ok.search == text
         && !failed.loading && failed.candidates == s.candidates && failed.selected == s.selected
  { }

  /** An id missing from the candidates but present in the fallback page is
      resolved to that page's first matching entity. */
  lemma {:induction false} ResolvedThroughFallback<E>(cfg: Config<E>, s: State<E>, value: string, list: seq<E>, i: nat)
    requires value != "" && s.selected.None?
    requires NoMatch(cfg.idOf, s.candidates, value)
    requires i < |list| && cfg.idOf(list[i]) == value
    ensures Reconcile(cfg, s, Some(value)) == Step(s, [FetchFallback(FallbackQuery, value)])
    ensures var r := FallbackArrived(cfg, s, value, Some(list));
      r.selected.Some? && FirstMatch(cfg.idOf, list, value, r.selected.value)
  {
    assert !NoMatch(cfg.idOf, list, value);
  }

  /** An id found nowhere leaves the selection empty. */
  lemma {:induction false} UnresolvedStaysEmpty<E>(cfg: Config<E>, s: State<E>, value: string, list: Option<seq<E>>)
    requires value != "" && s.selected.None?
    requires NoMatch(cfg.idOf, s.candidates, value) && NoMatch(cfg.idOf, list.GetOr([]), value)
    ensures var r := Reconcile(cfg, s, Some(value));
      FallbackArrived(cfg, r.state, value, list).selected.None?
  { }

  /** Once something is selected, a value change does not replace it. */
  lemma {:induction false} SelectionSticksAgainstValue<E>(cfg: Config<E>, s: State<E>, e: E, value: string)
    requires value != ""
    ensures var t := Select(cfg, s, e).state;
      Reconcile(cfg, t, Some(value)) == Step(t, [])
  { }

  /** The value effect re-runs after every pick, since the selection is one
      of its dependencies. A picker whose owner passes no value therefore has
      its pick undone at once, after the owner has already heard of it. */
  lemma {:induction false} UncontrolledPickIsUndone<E>(cfg: Config<E>, s: State<E>, e: E, value: Option<string>)
    requires !Present(value)
    ensures var picked := Select(cfg, s, e);
      && picked.effects == [Changed(Some(cfg.idOf(e)), Some(e))]
      && Reconcile(cfg, picked.state, value) == Step(picked.state.(selected := None), [])
  { }

  /** The value effect also re-runs after every search answer, since the
      candidates are one of its dependencies. While the value stays
      unresolved, each answer that lacks it asks for the fallback page again;
      one that holds it resolves the value from the new candidates. */
  lemma {:induction false} EachSearchAnswerRetriesValue<E>(cfg: Config<E>, s: State<E>, value: string, list: Option<seq<E>>)
    requires value != "" && s.selected.None?
    ensures var t := SearchSucceeded(s, list);
      && (NoMatch(cfg.idOf, list.GetOr([]), value) ==>
            Reconcile(cfg, t, Some(value)) == Step(t, [FetchFallback(FallbackQuery, value)]))
      && (!NoMatch(cfg.idOf, list.GetOr([]), value) ==>
            var r := Reconcile(cfg, t, Some(value));
            r.effects == [] && r.state.selected.Some? && FirstMatch(cfg.idOf, list.GetOr([]), value, r.state.selected.value))
  {
    var t := SearchSucceeded(s, list);
    assert t.candidates == list.GetOr([]);
  }

  /** Clearing without the owner dropping its value lets the value effect
      select the same id again from the candidates. */
  lemma {:induction false} ClearThenReconcileReselects<E>(cfg: Config<E>, s: State<E>, value: string, i: nat)
    requires value != ""
    requires i < |s.candidates| && cfg.idOf(s.candidates[i]) == value
    ensures var t := Reconcile(cfg, Clear(s).state, Some(value)).state;
      t.selected.Some? && cfg.idOf(t.selected.value) == value
  {
    assert !NoMatch(cfg.idOf, s.candidates, value);
  }

  /** Every entity a picker ever shows as selected was picked by the user or
      carries the id the owner supplied: the value effect and the fallback
      never select anything else. */
  lemma {:induction false} ResolutionNeverFabricates<E>(cfg: Config<E>, s: State<E>, value: Option<string>, list: Option<seq<E>>)
    requires s.selected.None?
    ensures var r := Reconcile(cfg, s, value).state;
      r.selected.Some? ==> Present(value) && cfg.idOf(r.selected.value) == value.value
    ensures Present(value) ==>
      var r := FallbackArrived(cfg, s, value.value, list);
      r.selected.Some? ==> cfg.idOf(r.selected.value) == value.value
  {
    var r := Reconcile(cfg, s, value).state;
    if r.selected.Some? {
      var i :| 0 <= i < |s.candidates| && s.candidates[i] == r.selected.value && cfg.idOf(s.candidates[i]) == value.value;
    }
  }
}
