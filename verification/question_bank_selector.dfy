/** The question-bank picker: the shared resolver over banks, fetching the
    active banks of the given course, 50 per page, and filtering them by name
    locally as the user types. A bank that does not belong to the given course
    is dropped from the selection. */
module QuestionBankSelector {
  import opened Common
  import opened Text
  import R = Resolver

  datatype Bank = Bank(id: string, name: string, courseId: string, courseName: string)

  function IdOf(b: Bank): string { b.id }

  function CourseOf(b: Bank): string { b.courseId }

  const Cfg: R.Config<Bank> := R.Config(IdOf, 50, false, true, Some("active"))

  /** The request of `searchBanks`: it never carries the search text. */
  function FetchRequest(courseId: string): (q: R.ListQuery)
    ensures q.limit == 50 && q.status == Some("active") && q.search.None?
    ensures q.courseId == (if courseId == "" then None else Some(courseId))
  {
    R.SearchQuery(Cfg, "", courseId)
  }

  /** The fetch runs when the popover opens and when the course changes while
      it is open; typing never fetches. */
  lemma {:induction false} FetchTriggers(s: R.State<Bank>, text: string, courseId: string)
    ensures !s.open ==> R.SetOpen(Cfg, s, true).effects == [R.Fetch(FetchRequest(s.scope))]
    ensures R.SetSearch(Cfg, s, text).effects == []
    ensures s.open && courseId != s.scope ==> R.SetScope(Cfg, s, courseId).effects == [R.Fetch(FetchRequest(courseId))]
    ensures !s.open ==> R.SetScope(Cfg, s, courseId).effects == []
  {
    assert R.SearchQuery(Cfg, s.search, s.scope) == FetchRequest(s.scope);
    assert R.SearchQuery(Cfg, s.search, courseId) == FetchRequest(courseId);
  }

  /** The course id prop changes: the fetch effect and the consistency effect
      both run. */
  function CourseChanged(s: R.State<Bank>, courseId: string): (r: R.Step<Bank>)
    ensures r.state.scope == courseId
    ensures r.state.selected.Some? ==> courseId == "" || r.state.selected.value.courseId == courseId
    ensures courseId == "" ==> r.state.selected == s.selected
    ensures r.state.selected != s.selected ==> R.Changed(None, None) in r.effects
  {
    var a := R.SetScope(Cfg, s, courseId);
    var b := R.EnforceScope(CourseOf, a.state);
    R.Step(b.state, a.effects + b.effects)
  }

  /** Picking bank B under one course and then switching to a course B does
      not belong to clears the selection and tells the owner. */
  lemma {:induction false} SwitchingCourseClearsBank(s: R.State<Bank>, b: Bank, other: string)
    requires other != "" && other != b.courseId
    ensures var picked := R.Select(Cfg, s, b).state;
      var r := CourseChanged(picked, other);
      r.state.selected.None? && r.effects == [R.Changed(None, None)]
  { }

  /** Removing the course filter never clears a selection. */
  lemma {:induction false} EmptyCourseNeverClears(s: R.State<Bank>)
    ensures CourseChanged(s, "").state.selected == s.selected
    ensures R.EnforceScope(CourseOf, s.(scope := "")) == R.Step(s.(scope := ""), [])
  { }

  /** The fallback that resolves a bank id ignores the course filter, so it
      may find a bank of another course; the consistency effect then drops it
      again and reports `(undefined, undefined)`. */
  lemma {:induction false} FallbackOutsideCourseIsDropped(s: R.State<Bank>, value: string, b: Bank)
    requires value != "" && s.selected.None? && s.scope != ""
    requires R.NoMatch(IdOf, s.candidates, value)
    requires b.id == value && b.courseId != s.scope
    ensures R.Reconcile(Cfg, s, Some(value)).effects == [R.FetchFallback(R.ListQuery(None, None, 100, None), value)]
    ensures var t := R.FallbackArrived(Cfg, s, value, Some([b]));
      t.selected == Some(b) && R.EnforceScope(CourseOf, t) == R.Step(t.(selected := None), [R.Changed(None, None)])
  {
    assert [b][0] == b && IdOf([b][0]) == value;
  }

  // --------------------------------------------------------- local filter

  /** `xs` is `ys` with some elements left out, order kept. */
  ghost predicate IsSubsequence<T>(xs: seq<T>, ys: seq<T>)
    decreases |ys|
  {
    |xs| == 0 || (|ys| > 0 && ((xs[0] == ys[0] && IsSubsequence(xs[1..], ys[1..])) || IsSubsequence(xs, ys[1..])))
  }

  /** The lower-cased name contains the lower-cased search text. */
  predicate NameMatches(b: Bank, search: string) {
    Contains(Lower(b.name), Lower(search))
  }

  function FilterByName(banks: seq<Bank>, search: string): (r: seq<Bank>)
    ensures IsSubsequence(r, banks)
    ensures forall i :: 0 <= i < |r| ==> NameMatches(r[i], search)
    ensures forall i :: 0 <= i < |banks| && NameMatches(banks[i], search) ==> banks[i] in r
    ensures (forall i :: 0 <= i < |banks| ==> NameMatches(banks[i], search)) ==> r == banks
    ensures forall x :: multiset(r)[x] == (if NameMatches(x, search) then multiset(banks)[x] else 0)
  {
    if |banks| == 0 then []
    else
      var rest := FilterByName(banks[1..], search);
      var b, tail := banks[0], banks[1..];
      assert [b] + tail == banks;
      if NameMatches(b, search) then
        KeepStep(b, tail, rest, search);
        [b] + rest
      else
        SkipStep(b, tail, rest, search);
        rest
  }

  /** A matching bank in front is kept, and the contract carries over. */
  lemma {:induction false} KeepStep(b: Bank, tail: seq<Bank>, rest: seq<Bank>, search: string)
    requires NameMatches(b, search)
    requires IsSubsequence(rest, tail)
    requires forall i :: 0 <= i < |rest| ==> NameMatches(rest[i], search)
    requires forall i :: 0 <= i < |tail| && NameMatches(tail[i], search) ==> tail[i] in rest
    requires (forall i :: 0 <= i < |tail| ==> NameMatches(tail[i], search)) ==> rest == tail
    requires forall x :: multiset(rest)[x] == (if NameMatches(x, search) then multiset(tail)[x] else 0)
    ensures IsSubsequence([b] + rest, [b] + tail)
    ensures forall i :: 0 <= i < |[b] + rest| ==> NameMatches(([b] + rest)[i], search)
    ensures forall i :: 0 <= i < |[b] + tail| && NameMatches(([b] + tail)[i], search) ==> ([b] + tail)[i] in [b] + rest
    ensures (forall i :: 0 <= i < |[b] + tail| ==> NameMatches(([b] + tail)[i], search)) ==> [b] + rest == [b] + tail
    ensures forall x :: multiset([b] + rest)[x] == (if NameMatches(x, search) then multiset([b] + tail)[x] else 0)
  {
    var banks, r := [b] + tail, [b] + rest;
    assert banks[1..] == tail && r[1..] == rest;
    forall i | 0 <= i < |r| ensures NameMatches(r[i], search) {
      if i > 0 { assert r[i] == rest[i - 1]; }
    }
    forall i | 0 <= i < |banks| && NameMatches(banks[i], search) ensures banks[i] in r {
      if i > 0 { assert banks[i] == tail[i - 1]; }
    }
    if forall i :: 0 <= i < |banks| ==> NameMatches(banks[i], search) {
      forall i | 0 <= i < |tail| ensures NameMatches(tail[i], search) { assert tail[i] == banks[i + 1]; }
    }
    CountStep(b, tail, rest, search);
  }

  /** A bank that does not match is skipped, and the contract carries over. */
  lemma {:induction false} SkipStep(b: Bank, tail: seq<Bank>, rest: seq<Bank>, search: string)
    requires !NameMatches(b, search)
    requires IsSubsequence(rest, tail)
    requires forall i :: 0 <= i < |tail| && NameMatches(tail[i], search) ==> tail[i] in rest
    requires forall x :: multiset(rest)[x] == (if NameMatches(x, search) then multiset(tail)[x] else 0)
    ensures IsSubsequence(rest, [b] + tail)
    ensures forall i :: 0 <= i < |[b] + tail| && NameMatches(([b] + tail)[i], search) ==> ([b] + tail)[i] in rest
    ensures forall x :: multiset(rest)[x] == (if NameMatches(x, search) then multiset([b] + tail)[x] else 0)
  {
    var banks := [b] + tail;
    assert banks[1..] == tail;
    forall i | 0 <= i < |banks| && NameMatches(banks[i], search) ensures banks[i] in rest {
      assert i > 0 && banks[i] == tail[i - 1];
    }
    CountStep(b, tail, rest, search);
  }

  /** The multiplicities carry over whether the front bank is kept or not. */
  lemma {:induction false} CountStep(b: Bank, tail: seq<Bank>, rest: seq<Bank>, search: string)
    requires forall x :: multiset(rest)[x] == (if NameMatches(x, search) then multiset(tail)[x] else 0)
    ensures var r := if NameMatches(b, search) then [b] + rest else rest;
      forall x :: multiset(r)[x] == (if NameMatches(x, search) then multiset([b] + tail)[x] else 0)
  {
    assert multiset([b] + tail) == multiset{b} + multiset(tail);
    assert multiset([b] + rest) == multiset{b} + multiset(rest);
  }

  /** `filteredBanks`: all candidates for an empty search, otherwise those
      whose name contains the search text, ignoring ASCII case, in order. */
  function Filtered(banks: seq<Bank>, search: string): (r: seq<Bank>)
    ensures search == "" ==> r == banks
    ensures IsSubsequence(r, banks)
    ensures forall i :: 0 <= i < |r| ==> NameMatches(r[i], search)
    ensures forall i :: 0 <= i < |banks| && NameMatches(banks[i], search) ==> banks[i] in r
    ensures forall x :: multiset(r)[x] == (if NameMatches(x, search) then multiset(banks)[x] else 0)
  {
    if search == "" then
      assert IsSubsequence(banks, banks) by { SubsequenceRefl(banks); }
      assert forall i :: 0 <= i < |banks| ==> NameMatches(banks[i], search) by {
        forall i | 0 <= i < |banks| ensures NameMatches(banks[i], search) {
          assert OccursAt(Lower(banks[i].name), "", 0);
          ContainsIsOccurrence(Lower(banks[i].name), "");
        }
      }
      assert forall x :: multiset(banks)[x] > 0 ==> NameMatches(x, search) by {
        forall x | multiset(banks)[x] > 0 ensures NameMatches(x, search) {
          assert x in banks;
        }
      }
      banks
    else FilterByName(banks, search)
  }

  lemma {:induction false} SubsequenceRefl<T>(xs: seq<T>)
    ensures IsSubsequence(xs, xs)
    decreases |xs|
  {
    if |xs| > 0 {
      SubsequenceRefl(xs[1..]);
    }
  }

  /** A name matches when it contains the search text, whatever the case of
      either. */
  lemma {:induction false} MatchIgnoresCase(b: Bank, search: string, i: nat)
    requires i + |search| <= |b.name|
    requires Lower(b.name[i..i + |search|]) == Lower(search)
    ensures NameMatches(b, search)
  {
    var hay := Lower(b.name);
    assert hay[i..i + |search|] == Lower(b.name[i..i + |search|]);
    assert OccursAt(hay, Lower(search), i);
    ContainsIsOccurrence(hay, Lower(search));
  }
}
