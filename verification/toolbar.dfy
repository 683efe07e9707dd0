/** The data-table toolbar: a search box whose text reaches `onSearch` only
    after 300 ms without typing, discrete-choice filters with an "all"
    sentinel, and a reset button. Time is logical (milliseconds); the single
    debounce timer is an optional pending `(due, value)` pair, so at most one
    timer is ever pending. */
module Toolbar {
  import opened Common

  const DebounceMs: nat := 300
  const AllSentinel := "all"

  datatype Timer = Timer(due: nat, value: string)

  datatype State = State(now: nat, input: string, pending: Option<Timer>)

  /** Which of the optional callbacks the owner passed. */
  datatype Props = Props(hasOnSearch: bool, hasOnReset: bool)

  datatype Effect = SearchCalled(value: string) | ResetCalled

  datatype Event =
    | Typed(at: nat, value: string)
    | Wait(until: nat)
    | ResetClicked(at: nat)
    | Unmount
    | SearchValueChanged(value: string)

  datatype Step = Step(state: State, effects: seq<Effect>)

  function Initial(searchValue: string): State {
    State(0, searchValue, None)
  }

  /** Logical time moves forward to `t` (never back); a timer that has come
      due fires, calling `onSearch` with the value it carries. */
  function AdvanceTo(p: Props, s: State, t: nat): (r: Step)
    ensures r.state.now == (if t > s.now then t else s.now)
    ensures r.state.input == s.input
    ensures s.pending.Some? && s.pending.value.due <= r.state.now ==>
      r.state.pending.None? && r.effects == (if p.hasOnSearch then [SearchCalled(s.pending.value.value)] else [])
    ensures !(s.pending.Some? && s.pending.value.due <= r.state.now) ==>
      r.state.pending == s.pending && r.effects == []
  {
    var now := if t > s.now then t else s.now;
    if s.pending.Some? && s.pending.value.due <= now then
      Step(State(now, s.input, None), if p.hasOnSearch then [SearchCalled(s.pending.value.value)] else [])
    else
      Step(s.(now := now), [])
  }

  /** `handleInputChange(value)` at time `at`: the text is shown at once, any
      pending timer is cancelled, and one new timer carrying the value is
      scheduled 300 ms later. */
  function InputChanged(p: Props, s: State, at: nat, value: string): (r: Step)
    ensures r.state.input == value
    ensures r.state.pending == Some(Timer(r.state.now + DebounceMs, value))
    ensures r.state.now >= at && r.state.now >= s.now
  {
    var a := AdvanceTo(p, s, at);
    Step(a.state.(input := value, pending := Some(Timer(a.state.now + DebounceMs, value))), a.effects)
  }

  /** `handleReset` at time `at`: the pending timer is cancelled, the text is
      cleared and `onReset` is called. A timer that had already come due by
      `at` has fired before the click; that is the only search call. */
  function Reset(p: Props, s: State, at: nat): (r: Step)
    ensures r.state.input == "" && r.state.pending.None?
    ensures r.state.now >= s.now && r.state.now >= at
    ensures ResetCalled in r.effects <==> p.hasOnReset
    ensures forall i :: 0 <= i < |r.effects| && r.effects[i].SearchCalled? ==>
      s.pending.Some? && s.pending.value.due <= r.state.now && r.effects[i].value == s.pending.value.value
    ensures !(s.pending.Some? && s.pending.value.due <= r.state.now) ==>
      r.effects == (if p.hasOnReset then [ResetCalled] else [])
  {
    var a := AdvanceTo(p, s, at);
    Step(a.state.(input := "", pending := None), a.effects + if p.hasOnReset then [ResetCalled] else [])
  }

  /** An effect the toolbar may produce: only callbacks the owner passed. */
  predicate Allowed(p: Props, e: Effect) {
    (e.SearchCalled? ==> p.hasOnSearch) && (e.ResetCalled? ==> p.hasOnReset)
  }

  /** One event. Time never goes back, and only passed callbacks are called.
      Teardown cancels the timer; the owner's `searchValue` overwrites the
      text and leaves the timer alone. */
  function Apply(p: Props, s: State, e: Event): (r: Step)
    ensures r.state.now >= s.now
    ensures forall i :: 0 <= i < |r.effects| ==> Allowed(p, r.effects[i])
    ensures e.Unmount? ==>
      r.state.pending.None? && r.state.input == s.input && r.state.now == s.now && r.effects == []
    ensures e.SearchValueChanged? ==>
      r.state.input == e.value && r.state.pending == s.pending && r.state.now == s.now && r.effects == []
  {
    match e
    case Typed(at, value) => InputChanged(p, s, at, value)
    case Wait(until) => AdvanceTo(p, s, until)
    case ResetClicked(at) => Reset(p, s, at)
    // teardown: the pending timer is cancelled
    case Unmount => Step(s.(pending := None), [])
    // the owner's `searchValue` overwrites the text; the timer is left alone
    case SearchValueChanged(value) => Step(s.(input := value), [])
  }

  function Run(p: Props, s: State, events: seq<Event>): Step
    decreases |events|
  {
    if |events| == 0 then Step(s, [])
    else
      var a := Apply(p, s, events[0]);
      var b := Run(p, a.state, events[1..]);
      Step(b.state, a.effects + b.effects)
  }

  lemma {:induction false} AllowedConcat(p: Props, xs: seq<Effect>, ys: seq<Effect>)
    requires forall i :: 0 <= i < |xs| ==> Allowed(p, xs[i])
    requires forall i :: 0 <= i < |ys| ==> Allowed(p, ys[i])
    ensures forall i :: 0 <= i < |xs + ys| ==> Allowed(p, (xs + ys)[i])
  {
    forall i | 0 <= i < |xs + ys| ensures Allowed(p, (xs + ys)[i]) {
      if i < |xs| { assert (xs + ys)[i] == xs[i]; } else { assert (xs + ys)[i] == ys[i - |xs|]; }
    }
  }

  /** Over any run of events, time never goes back and only the callbacks
      the owner passed are ever called. */
  lemma {:induction false} RunCallsOnlyPassed(p: Props, s: State, events: seq<Event>)
    ensures Run(p, s, events).state.now >= s.now
    ensures forall i :: 0 <= i < |Run(p, s, events).effects| ==> Allowed(p, Run(p, s, events).effects[i])
    decreases |events|
  {
    if |events| > 0 {
      var a := Apply(p, s, events[0]);
      RunCallsOnlyPassed(p, a.state, events[1..]);
      var b := Run(p, a.state, events[1..]);
      assert Run(p, s, events) == Step(b.state, a.effects + b.effects);
      AllowedConcat(p, a.effects, b.effects);
    }
  }

  /** A burst of keystrokes, each less than 300 ms after the previous one. */
  ghost predicate Burst(events: seq<Event>) {
    && (forall i :: 0 <= i < |events| ==> events[i].Typed?)
    && (forall i :: 0 <= i < |events| - 1 ==> events[i].at <= events[i + 1].at < events[i].at + DebounceMs)
  }

  /** During a burst nothing reaches `onSearch`; afterwards exactly one timer
      is pending, carrying the last keystroke's value. */
  lemma {:induction false} BurstStaysPending(p: Props, s: State, events: seq<Event>)
    requires |events| > 0 && Burst(events)
    requires s.now <= events[0].at
    requires s.pending.None? || s.pending.value.due > events[0].at
    ensures var r := Run(p, s, events);
      var last := events[|events| - 1];
      && r.effects == []
      && r.state.now == last.at
      && r.state.input == last.value
      && r.state.pending == Some(Timer(last.at + DebounceMs, last.value))
    decreases |events|
  {
    var a := Apply(p, s, events[0]);
    assert a.effects == [];
    if |events| > 1 {
      var rest := events[1..];
      assert Burst(rest) by {
        forall i | 0 <= i < |rest| - 1 ensures rest[i].at <= rest[i + 1].at < rest[i].at + DebounceMs {
          assert rest[i] == events[i + 1] && rest[i + 1] == events[i + 2];
        }
      }
      assert events[0].at <= events[1].at < events[0].at + DebounceMs;
      BurstStaysPending(p, a.state, rest);
    }
  }

  /** Typing a burst and then waiting out the quiet window calls `onSearch`
      exactly once, with the last value typed. */
  lemma {:induction false} BurstSearchesOnce(p: Props, s: State, events: seq<Event>)
    requires p.hasOnSearch
    requires |events| > 0 && Burst(events)
    requires s.now <= events[0].at && s.pending.None?
    ensures var last := events[|events| - 1];
      Run(p, s, events + [Wait(last.at + DebounceMs)]).effects == [SearchCalled(last.value)]
  {
    var last := events[|events| - 1];
    BurstStaysPending(p, s, events);
    QuietAfter(p, s, events, last.at + DebounceMs, last.value);
  }

  /** Events that leave one timer pending and call nothing, followed by a
      wait until that timer is due, call `onSearch` once with its value. */
  lemma {:induction false} QuietAfter(p: Props, s: State, events: seq<Event>, due: nat, value: string)
    requires p.hasOnSearch
    requires Run(p, s, events).effects == [] && Run(p, s, events).state.pending == Some(Timer(due, value))
    ensures Run(p, s, events + [Wait(due)]).effects == [SearchCalled(value)]
  {
    var a := Run(p, s, events);
    RunAppend(p, s, events, [Wait(due)]);
    WaitFiresPending(p, a.state, due, value);
    assert [] + [SearchCalled(value)] == [SearchCalled(value)];
  }

  /** Waiting until a pending timer is due calls `onSearch` with its value. */
  lemma {:induction false} WaitFiresPending(p: Props, s: State, due: nat, value: string)
    requires p.hasOnSearch && s.pending == Some(Timer(due, value))
    ensures Run(p, s, [Wait(due)]).effects == [SearchCalled(value)]
  {
    var evs := [Wait(due)];
    assert evs[1..] == [];
    var a := Apply(p, s, evs[0]);
    assert a.effects == [SearchCalled(value)];
    assert Run(p, a.state, evs[1..]).effects == [];
    assert a.effects + [] == a.effects;
  }

  lemma {:induction false} RunAppend(p: Props, s: State, xs: seq<Event>, ys: seq<Event>)
    ensures var a := Run(p, s, xs);
      var b := Run(p, a.state, ys);
      Run(p, s, xs + ys) == Step(b.state, a.effects + b.effects)
    decreases |xs|
  {
    if |xs| > 0 {
      assert (xs + ys)[0] == xs[0];
      assert (xs + ys)[1..] == xs[1..] + ys;
      var a := Apply(p, s, xs[0]);
      RunAppend(p, a.state, xs[1..], ys);
      var m := Run(p, a.state, xs[1..]);
      var b := Run(p, m.state, ys);
      assert a.effects + (m.effects + b.effects) == (a.effects + m.effects) + b.effects;
    } else {
      assert xs + ys == ys;
      var b := Run(p, s, ys);
      assert [] + b.effects == b.effects;
    }
  }

  /** A keystroke that comes 300 ms or more after the previous one finds the
      previous value already sent. */
  lemma {:induction false} QuietGapSendsPrevious(p: Props, s: State, t: nat, v1: string, gap: nat, v2: string)
    requires p.hasOnSearch && s.pending.None? && s.now <= t && gap >= DebounceMs
    ensures Run(p, s, [Typed(t, v1), Typed(t + gap, v2)]).effects == [SearchCalled(v1)]
  {
    var evs := [Typed(t, v1), Typed(t + gap, v2)];
    var a := Apply(p, s, evs[0]);
    assert a.effects == [];
    var b := Apply(p, a.state, evs[1]);
    assert b.effects == [SearchCalled(v1)];
    assert evs[1..][1..] == [];
    assert Run(p, a.state, evs[1..]).effects == b.effects + [];
  }

  /** With no timer pending, waiting never calls anything. */
  lemma {:induction false} NothingPendingNothingFires(p: Props, s: State, waits: seq<nat>)
    requires s.pending.None?
    ensures Run(p, s, seq(|waits|, i requires 0 <= i < |waits| => Wait(waits[i]))).effects == []
    ensures Run(p, s, seq(|waits|, i requires 0 <= i < |waits| => Wait(waits[i]))).state.pending.None?
    decreases |waits|
  {
    var evs := seq(|waits|, i requires 0 <= i < |waits| => Wait(waits[i]));
    if |waits| > 0 {
      var a := Apply(p, s, evs[0]);
      assert evs[1..] == seq(|waits[1..]|, i requires 0 <= i < |waits[1..]| => Wait(waits[1..][i]));
      NothingPendingNothingFires(p, a.state, waits[1..]);
    }
  }

  /** After a reset or a teardown, no `onSearch` call follows however long
      one waits. */
  lemma {:induction false} CancelledTimerNeverFires(p: Props, s: State, at: nat, waits: seq<nat>)
    ensures Run(p, Reset(p, s, at).state, seq(|waits|, i requires 0 <= i < |waits| => Wait(waits[i]))).effects == []
    ensures Run(p, Apply(p, s, Unmount).state, seq(|waits|, i requires 0 <= i < |waits| => Wait(waits[i]))).effects == []
  {
    NothingPendingNothingFires(p, Reset(p, s, at).state, waits);
    NothingPendingNothingFires(p, Apply(p, s, Unmount).state, waits);
  }

  // -------------------------------------------------------------- filters

  datatype Filter = Filter(columnId: string, title: string, options: seq<string>, value: Option<string>)

  /** Some filter has a (non-empty) value. */
  function AnyFilterSet(filters: seq<Filter>): (r: bool)
    ensures r <==> exists i :: 0 <= i < |filters| && Present(filters[i].value)
  {
    if |filters| == 0 then false
    else Present(filters[0].value) || AnyFilterSet(filters[1..])
  }

  /** Whether the reset button shows: the search text counts only when the
      toolbar has a search box. */
  function IsFiltered(p: Props, input: string, filters: seq<Filter>): (r: bool)
    ensures r <==> (p.hasOnSearch && input != "") || exists i :: 0 <= i < |filters| && Present(filters[i].value)
  {
    (p.hasOnSearch && input != "") || AnyFilterSet(filters)
  }

  /** The select shows the filter's value, or the "all" entry when it has none. */
  function Shown(f: Filter): (r: string)
    ensures r != ""
    ensures Present(f.value) ==> r == f.value.value
    ensures !Present(f.value) ==> r == AllSentinel
  {
    OrElse(f.value, AllSentinel)
  }

  /** What the filter reports for a choice: "all" means no value. */
  function Chosen(choice: string): (r: Option<string>)
    ensures r.None? <==> choice == AllSentinel
    ensures r.Some? ==> r.value == choice
  {
    if choice == AllSentinel then None else Some(choice)
  }

  /** Re-choosing the shown entry reports the filter's own value back, except
      that an empty value and the literal value "all" both read as none. */
  lemma {:induction false} ShownThenChosen(f: Filter)
    ensures Present(f.value) && f.value.value != AllSentinel ==> Chosen(Shown(f)) == f.value
    ensures !Present(f.value) || f.value.value == AllSentinel ==> Chosen(Shown(f)).None?
  { }

  /** The toolbar renders at all only with a search box or some filter. */
  function Visible(p: Props, filters: seq<Filter>): (r: bool)
    ensures !r ==> forall input :: !IsFiltered(p, input, filters)
    ensures p.hasOnSearch ==> r
    ensures |filters| > 0 ==> r
    ensures !p.hasOnSearch && |filters| == 0 ==> !r
  {
    p.hasOnSearch || |filters| > 0
  }

  /** A toolbar that is not rendered would never have offered a reset. */
  lemma {:induction false} HiddenIsNeverFiltered(p: Props, input: string, filters: seq<Filter>)
    ensures !Visible(p, filters) ==> !IsFiltered(p, input, filters)
  { }
}
