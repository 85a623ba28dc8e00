/** `bootloader_init` and `bootloader_deinit`: an atomic test-and-swap on one flag, followed, outside
    the atomic section, by the call of the bootloader's own function by whoever won the swap. */
module Lifecycle {

  const OK := 0
  const ERROR_INIT_TABLE := 0x0102

  datatype Call = Init | Deinit

  /** Any number of callers. `wins` are the swaps that found the flag in the other state, in order;
      `pending` the winners that have not yet called the table function, in the order they won;
      `calls` the table functions called so far. */
  datatype State = State(isInitialized: bool, wins: seq<Call>, pending: seq<Call>, calls: seq<Call>)

  const RESET := State(false, [], [], [])

  datatype Event = Swap(call: Call) | CallTable(k: nat)

  predicate Enabled(s: State, e: Event) {
    e.CallTable? ==> e.k < |s.pending|
  }

  function Step(s: State, e: Event): State
    requires Enabled(s, e)
  {
    match e
    case Swap(c) =>
      if s.isInitialized == c.Init? then s  // lost: the flag is already as wanted
      else State(c.Init?, s.wins + [c], s.pending + [c], s.calls)
    case CallTable(k) =>
      s.(pending := s.pending[..k] + s.pending[k + 1..], calls := s.calls + [s.pending[k]])
  }

  function Run(s: State, events: seq<Event>): State {
    if events == [] then s
    else
      var t, e := Run(s, events[..|events| - 1]), events[|events| - 1];
      if Enabled(t, e) then Step(t, e) else t
  }

  function Count(s: seq<Call>, c: Call): nat {
    if s == [] then 0 else (if s[|s| - 1] == c then 1 else 0) + Count(s[..|s| - 1], c)
  }

  /** Init, Deinit, Init, ... */
  ghost predicate Alternates(s: seq<Call>) {
    forall i :: 0 <= i < |s| ==> s[i] == if i % 2 == 0 then Init else Deinit
  }

  ghost predicate FlagFollowsWins(s: State) {
    && Alternates(s.wins)
    && s.isInitialized == (|s.wins| % 2 == 1)
    && Count(s.wins, Init) - Count(s.wins, Deinit) == (if s.isInitialized then 1 else 0)
  }

  /** Every winner has called its table function once or is still about to. */
  ghost predicate Accounted(s: State) {
    multiset(s.calls) + multiset(s.pending) == multiset(s.wins)
  }

  ghost predicate Consistent(s: State) {
    FlagFollowsWins(s) && Accounted(s)
  }

  lemma StepKeepsFlag(s: State, e: Event)
    requires FlagFollowsWins(s) && Enabled(s, e)
    ensures FlagFollowsWins(Step(s, e))
  {
    if e.Swap? && s.isInitialized != e.call.Init? {
      var w := s.wins + [e.call];
      assert w[..|w| - 1] == s.wins;
    }
  }

  lemma StepKeepsAccounted(s: State, e: Event)
    requires Accounted(s) && Enabled(s, e)
    ensures Accounted(Step(s, e))
  {
    if e.CallTable? {
      TakeOne(s.pending, e.k);
    }
  }

  lemma TakeOne(p: seq<Call>, k: nat)
    requires k < |p|
    ensures multiset(p) == multiset(p[..k] + p[k + 1..]) + multiset{p[k]}
  {
    assert p == p[..k] + [p[k]] + p[k + 1..];
  }

  /** For any number of callers and any interleaving: the winning swaps strictly alternate starting
      with an init, init wins exceed deinit wins by one exactly while the flag is set, and every
      win calls its table function at most once, the missing ones being still pending. */
  lemma {:induction false} RunIsConsistent(s: State, events: seq<Event>)
    requires Consistent(s)
    ensures Consistent(Run(s, events))
  {
    if events == [] {
    } else {
      var t, e := Run(s, events[..|events| - 1]), events[|events| - 1];
      RunIsConsistent(s, events[..|events| - 1]);
      if Enabled(t, e) {
        StepKeepsFlag(t, e);
        StepKeepsAccounted(t, e);
      }
    }
  }

  lemma EveryRunIsConsistent(events: seq<Event>)
    ensures Consistent(Run(RESET, events))
  {
    RunIsConsistent(RESET, events);
  }

  // ----- The order in which the table functions run -----

  /** The table functions have been called in the order in which their callers won. */
  ghost predicate InOrder(s: State) {
    s.calls + s.pending == s.wins
  }

  /** From calls in winning order, a step leaves that order exactly when a later winner overtakes an
      earlier one: nothing in the code stops that, as the call is made after the atomic section. */
  lemma KeepsOrderIffOldestFirst(s: State, e: Event)
    requires Consistent(s) && InOrder(s) && Enabled(s, e)
    ensures InOrder(Step(s, e)) <==> (e.CallTable? ==> e.k == 0)
  {
    hide Accounted, Count;
    var n := |s.calls|;
    match e
    case Swap(c) =>
      assert s.calls + (s.pending + [c]) == (s.calls + s.pending) + [c];
    case CallTable(k) =>
      var t := Step(s, e);
      var all := t.calls + t.pending;
      assert all[n] == s.pending[k] == s.wins[n + k];
      if k == 0 {
        assert all == s.calls + s.pending;
      } else {
        assert all[n + 1] == s.pending[0] == s.wins[n];
        assert s.wins[n] != s.wins[n + 1];
      }
  }

  /** On every run in which winners reach their table function in winning order, the table functions
      alternate as the swaps do. */
  lemma {:induction false} OldestFirstAlternates(s: State, events: seq<Event>)
    requires Consistent(s) && InOrder(s)
    requires forall i :: 0 <= i < |events| && events[i].CallTable? ==> events[i].k == 0
    ensures InOrder(Run(s, events)) && Alternates(Run(s, events).calls)
  {
    if events == [] {
    } else {
      var t, e := Run(s, events[..|events| - 1]), events[|events| - 1];
      OldestFirstAlternates(s, events[..|events| - 1]);
      RunIsConsistent(s, events[..|events| - 1]);
      if Enabled(t, e) {
        KeepsOrderIffOldestFirst(t, e);
      }
    }
    var u := Run(s, events);
    RunIsConsistent(s, events);
    assert u.calls == u.wins[..|u.calls|];
    AlternatesPrefix(u.wins, |u.calls|);
  }

  /** The table functions alternate, and still do whichever winner goes next. */
  ghost predicate AnyNextAlternates(s: State) {
    && Alternates(s.calls)
    && forall k: nat :: k < |s.pending| ==> Alternates(Step(s, CallTable(k)).calls)
  }

  /** With the calls in winning order so far, that is so exactly when at most one winner is waiting. */
  lemma AnyNextAlternatesIff(s: State)
    requires Consistent(s) && InOrder(s)
    ensures AnyNextAlternates(s) <==> |s.pending| <= 1
  {
    hide Accounted, Count, Alternates;
    var n := |s.calls|;
    assert s.calls == s.wins[..n];
    AlternatesPrefix(s.wins, n);
    if |s.pending| > 1 {
      assert s.pending[1] == s.wins[n + 1];
      LaterWinDoesNotAlternate(s.wins, n);
      assert Step(s, CallTable(1)).calls == s.wins[..n] + [s.wins[n + 1]];
    } else {
      forall k: nat | k < |s.pending| ensures Alternates(Step(s, CallTable(k)).calls) {
        assert Step(s, CallTable(k)).calls == s.wins[..n + 1];
        AlternatesPrefix(s.wins, n + 1);
      }
    }
  }

  lemma AlternatesPrefix(s: seq<Call>, n: nat)
    requires Alternates(s) && n <= |s|
    ensures Alternates(s[..n])
  {
  }

  lemma LaterWinDoesNotAlternate(s: seq<Call>, n: nat)
    requires Alternates(s) && n + 1 < |s|
    ensures !Alternates(s[..n] + [s[n + 1]])
  {
    var t := s[..n] + [s[n + 1]];
    assert t[n] == s[n + 1] != s[n];
  }

  ghost predicate AlwaysAlternates(events: seq<Event>) {
    forall i :: 0 <= i <= |events| ==> AnyNextAlternates(Run(RESET, events[..i]))
  }

  /** If the event is a winning swap, no earlier winner has still to call its table function. */
  predicate WonAlone(s: State, e: Event) {
    e.Swap? && s.isInitialized != e.call.Init? ==> s.pending == []
  }

  ghost predicate AllWonAlone(events: seq<Event>) {
    forall i :: 0 <= i < |events| ==> WonAlone(Run(RESET, events[..i]), events[i])
  }

  lemma LastEvent(events: seq<Event>)
    requires events != []
    ensures var before := events[..|events| - 1];
            && (AlwaysAlternates(events) <==> AlwaysAlternates(before) && AnyNextAlternates(Run(RESET, events)))
            && (AllWonAlone(events) <==> AllWonAlone(before) && WonAlone(Run(RESET, before), events[|events| - 1]))
  {
    hide Run, AnyNextAlternates, WonAlone;
    var before := events[..|events| - 1];
    assert events[..|events|] == events;
    assert forall i :: 0 <= i <= |before| ==> before[..i] == events[..i];
  }

  lemma {:induction false} LoneWinners(events: seq<Event>)
    requires AllWonAlone(events)
    ensures var s := Run(RESET, events); InOrder(s) && |s.pending| <= 1
  {
    hide AllWonAlone;
    if events == [] {
    } else {
      var s, e := Run(RESET, events[..|events| - 1]), events[|events| - 1];
      LastEvent(events);
      LoneWinners(events[..|events| - 1]);
      EveryRunIsConsistent(events[..|events| - 1]);
      if Enabled(s, e) {
        KeepsOrderIffOldestFirst(s, e);
      }
    }
  }

  lemma LastWinIsAlone(events: seq<Event>)
    requires events != []
    requires var s := Run(RESET, events[..|events| - 1]); InOrder(s) && |s.pending| <= 1
    ensures AnyNextAlternates(Run(RESET, events)) <==>
            WonAlone(Run(RESET, events[..|events| - 1]), events[|events| - 1])
  {
    hide Consistent, AnyNextAlternates, InOrder;
    var s, e := Run(RESET, events[..|events| - 1]), events[|events| - 1];
    EveryRunIsConsistent(events[..|events| - 1]);
    EveryRunIsConsistent(events);
    if Enabled(s, e) {
      KeepsOrderIffOldestFirst(s, e);
    }
    AnyNextAlternatesIff(Run(RESET, events));
  }

  /** Whatever the scheduler does at any point of a run, the table functions alternate, exactly when
      no swap is won while an earlier winner is waiting: a condition that callers can meet by
      starting no init or deinit before the one before has returned. */
  lemma {:induction false} AlwaysAlternatesIffAllWonAlone(events: seq<Event>)
    ensures AlwaysAlternates(events) <==> AllWonAlone(events)
  {
    hide AlwaysAlternates, AllWonAlone, AnyNextAlternates, InOrder, WonAlone;
    if events == [] {
      AtReset();
    } else {
      LastEvent(events);
      AlwaysAlternatesIffAllWonAlone(events[..|events| - 1]);
      if AllWonAlone(events[..|events| - 1]) {
        LoneWinners(events[..|events| - 1]);
        LastWinIsAlone(events);
      }
    }
  }

  lemma AtReset()
    ensures AlwaysAlternates([]) && AllWonAlone([])
  {
    var none: seq<Event> := [];
    assert none[..0] == [];
  }

  /** A deinit that overtakes the init it undoes: the table's deinit runs first and its init last,
      and the flag says "not initialized". */
  lemma DeinitCanOvertakeInit()
    ensures var s := Run(RESET, [Swap(Init), Swap(Deinit), CallTable(1), CallTable(0)]);
            s == State(false, [Init, Deinit], [], [Deinit, Init])
  {
    var e := [Swap(Init), Swap(Deinit), CallTable(1), CallTable(0)];
    var s1 := State(true, [Init], [Init], []);
    var s2 := State(false, [Init, Deinit], [Init, Deinit], []);
    var s3 := State(false, [Init, Deinit], [Init], [Deinit]);
    assert Step(RESET, e[0]) == s1 && Step(s1, e[1]) == s2;
    assert Step(s2, e[2]) == s3;
    assert Step(s3, e[3]) == State(false, [Init, Deinit], [], [Deinit, Init]);
    assert e[..4] == e && e[..4][..3] == e[..3] && e[..3][..2] == e[..2];
    assert e[..2][..1] == e[..1] && e[..1][..0] == [];
    assert Run(RESET, e[..1]) == s1;
    assert Run(RESET, e[..2]) == s2;
    assert Run(RESET, e[..3]) == s3;
  }

  // ----- One caller on its own -----

  class Interface {
    const tableValid: bool
    var isInitialized: bool
    ghost var state: State

    constructor (tableValid: bool)
      ensures Valid() && state == RESET && this.tableValid == tableValid
    {
      this.tableValid := tableValid;
      isInitialized := false;
      state := RESET;
    }

    ghost predicate Valid()
      reads this
    {
      isInitialized == state.isInitialized && state.pending == []
    }

    /** `bootloader_init`, undisturbed. The caller gets what the table's own init reports, but the flag
        stays set even when that is an error, so the next init returns `OK` without calling it again. */
    method InitBootloader(tableResult: int) returns (ret: int)
      requires Valid()
      modifies this
      ensures Valid()
      ensures !tableValid ==> ret == ERROR_INIT_TABLE && state == old(state)
      ensures tableValid ==> isInitialized && state == Run(old(state), [Swap(Init), CallTable(0)])
      ensures tableValid && old(isInitialized) ==> ret == OK && state == old(state)
      ensures tableValid && !old(isInitialized) ==> ret == tableResult && state.calls == old(state.calls) + [Init]
    {
      if !tableValid {
        return ERROR_INIT_TABLE;
      }
      SwapThenCall(state, Init);
      var isInitializedTemp := isInitialized;
      isInitialized := true;
      if !isInitializedTemp {
        ret := tableResult;  // of the table's own init
      } else {
        ret := OK;
      }
      state := Run(state, [Swap(Init), CallTable(0)]);
    }

    /** `bootloader_deinit`, undisturbed. */
    method DeinitBootloader(tableResult: int) returns (ret: int)
      requires Valid()
      modifies this
      ensures Valid()
      ensures !tableValid ==> ret == ERROR_INIT_TABLE && state == old(state)
      ensures tableValid ==> !isInitialized && state == Run(old(state), [Swap(Deinit), CallTable(0)])
      ensures tableValid && !old(isInitialized) ==> ret == OK && state == old(state)
      ensures tableValid && old(isInitialized) ==> ret == tableResult && state.calls == old(state.calls) + [Deinit]
    {
      if !tableValid {
        return ERROR_INIT_TABLE;
      }
      SwapThenCall(state, Deinit);
      var isInitializedTemp := isInitialized;
      isInitialized := false;
      if isInitializedTemp {
        ret := tableResult;  // of the table's own deinit
      } else {
        ret := OK;
      }
      state := Run(state, [Swap(Deinit), CallTable(0)]);
    }
  }

  lemma SwapThenCall(s: State, c: Call)
    requires s.pending == []
    ensures var t := Run(s, [Swap(c), CallTable(0)]);
            if s.isInitialized == c.Init? then t == s
            else t == State(c.Init?, s.wins + [c], [], s.calls + [c])
  {
    var e := [Swap(c), CallTable(0)];
    assert e[..1] == [Swap(c)] && e[..1][..0] == [];
    assert Run(s, e[..1]) == Step(s, Swap(c));
  }
}
