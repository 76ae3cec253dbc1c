/** The parallel loop that hands out indices from a shared atomic counter, as a transition system:
    one program counter per participant, any thread creation may fail, any interleaving. */
module ParallelFor {
  import opened Options
  import opened Ints
  import opened Effects

  /** Where one participant is: not started, about to fetch an index, about to run the callback on
      a fetched index, or out of its loop. */
  datatype Participant = Absent | Fetching | Running(idx: int) | Exited

  /** What the calling thread is doing besides its own share of the work. */
  datatype Phase = Spawning(i: nat) | Working | Joining(j: nat) | Returned

  /** `parts` holds the n workers and then the calling thread. `fetches` counts the fetch-adds so
      far and `log` lists the indices the callback has run on. */
  datatype State = State(next: int, fetches: nat, parts: seq<Participant>, phase: Phase, created: nat, log: seq<int>)

  datatype Label = Spawn(ok: bool) | Fetch(p: nat) | Call(p: nat) | Join

  function Init(n: nat): State {
    var parts := seq(n + 1, _ => Absent);
    if n == 0 then State(0, 0, parts[0 := Fetching], Working, 0, []) else State(0, 0, parts, Spawning(0), 0, [])
  }

  /** The calling thread stops creating threads and starts working. */
  function StartMain(s: State, created: nat): State
    requires s.parts != []
  {
    s.(parts := s.parts[|s.parts| - 1 := Fetching], phase := Working, created := created)
  }

  /** One step, or `None` when the label's step is not enabled. The counter is a 32-bit signed
      integer that wraps. */
  function Step(s: State, l: Label, count: int): Option<State> {
    if s.parts == [] then None
    else
      var n := |s.parts| - 1;
      match l
      case Spawn(ok) =>
        if !s.phase.Spawning? || s.phase.i >= n then None
        else if !ok then Some(StartMain(s, s.phase.i))
        else
          var t := s.(parts := s.parts[s.phase.i := Fetching], phase := Spawning(s.phase.i + 1));
          Some(if s.phase.i + 1 == n then StartMain(t, n) else t)
      case Fetch(p) =>
        if p > n || !s.parts[p].Fetching? then None
        else
          var idx := s.next;
          var t := s.(next := if idx == INT_MAX then INT_MIN else idx + 1, fetches := s.fetches + 1);
          if idx < count then Some(t.(parts := s.parts[p := Running(idx)]))
          else
            var phase := if p < n then s.phase else if s.created == 0 then Returned else Joining(0);
            Some(t.(parts := s.parts[p := Exited], phase := phase))
      case Call(p) =>
        if p > n || !s.parts[p].Running? then None
        else Some(s.(parts := s.parts[p := Fetching], log := s.log + [s.parts[p].idx]))
      case Join =>
        if !s.phase.Joining? || s.phase.j >= n || !s.parts[s.phase.j].Exited? then None
        else Some(s.(phase := if s.phase.j + 1 == s.created then Returned else Joining(s.phase.j + 1)))
  }

  /** The state after a schedule, when every step of it is enabled in turn. */
  function Exec(s: State, sched: seq<Label>, count: int): Option<State> {
    if sched == [] then Some(s)
    else
      match Exec(s, sched[..|sched| - 1], count)
      case None => None
      case Some(t) => Step(t, sched[|sched| - 1], count)
  }

  // ---- the invariant ----

  /** How many participants are about to run the callback on `x`. */
  ghost function Flights(parts: seq<Participant>, x: int): nat {
    if parts == [] then 0
    else Flights(parts[..|parts| - 1], x) + (if parts[|parts| - 1] == Running(x) then 1 else 0)
  }

  ghost function Exits(parts: seq<Participant>): (r: nat)
    ensures r <= |parts|
  {
    if parts == [] then 0
    else Exits(parts[..|parts| - 1]) + (if parts[|parts| - 1].Exited? then 1 else 0)
  }

  lemma {:induction false} UpdateFlights(parts: seq<Participant>, i: nat, p: Participant, x: int)
    requires i < |parts|
    ensures Flights(parts[i := p], x) + (if parts[i] == Running(x) then 1 else 0)
         == Flights(parts, x) + (if p == Running(x) then 1 else 0)
    decreases |parts|
  {
    var t, n := parts[i := p], |parts| - 1;
    if i == n {
      assert t[..n] == parts[..n];
    } else {
      assert t[..n] == parts[..n][i := p];
      UpdateFlights(parts[..n], i, p, x);
    }
  }

  lemma {:induction false} UpdateExits(parts: seq<Participant>, i: nat, p: Participant)
    requires i < |parts|
    ensures Exits(parts[i := p]) + (if parts[i].Exited? then 1 else 0) == Exits(parts) + (if p.Exited? then 1 else 0)
    ensures !parts[i].Exited? ==> Exits(parts) < |parts|
    decreases |parts|
  {
    var t, n := parts[i := p], |parts| - 1;
    if i == n {
      assert t[..n] == parts[..n];
    } else {
      assert t[..n] == parts[..n][i := p];
      UpdateExits(parts[..n], i, p);
    }
  }

  /** Who has been started, and who has been joined. */
  ghost predicate Phased(s: State, n: nat) {
    && |s.parts| == n + 1 && s.created <= n
    && (s.parts[n].Absent? <==> s.phase.Spawning?)
    && (s.parts[n].Exited? <==> s.phase.Joining? || s.phase.Returned?)
    && (s.phase.Spawning? ==> s.phase.i < n)
    && (forall w :: 0 <= w < n ==>
          (s.parts[w].Absent? <==> w >= (if s.phase.Spawning? then s.phase.i else s.created)))
    && (s.phase.Joining? ==> s.phase.j < s.created && forall w :: 0 <= w < s.phase.j ==> s.parts[w].Exited?)
    && (s.phase.Returned? ==> forall w :: 0 <= w < s.created ==> s.parts[w].Exited?)
  }

  /** Index `x` is in the log or in flight, once, exactly when it has been handed out. */
  ghost predicate Accounted(s: State, count: nat, x: int) {
    multiset(s.log)[x] + Flights(s.parts, x) == if 0 <= x < Min(s.fetches, count) then 1 else 0
  }

  /** The counter has handed out the first `fetches` integers; those below `count` are each in the
      log or in flight, once; every fetch beyond them ended a participant's loop. */
  ghost predicate Inv(s: State, count: nat, n: nat) {
    && Phased(s, n)
    && (s.fetches <= INT_MAX ==> s.next == s.fetches)
    && (if s.fetches <= count then Exits(s.parts) == 0 else s.fetches == count + Exits(s.parts))
    && forall x :: Accounted(s, count, x)
  }

  lemma {:induction false} NobodyFlying(parts: seq<Participant>, x: int)
    requires forall i :: 0 <= i < |parts| ==> !parts[i].Running?
    ensures Flights(parts, x) == 0
  {
    if parts != [] { NobodyFlying(parts[..|parts| - 1], x); }
  }

  lemma {:induction false} NobodyExited(parts: seq<Participant>)
    requires forall i :: 0 <= i < |parts| ==> !parts[i].Exited?
    ensures Exits(parts) == 0
  {
    if parts != [] { NobodyExited(parts[..|parts| - 1]); }
  }

  lemma InitInv(count: nat, n: nat)
    ensures Inv(Init(n), count, n)
  {
    NobodyExited(Init(n).parts);
    forall x
      ensures Accounted(Init(n), count, x)
    {
      NobodyFlying(Init(n).parts, x);
    }
  }

  lemma SpawnPhased(s: State, ok: bool, count: nat, n: nat)
    requires Phased(s, n) && Step(s, Spawn(ok), count).Some?
    ensures Phased(Step(s, Spawn(ok), count).value, n)
  {
  }

  lemma FetchPhased(s: State, p: nat, count: nat, n: nat)
    requires Phased(s, n) && Step(s, Fetch(p), count).Some?
    ensures Phased(Step(s, Fetch(p), count).value, n)
  {
  }

  lemma CallPhased(s: State, p: nat, count: nat, n: nat)
    requires Phased(s, n) && Step(s, Call(p), count).Some?
    ensures Phased(Step(s, Call(p), count).value, n)
  {
  }

  lemma JoinPhased(s: State, count: nat, n: nat)
    requires Phased(s, n) && Step(s, Join, count).Some?
    ensures Phased(Step(s, Join, count).value, n)
  {
  }

  lemma StepPhased(s: State, l: Label, count: nat, n: nat)
    requires Phased(s, n) && Step(s, l, count).Some?
    ensures Phased(Step(s, l, count).value, n)
  {
    hide Phased, Step;
    match l {
      case Spawn(ok) => SpawnPhased(s, ok, count, n);
      case Fetch(p) => FetchPhased(s, p, count, n);
      case Call(p) => CallPhased(s, p, count, n);
      case Join => JoinPhased(s, count, n);
    }
  }

  /** Starting a participant changes neither what is in flight nor who has left. */
  lemma StartPart(parts: seq<Participant>, i: nat)
    requires i < |parts| && (parts[i].Absent? || parts[i].Fetching?)
    ensures Exits(parts[i := Fetching]) == Exits(parts)
    ensures forall x :: Flights(parts[i := Fetching], x) == Flights(parts, x)
  {
    UpdateExits(parts, i, Fetching);
    forall x
      ensures Flights(parts[i := Fetching], x) == Flights(parts, x)
    {
      UpdateFlights(parts, i, Fetching, x);
    }
  }

  lemma SpawnInv(s: State, ok: bool, count: nat, n: nat)
    requires Inv(s, count, n) && Step(s, Spawn(ok), count).Some?
    ensures Inv(Step(s, Spawn(ok), count).value, count, n)
  {
    StepPhased(s, Spawn(ok), count, n);
    var t := Step(s, Spawn(ok), count).value;
    var parts := if ok then s.parts[s.phase.i := Fetching] else s.parts;
    if ok { StartPart(s.parts, s.phase.i); }
    StartPart(parts, n);
    forall x
      ensures Accounted(t, count, x)
    {
      assert Accounted(s, count, x);
    }
  }

  /** A fetch below the wrap hands out the next index or ends a loop. */
  lemma FetchInv(s: State, p: nat, count: nat, n: nat)
    requires count + n <= INT_MAX && Inv(s, count, n) && Step(s, Fetch(p), count).Some?
    ensures Inv(Step(s, Fetch(p), count).value, count, n)
  {
    StepPhased(s, Fetch(p), count, n);
    var t := Step(s, Fetch(p), count).value;
    UpdateExits(s.parts, p, t.parts[p]);
    assert t.parts == s.parts[p := t.parts[p]];
    forall x
      ensures Accounted(t, count, x)
    {
      assert Accounted(s, count, x);
      UpdateFlights(s.parts, p, t.parts[p], x);
    }
  }

  lemma CallInv(s: State, p: nat, count: nat, n: nat)
    requires Inv(s, count, n) && Step(s, Call(p), count).Some?
    ensures Inv(Step(s, Call(p), count).value, count, n)
  {
    StepPhased(s, Call(p), count, n);
    var t := Step(s, Call(p), count).value;
    UpdateExits(s.parts, p, Fetching);
    forall x
      ensures Accounted(t, count, x)
    {
      assert Accounted(s, count, x);
      UpdateFlights(s.parts, p, Fetching, x);
    }
  }

  /** Every step keeps the invariant as long as the counter cannot reach its wrap while a
      participant is still going to read it. */
  lemma StepInv(s: State, l: Label, count: nat, n: nat)
    requires count + n <= INT_MAX && Inv(s, count, n) && Step(s, l, count).Some?
    ensures Inv(Step(s, l, count).value, count, n)
  {
    match l {
      case Spawn(ok) => SpawnInv(s, ok, count, n);
      case Fetch(p) => FetchInv(s, p, count, n);
      case Call(p) => CallInv(s, p, count, n);
      case Join =>
        StepPhased(s, l, count, n);
        forall x
          ensures Accounted(Step(s, l, count).value, count, x)
        {
          assert Accounted(s, count, x);
        }
    }
  }

  lemma {:induction false} ExecInv(count: nat, n: nat, sched: seq<Label>)
    requires count + n <= INT_MAX && Exec(Init(n), sched, count).Some?
    ensures Inv(Exec(Init(n), sched, count).value, count, n)
    decreases |sched|
  {
    if sched == [] {
      InitInv(count, n);
    } else {
      ExecInv(count, n, sched[..|sched| - 1]);
      StepInv(Exec(Init(n), sched[..|sched| - 1], count).value, sched[|sched| - 1], count, n);
    }
  }

  // ---- exactly once, under every schedule ----

  /** At every moment of every schedule: the callback never runs outside [0, count) and never twice
      on one index. */
  lemma NeverTwice(count: nat, n: nat, sched: seq<Label>)
    requires count + n <= INT_MAX && Exec(Init(n), sched, count).Some?
    ensures var log := Exec(Init(n), sched, count).value.log;
            forall x :: multiset(log)[x] <= if 0 <= x < count then 1 else 0
  {
    ExecInv(count, n, sched);
    var s := Exec(Init(n), sched, count).value;
    forall x
      ensures multiset(s.log)[x] <= if 0 <= x < count then 1 else 0
    {
      assert Accounted(s, count, x);
    }
  }

  /** When the call returns, whatever the schedule and wherever thread creation failed, every index
      has run exactly once and no participant is still running. */
  lemma ReturnedExactlyOnce(count: nat, n: nat, sched: seq<Label>)
    requires count + n <= INT_MAX && Exec(Init(n), sched, count).Some?
    requires Exec(Init(n), sched, count).value.phase.Returned?
    ensures var s := Exec(Init(n), sched, count).value;
            && ExactlyOnce(s.log, count) && |s.parts| == n + 1
            && forall p :: 0 <= p <= n ==> s.parts[p].Absent? || s.parts[p].Exited?
  {
    ExecInv(count, n, sched);
    ReturnedState(Exec(Init(n), sched, count).value, count, n);
  }

  lemma ReturnedState(s: State, count: nat, n: nat)
    requires Inv(s, count, n) && s.phase.Returned?
    ensures ExactlyOnce(s.log, count) && forall p :: 0 <= p <= n ==> s.parts[p].Absent? || s.parts[p].Exited?
  {
    UpdateExits(s.parts, n, Absent);
    forall x
      ensures multiset(s.log)[x] == if 0 <= x < count then 1 else 0
    {
      assert Accounted(s, count, x);
      NobodyFlying(s.parts, x);
    }
  }

  /** The final context is the serial loop's, when callbacks on different indices commute. */
  lemma ParallelIsSerial<C(!new)>(f: (int, C) -> C, ctx: C, count: nat, n: nat, sched: seq<Label>)
    requires count + n <= INT_MAX && Exec(Init(n), sched, count).Some?
    requires Exec(Init(n), sched, count).value.phase.Returned?
    requires Commutes(f, count)
    ensures Fold(f, Exec(Init(n), sched, count).value.log, ctx) == Fold(f, Serial(count), ctx)
  {
    ReturnedExactlyOnce(count, n, sched);
    ExactlyOnceIsSerial(f, count, Exec(Init(n), sched, count).value.log, ctx);
  }

  // ---- every schedule is finite and can be continued until the call returns ----

  /** Remaining effort: an unstarted participant has two steps to go, one about to run its callback
      has two, one about to fetch has one. */
  ghost function Energy(parts: seq<Participant>): nat {
    if parts == [] then 0 else Energy(parts[..|parts| - 1]) + Effort(parts[|parts| - 1])
  }

  ghost function Effort(p: Participant): nat {
    match p case Absent => 2 case Fetching => 1 case Running(_) => 2 case Exited => 0
  }

  lemma {:induction false} UpdateEnergy(parts: seq<Participant>, i: nat, p: Participant)
    requires i < |parts|
    ensures Energy(parts[i := p]) + Effort(parts[i]) == Energy(parts) + Effort(p)
    decreases |parts|
  {
    var t, n := parts[i := p], |parts| - 1;
    if i == n {
      assert t[..n] == parts[..n];
    } else {
      assert t[..n] == parts[..n][i := p];
      UpdateEnergy(parts[..n], i, p);
    }
  }

  ghost function Rank(phase: Phase, n: nat): int {
    match phase
    case Spawning(i) => n + 3 + (n - i)
    case Working => n + 2
    case Joining(j) => n + 1 - j
    case Returned => 0
  }

  ghost function Measure(s: State, count: nat, n: nat): int {
    2 * (count - Min(s.fetches, count)) + Energy(s.parts) + Rank(s.phase, n)
  }

  lemma SpawnDecreases(s: State, ok: bool, count: nat, n: nat)
    requires Phased(s, n) && Step(s, Spawn(ok), count).Some?
    ensures Measure(Step(s, Spawn(ok), count).value, count, n) < Measure(s, count, n)
  {
    hide Energy;
    var parts := if ok then s.parts[s.phase.i := Fetching] else s.parts;
    if ok { UpdateEnergy(s.parts, s.phase.i, Fetching); }
    UpdateEnergy(parts, n, Fetching);
  }

  lemma FetchDecreases(s: State, p: nat, count: nat, n: nat)
    requires count + n <= INT_MAX && Inv(s, count, n) && Step(s, Fetch(p), count).Some?
    ensures Measure(Step(s, Fetch(p), count).value, count, n) < Measure(s, count, n)
  {
    hide Energy, Exits, Accounted;
    var t := Step(s, Fetch(p), count).value;
    UpdateExits(s.parts, p, t.parts[p]);
    UpdateEnergy(s.parts, p, t.parts[p]);
    assert t.parts == s.parts[p := t.parts[p]];
  }

  lemma CallDecreases(s: State, p: nat, count: nat, n: nat)
    requires Step(s, Call(p), count).Some?
    ensures Measure(Step(s, Call(p), count).value, count, n) < Measure(s, count, n)
  {
    hide Energy, Rank;
    UpdateEnergy(s.parts, p, Fetching);
  }

  lemma StepDecreases(s: State, l: Label, count: nat, n: nat)
    requires count + n <= INT_MAX && Inv(s, count, n) && Step(s, l, count).Some?
    ensures Measure(Step(s, l, count).value, count, n) < Measure(s, count, n)
  {
    hide Energy, Accounted;
    match l {
      case Spawn(ok) => SpawnDecreases(s, ok, count, n);
      case Fetch(p) => FetchDecreases(s, p, count, n);
      case Call(p) => CallDecreases(s, p, count, n);
      case Join =>
    }
  }

  lemma {:induction false} AbsentEnergy(parts: seq<Participant>)
    requires forall i :: 0 <= i < |parts| ==> Effort(parts[i]) <= 2
    ensures Energy(parts) <= 2 * |parts|
  {
    if parts != [] { AbsentEnergy(parts[..|parts| - 1]); }
  }

  /** No schedule is longer than the initial measure. */
  lemma {:induction false} ScheduleMeasure(count: nat, n: nat, sched: seq<Label>)
    requires count + n <= INT_MAX && Exec(Init(n), sched, count).Some?
    ensures |sched| + Measure(Exec(Init(n), sched, count).value, count, n) <= 2 * count + 4 * n + 5
    decreases |sched|
  {
    if sched == [] {
      AbsentEnergy(Init(n).parts);
    } else {
      ScheduleMeasure(count, n, sched[..|sched| - 1]);
      ExecInv(count, n, sched[..|sched| - 1]);
      StepDecreases(Exec(Init(n), sched[..|sched| - 1], count).value, sched[|sched| - 1], count, n);
    }
  }

  /** No schedule has more than 2*count + 4*n + 5 steps. */
  lemma ScheduleLength(count: nat, n: nat, sched: seq<Label>)
    requires count + n <= INT_MAX && Exec(Init(n), sched, count).Some?
    ensures |sched| <= 2 * count + 4 * n + 5
  {
    ScheduleMeasure(count, n, sched);
    ExecInv(count, n, sched);
  }

  /** Until the call returns some step is enabled: nobody waits for a thread that cannot move. */
  lemma NeverStuck(count: nat, n: nat, sched: seq<Label>)
    requires count + n <= INT_MAX && Exec(Init(n), sched, count).Some?
    ensures var s := Exec(Init(n), sched, count).value;
            s.phase.Returned? || exists l :: Step(s, l, count).Some?
  {
    ExecInv(count, n, sched);
    var s := Exec(Init(n), sched, count).value;
    match s.phase {
      case Spawning(_) => assert Step(s, Spawn(true), count).Some?;
      case Working =>
        assert if s.parts[n].Fetching? then Step(s, Fetch(n), count).Some? else Step(s, Call(n), count).Some?;
      case Joining(j) =>
        var l := if s.parts[j].Exited? then Join else if s.parts[j].Fetching? then Fetch(j) else Call(j);
        assert Step(s, l, count).Some?;
      case Returned =>
    }
  }

  lemma Extend(s: State, sched: seq<Label>, l: Label, count: int)
    requires Exec(s, sched, count).Some?
    ensures Exec(s, sched + [l], count) == Step(Exec(s, sched, count).value, l, count)
  {
    assert (sched + [l])[..|sched|] == sched;
  }

  /** Every schedule can be continued until the call returns. */
  lemma {:induction false} CanReturn(count: nat, n: nat, sched: seq<Label>) returns (more: seq<Label>)
    requires count + n <= INT_MAX && Exec(Init(n), sched, count).Some?
    ensures var r := Exec(Init(n), sched + more, count); r.Some? && r.value.phase.Returned?
    decreases 2 * count + 4 * n + 5 - |sched|
  {
    hide Step, Init;
    var s := Exec(Init(n), sched, count).value;
    if s.phase.Returned? {
      more := [];
      assert sched + [] == sched;
    } else {
      NeverStuck(count, n, sched);
      var l :| Step(s, l, count).Some?;
      Extend(Init(n), sched, l, count);
      ScheduleLength(count, n, sched + [l]);
      var rest := CanReturn(count, n, sched + [l]);
      more := [l] + rest;
      assert sched + more == sched + [l] + rest;
    }
  }

  // ---- the counter's wrap ----

  /** No callback has run outside [0, count). */
  ghost predicate InRange(count: nat, n: nat, sched: seq<Label>) {
    match Exec(Init(n), sched, count)
    case Some(s) => forall x :: x in s.log ==> 0 <= x < count
    case None => true
  }

  /** Participants 0..k-1 have been started. */
  ghost function Started(n: nat, k: nat): State
    requires k < n || k == n == 0
  {
    State(0, 0, seq(n + 1, w => if w < k then Fetching else Absent), Spawning(k), 0, [])
  }

  lemma StartStep(n: nat, count: nat, k: nat)
    requires k < n
    ensures k + 1 < n ==> Step(Started(n, k), Spawn(true), count) == Some(Started(n, k + 1))
    ensures k + 1 == n ==>
              Step(Started(n, k), Spawn(true), count) == Some(State(0, 0, seq(n + 1, _ => Fetching), Working, n, []))
  {
    var parts := Started(n, k).parts[k := Fetching];
    if k + 1 < n {
      assert parts == Started(n, k + 1).parts;
    } else {
      assert parts[n := Fetching] == seq(n + 1, _ => Fetching);
    }
  }

  /** All threads are created before any of them runs. */
  lemma SpawnAll(n: nat, count: nat) returns (sched: seq<Label>)
    ensures Exec(Init(n), sched, count) == Some(State(0, 0, seq(n + 1, _ => Fetching), Working, n, []))
  {
    hide Step;
    sched := [];
    if n == 0 {
      assert Init(0).parts == seq(1, _ => Fetching);
      return;
    }
    assert Init(n).parts == Started(n, 0).parts;
    for k := 0 to n - 1
      invariant Exec(Init(n), sched, count) == Some(Started(n, k))
    {
      Extend(Init(n), sched, Spawn(true), count);
      StartStep(n, count, k);
      sched := sched + [Spawn(true)];
    }
    Extend(Init(n), sched, Spawn(true), count);
    StartStep(n, count, n - 1);
    sched := sched + [Spawn(true)];
  }

  /** All participants have been started and indices 0..k-1 have run. */
  ghost function Ran(n: nat, k: nat): State {
    State(k, k, seq(n + 1, _ => Fetching), Working, n, Serial(k))
  }

  lemma RunStep(n: nat, count: nat, k: nat)
    requires k < count <= INT_MAX
    ensures var t := Step(Ran(n, k), Fetch(0), count);
            t.Some? && Step(t.value, Call(0), count) == Some(Ran(n, k + 1))
  {
    assert Ran(n, k).parts[0 := Running(k)][0 := Fetching] == Ran(n, k + 1).parts;
    assert Serial(k) + [k] == Serial(k + 1);
  }

  /** One thread then runs every index, one after the other. */
  lemma RunAll(n: nat, count: nat) returns (sched: seq<Label>)
    requires count <= INT_MAX
    ensures Exec(Init(n), sched, count) == Some(Ran(n, count))
  {
    hide Step, Init;
    sched := SpawnAll(n, count);
    for k := 0 to count
      invariant Exec(Init(n), sched, count) == Some(Ran(n, k))
    {
      RunStep(n, count, k);
      Extend(Init(n), sched, Fetch(0), count);
      Extend(Init(n), sched + [Fetch(0)], Call(0), count);
      sched := sched + [Fetch(0)] + [Call(0)];
    }
  }

  /** All indices have run and participants 0..e-1 have left. */
  ghost function Leaving(n: nat, count: nat, e: nat): State {
    State(if count + e <= INT_MAX then count + e else INT_MIN, count + e,
          seq(n + 1, w => if w < e then Exited else Fetching), Working, n, Serial(count))
  }

  lemma LeaveStep(n: nat, count: nat, e: nat)
    requires e < n && count + e <= INT_MAX
    ensures Step(Leaving(n, count, e), Fetch(e), count) == Some(Leaving(n, count, e + 1))
  {
    assert Leaving(n, count, e).parts[e := Exited] == Leaving(n, count, e + 1).parts;
  }

  /** Then threads leave one by one until the counter wraps, and the next fetch is handed the most
      negative integer, which is below `count`. */
  lemma Overrun(n: nat, count: nat) returns (sched: seq<Label>)
    requires count <= INT_MAX < count + n
    ensures Exec(Init(n), sched, count).Some? && INT_MIN in Exec(Init(n), sched, count).value.log
  {
    hide Step, Init;
    sched := RunAll(n, count);
    ghost var e: nat := 0;
    assert Leaving(n, count, 0).parts == seq(n + 1, _ => Fetching);
    while count + e <= INT_MAX
      invariant e <= n && count + e <= INT_MAX + 1
      invariant Exec(Init(n), sched, count) == Some(Leaving(n, count, e))
    {
      Extend(Init(n), sched, Fetch(e), count);
      LeaveStep(n, count, e);
      sched, e := sched + [Fetch(e)], e + 1;
    }
    sched := RunNegative(n, count, e, sched);
  }

  lemma RunNegative(n: nat, count: nat, e: nat, sched: seq<Label>) returns (sched': seq<Label>)
    requires e <= n && count <= INT_MAX && count + e == INT_MAX + 1
    requires Exec(Init(n), sched, count) == Some(Leaving(n, count, e))
    ensures Exec(Init(n), sched', count).Some? && INT_MIN in Exec(Init(n), sched', count).value.log
  {
    var s := Leaving(n, count, e);
    var t := s.(next := INT_MIN + 1, fetches := s.fetches + 1, parts := s.parts[n := Running(INT_MIN)]);
    assert Step(s, Fetch(n), count) == Some(t);
    Extend(Init(n), sched, Fetch(n), count);
    Extend(Init(n), sched + [Fetch(n)], Call(n), count);
    sched' := sched + [Fetch(n)] + [Call(n)];
    assert Step(t, Call(n), count).value.log == Serial(count) + [INT_MIN];
  }

  ghost predicate SafeUnderAll(count: nat, n: nat) {
    forall sched :: InRange(count, n, sched)
  }

  /** Exactly when the loop is safe: `count + n`, the largest value any participant can fetch, must
      be an int. Beyond that some schedule passes a negative index to the callback. */
  lemma SafeExactly(count: nat, n: nat)
    requires count <= INT_MAX
    ensures SafeUnderAll(count, n) <==> count + n <= INT_MAX
  {
    if count + n <= INT_MAX {
      forall sched
        ensures InRange(count, n, sched)
      {
        if Exec(Init(n), sched, count).Some? {
          NeverTwice(count, n, sched);
          var log := Exec(Init(n), sched, count).value.log;
          forall x | x in log
            ensures 0 <= x < count
          {
            assert x in multiset(log);
          }
        }
      }
    } else {
      var sched := Overrun(n, count);
      assert !InRange(count, n, sched);
    }
  }

  // ---- the public entry point ----

  datatype Plan = NoOp | SerialLoop | Threads(n: nat)

  /** How `fce_parallel_for` runs its loop. `defaultWorkers` is the detected worker count. */
  function PlanFor(count: int, hasFn: bool, maxWorkers: int, defaultWorkers: int): Plan {
    if count <= 0 || !hasFn then NoOp
    else
      var w0 := if maxWorkers <= 0 then defaultWorkers else maxWorkers;
      var workers := if w0 < 1 then 1 else w0;
      if workers <= 1 || count <= 1 then SerialLoop else Threads(workers - 1)
  }

  /** `log` is a possible order of callback invocations by the time the call returns. */
  ghost predicate Outcome(plan: Plan, count: int, threadsOk: bool, log: seq<int>) {
    match plan
    case NoOp => log == []
    case SerialLoop => count >= 0 && log == Serial(count)
    case Threads(n) =>
      if !threadsOk then count >= 0 && log == Serial(count)
      else exists sched :: Finishes(n, sched, count, log)
  }

  ghost predicate Finishes(n: nat, sched: seq<Label>, count: int, log: seq<int>) {
    match Exec(Init(n), sched, count)
    case Some(s) => s.phase.Returned? && s.log == log
    case None => false
  }

  /** Every call comes to an outcome. */
  lemma OutcomeExists(count: int, hasFn: bool, maxWorkers: int, defaultWorkers: int, threadsOk: bool)
    returns (log: seq<int>)
    requires var plan := PlanFor(count, hasFn, maxWorkers, defaultWorkers); plan.Threads? ==> count + plan.n <= INT_MAX
    ensures Outcome(PlanFor(count, hasFn, maxWorkers, defaultWorkers), count, threadsOk, log)
  {
    var plan := PlanFor(count, hasFn, maxWorkers, defaultWorkers);
    log := if plan.NoOp? then [] else Serial(count);
    if plan.Threads? && threadsOk {
      var sched := CanReturn(count, plan.n, []);
      log := Exec(Init(plan.n), [] + sched, count).value.log;
      assert Finishes(plan.n, [] + sched, count, log);
    }
  }

  /** The documented promise: each index of [0, count) is visited exactly once; without a callback
      or with nothing to do, none is. */
  lemma EachIndexOnce(count: int, hasFn: bool, maxWorkers: int, defaultWorkers: int, threadsOk: bool, log: seq<int>)
    requires var plan := PlanFor(count, hasFn, maxWorkers, defaultWorkers);
             Outcome(plan, count, threadsOk, log) && (plan.Threads? ==> count + plan.n <= INT_MAX)
    ensures ExactlyOnce(log, if count <= 0 || !hasFn then 0 else count)
  {
    var plan := PlanFor(count, hasFn, maxWorkers, defaultWorkers);
    if plan.Threads? && threadsOk {
      var sched :| Finishes(plan.n, sched, count, log);
      ReturnedExactlyOnce(count, plan.n, sched);
    } else if count > 0 && hasFn {
      SerialOnce(count);
    }
  }

  /** In terms of the call: with several workers, requested or detected, and several iterations, no
      schedule runs the callback outside [0, count) if and only if count + workers - 1 is an int; any
      other call starts no thread. */
  lemma CallSafeExactly(count: int, hasFn: bool, maxWorkers: int, defaultWorkers: int)
    requires count <= INT_MAX
    ensures var plan, workers := PlanFor(count, hasFn, maxWorkers, defaultWorkers),
                                 (if maxWorkers <= 0 then defaultWorkers else maxWorkers);
            if count >= 2 && workers >= 2 && hasFn
            then plan == Threads(workers - 1) && (SafeUnderAll(count, workers - 1) <==> count + workers - 1 <= INT_MAX)
            else plan == NoOp || plan == SerialLoop
  {
    var plan := PlanFor(count, hasFn, maxWorkers, defaultWorkers);
    if plan.Threads? { SafeExactly(count, plan.n); }
  }
}
