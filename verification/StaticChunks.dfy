/** The parallel loop over static contiguous chunks: how [0, count) is split, and what the workers
    and the calling thread run, in any interleaving and wherever thread creation fails. */
module StaticChunks {
  import opened Options
  import opened Effects
  import ParallelFor

  /** A worker's argument: the half-open range it runs. */
  datatype Chunk = Chunk(start: int, end: int)

  /** Contiguous chunks from 0 to `count` whose sizes are `size` or `size` + 1. */
  ghost predicate Splits(chunks: seq<Chunk>, count: int, size: int) {
    && |chunks| > 0 && chunks[0].start == 0 && chunks[|chunks| - 1].end == count
    && (forall i :: 0 <= i < |chunks| ==> size <= chunks[i].end - chunks[i].start <= size + 1)
    && (forall i {:trigger chunks[i].end} :: 0 <= i < |chunks| - 1 ==> chunks[i].end == chunks[i + 1].start)
  }

  lemma Remainder(count: int, total: int)
    requires count >= 0 && total > 0
    ensures count == total * (count / total) + count % total && 0 <= count % total < total && count / total >= 0
  {
  }

  /** Where chunk k starts: `remainder` chunks of one extra index come first. */
  function StartOf(k: nat, size: nat, remainder: nat): nat {
    k * size + (if k < remainder then k else remainder)
  }

  function ChunkAt(k: nat, size: nat, remainder: nat): Chunk {
    Chunk(StartOf(k, size, remainder), StartOf(k + 1, size, remainder))
  }

  lemma NextStart(k: nat, size: nat, remainder: nat)
    ensures StartOf(k + 1, size, remainder) == StartOf(k, size, remainder) + size + (if k < remainder then 1 else 0)
  {
    assert (k + 1) * size == k * size + size;
  }

  /** Chunks laid out by `StartOf` split the range. */
  lemma LaidOut(chunks: seq<Chunk>, count: nat, size: nat, remainder: nat)
    requires |chunks| > 0 && remainder < |chunks| && count == |chunks| * size + remainder
    requires forall k :: 0 <= k < |chunks| ==> chunks[k] == ChunkAt(k, size, remainder)
    ensures Splits(chunks, count, size)
    ensures forall k :: 0 <= k < |chunks| ==>
              chunks[k].end - chunks[k].start == size + (if k < remainder then 1 else 0)
  {
    assert StartOf(0, size, remainder) == 0 && StartOf(|chunks|, size, remainder) == count;
    hide StartOf;
    forall k: nat | k < |chunks|
      ensures chunks[k].end - chunks[k].start == size + (if k < remainder then 1 else 0)
    {
      NextStart(k, size, remainder);
    }
    forall k: nat | k < |chunks| - 1
      ensures chunks[k].end == chunks[k + 1].start
    {
      assert chunks[k + 1] == ChunkAt(k + 1, size, remainder);
    }
  }

  /** Fills the argument array: `remainder` chunks of one extra index come first. */
  method AssignChunks(count: nat, nworkers: nat) returns (args: array<Chunk>)
    ensures fresh(args) && args.Length == nworkers + 1
    ensures Splits(args[..], count, count / (nworkers + 1))
    ensures forall k :: 0 <= k <= nworkers ==>
              args[k].end - args[k].start == count / (nworkers + 1) + (if k < count % (nworkers + 1) then 1 else 0)
  {
    var total := nworkers + 1;
    var chunkSize := count / total;
    var remainder := count % total;
    Remainder(count, total);
    args := new Chunk[total](_ => Chunk(0, 0));
    FillArgs(args, count, chunkSize, remainder);
  }

  /** The loop that assigns the chunks. */
  method FillArgs(args: array<Chunk>, count: nat, chunkSize: nat, remainder: nat)
    requires args.Length > 0 && remainder < args.Length && count == args.Length * chunkSize + remainder
    modifies args
    ensures Splits(args[..], count, chunkSize)
    ensures forall k :: 0 <= k < args.Length ==>
              args[k].end - args[k].start == chunkSize + (if k < remainder then 1 else 0)
  {
    assert StartOf(0, chunkSize, remainder) == 0;
    hide StartOf, Splits;
    var offset := 0;
    for i := 0 to args.Length
      invariant offset == StartOf(i, chunkSize, remainder)
      invariant forall k :: 0 <= k < i ==> args[k] == ChunkAt(k, chunkSize, remainder)
    {
      var sz := chunkSize + (if i < remainder then 1 else 0);
      args[i] := Chunk(offset, offset + sz);
      NextStart(i, chunkSize, remainder);
      offset := offset + sz;
    }
    LaidOut(args[..], count, chunkSize, remainder);
    assert forall k :: 0 <= k < args.Length ==> args[k] == args[..][k];
  }

  // ---- running the chunks ----

  datatype Worker = Absent | Busy | Finished

  /** The calling thread: creating thread i; running chunk j itself after thread creation failed;
      running only the last chunk; joining thread j; done. */
  datatype Phase = Spawning(i: nat) | Fallback(j: nat) | LastChunk | Joining(j: nat) | Returned

  /** `pos[c]` is the loop variable of whoever runs chunk c. */
  datatype State = State(pos: seq<int>, workers: seq<Worker>, phase: Phase, created: nat, log: seq<int>)

  datatype Label = Spawn(ok: bool) | WorkerStep(w: nat) | MainStep | Join

  function StartJoining(s: State): State {
    s.(phase := if s.created == 0 then Returned else Joining(0))
  }

  function Init(chunks: seq<Chunk>): State
    requires |chunks| > 0
  {
    var n := |chunks| - 1;
    State(seq(|chunks|, c requires 0 <= c < |chunks| => chunks[c].start), seq(n, _ => Absent),
          if n == 0 then LastChunk else Spawning(0), 0, [])
  }

  /** The callback on chunk c's next index. */
  function RunNext(s: State, c: nat): State
    requires c < |s.pos|
  {
    s.(pos := s.pos[c := s.pos[c] + 1], log := s.log + [s.pos[c]])
  }

  /** One step, or `None` when the label's step is not enabled. */
  function Step(s: State, l: Label, chunks: seq<Chunk>): Option<State>
    requires |chunks| > 0 && |s.pos| == |chunks| && |s.workers| == |chunks| - 1
  {
    var n := |chunks| - 1;
    match l
    case Spawn(ok) =>
      if !s.phase.Spawning? || s.phase.i >= n then None
      else if !ok then Some(s.(phase := Fallback(s.phase.i), created := s.phase.i))
      else
        var t := s.(workers := s.workers[s.phase.i := Busy]);
        Some(if s.phase.i + 1 == n then t.(phase := LastChunk, created := n) else t.(phase := Spawning(s.phase.i + 1)))
    case WorkerStep(w) =>
      if w >= n || !s.workers[w].Busy? then None
      else if s.pos[w] < chunks[w].end then Some(RunNext(s, w))
      else Some(s.(workers := s.workers[w := Finished]))
    case MainStep =>
      if s.phase.Fallback? && s.phase.j <= n then
        if s.pos[s.phase.j] < chunks[s.phase.j].end then Some(RunNext(s, s.phase.j))
        else Some(if s.phase.j == n then StartJoining(s) else s.(phase := Fallback(s.phase.j + 1)))
      else if s.phase.LastChunk? then
        if s.pos[n] < chunks[n].end then Some(RunNext(s, n)) else Some(StartJoining(s))
      else None
    case Join =>
      if !s.phase.Joining? || s.phase.j >= n || !s.workers[s.phase.j].Finished? then None
      else Some(s.(phase := if s.phase.j + 1 == s.created then Returned else Joining(s.phase.j + 1)))
  }

  function Exec(chunks: seq<Chunk>, sched: seq<Label>): (r: Option<State>)
    requires |chunks| > 0
    ensures r.Some? ==> |r.value.pos| == |chunks| && |r.value.workers| == |chunks| - 1
  {
    if sched == [] then Some(Init(chunks))
    else
      match Exec(chunks, sched[..|sched| - 1])
      case None => None
      case Some(t) => Step(t, sched[|sched| - 1], chunks)
  }

  // ---- the invariant ----

  ghost predicate Covered(chunks: seq<Chunk>, pos: seq<int>, c: int, x: int)
    requires |pos| == |chunks|
  {
    0 <= c < |chunks| && chunks[c].start <= x < pos[c]
  }

  /** The log holds each index already passed by its chunk's loop once, and nothing else. */
  ghost predicate Logged(chunks: seq<Chunk>, s: State, x: int)
    requires |s.pos| == |chunks|
  {
    multiset(s.log)[x] == if exists c :: Covered(chunks, s.pos, c, x) then 1 else 0
  }

  ghost predicate Phased(chunks: seq<Chunk>, s: State) {
    && |chunks| > 0 && |s.pos| == |chunks| && |s.workers| == |chunks| - 1 && s.created < |chunks|
    && (forall c :: 0 <= c < |chunks| ==> chunks[c].start <= s.pos[c] <= chunks[c].end)
    && (forall w :: 0 <= w < |s.workers| ==>
          (s.workers[w].Absent? <==> w >= (if s.phase.Spawning? then s.phase.i else s.created)))
    && (forall w :: 0 <= w < |s.workers| && s.workers[w].Finished? ==> s.pos[w] == chunks[w].end)
    && match s.phase
       case Spawning(i) => i < |chunks| - 1
       case Fallback(j) =>
         && s.created <= j < |chunks|
         && forall c {:trigger chunks[c]} :: s.created <= c < j ==> s.pos[c] == chunks[c].end
       case LastChunk => s.created == |chunks| - 1
       case Joining(j) =>
         && j < s.created && (forall w :: 0 <= w < j ==> s.workers[w].Finished?)
         && (forall c {:trigger chunks[c]} :: s.created <= c < |chunks| ==> s.pos[c] == chunks[c].end)
       case Returned =>
         && (forall w :: 0 <= w < s.created ==> s.workers[w].Finished?)
         && (forall c {:trigger chunks[c]} :: s.created <= c < |chunks| ==> s.pos[c] == chunks[c].end)
  }

  ghost predicate Inv(chunks: seq<Chunk>, s: State) {
    Phased(chunks, s) && forall x :: Logged(chunks, s, x)
  }

  /** Chunks follow each other, so no index belongs to two of them. */
  lemma {:induction false} Ordered(chunks: seq<Chunk>, count: int, size: int, c: nat, d: nat)
    requires Splits(chunks, count, size) && size >= 0 && c < d < |chunks|
    ensures chunks[c].end <= chunks[d].start
    decreases d
  {
    if c + 1 < d {
      Ordered(chunks, count, size, c, d - 1);
      assert chunks[d - 1].end == chunks[d].start;
    } else {
      assert chunks[c].end == chunks[d].start;
    }
  }

  lemma {:induction false} ChunkOf(chunks: seq<Chunk>, count: int, size: int, x: int, k: nat) returns (c: nat)
    requires Splits(chunks, count, size) && size >= 0 && k < |chunks| && 0 <= x < chunks[k].end
    ensures c <= k && chunks[c].start <= x < chunks[c].end
    decreases k
  {
    if chunks[k].start <= x {
      c := k;
    } else {
      assert chunks[k - 1].end == chunks[k].start;
      c := ChunkOf(chunks, count, size, x, k - 1);
    }
  }

  lemma InRange(chunks: seq<Chunk>, count: int, size: int, c: nat)
    requires Splits(chunks, count, size) && size >= 0 && c < |chunks|
    ensures 0 <= chunks[c].start <= chunks[c].end <= count
  {
    if c > 0 { Ordered(chunks, count, size, 0, c); }
    if c < |chunks| - 1 { Ordered(chunks, count, size, c, |chunks| - 1); }
  }

  /** The next index of chunk c belongs to no other chunk. */
  lemma OthersApart(chunks: seq<Chunk>, count: int, size: int, s: State, c: nat, d: int)
    requires Splits(chunks, count, size) && size >= 0 && Phased(chunks, s) && c < |chunks|
    requires c != d && s.pos[c] < chunks[c].end
    ensures !Covered(chunks, s.pos, d, s.pos[c])
  {
    if 0 <= d < c {
      Ordered(chunks, count, size, d, c);
    } else if c < d < |chunks| {
      Ordered(chunks, count, size, c, d);
    }
  }

  /** One more callback on chunk c: exactly its next index becomes covered. */
  lemma RunNextLogged(chunks: seq<Chunk>, count: int, size: int, s: State, c: nat, x: int)
    requires Splits(chunks, count, size) && size >= 0 && Phased(chunks, s) && Logged(chunks, s, x)
    requires c < |chunks| == |s.pos| && chunks[c].start <= s.pos[c] < chunks[c].end
    ensures Logged(chunks, RunNext(s, c), x)
  {
    hide Splits, Phased;
    var t := RunNext(s, c);
    if x == s.pos[c] {
      assert Covered(chunks, t.pos, c, x);
      assert !Covered(chunks, s.pos, c, x);
      forall d | d != c
        ensures !Covered(chunks, s.pos, d, x)
      {
        OthersApart(chunks, count, size, s, c, d);
      }
    } else {
      forall d
        ensures Covered(chunks, t.pos, d, x) <==> Covered(chunks, s.pos, d, x)
      {
      }
    }
  }

  lemma RunPhased(chunks: seq<Chunk>, s: State, c: nat)
    requires Phased(chunks, s) && c < |chunks| && s.pos[c] < chunks[c].end
    ensures Phased(chunks, RunNext(s, c))
  {
  }

  lemma SpawnPhased(chunks: seq<Chunk>, s: State, ok: bool)
    requires Phased(chunks, s) && Step(s, Spawn(ok), chunks).Some?
    ensures Phased(chunks, Step(s, Spawn(ok), chunks).value)
  {
  }

  lemma JoiningPhased(chunks: seq<Chunk>, s: State)
    requires Phased(chunks, s) && (s.phase.LastChunk? || (s.phase.Fallback? && s.phase.j == |chunks| - 1))
    requires s.pos[|chunks| - 1] >= chunks[|chunks| - 1].end
    ensures Phased(chunks, StartJoining(s))
  {
  }

  lemma FallbackPhased(chunks: seq<Chunk>, s: State)
    requires Phased(chunks, s) && s.phase.Fallback? && s.phase.j < |chunks| - 1
    requires s.pos[s.phase.j] >= chunks[s.phase.j].end
    ensures Phased(chunks, s.(phase := Fallback(s.phase.j + 1)))
  {
  }

  lemma MainPhased(chunks: seq<Chunk>, s: State)
    requires Phased(chunks, s) && |s.pos| == |chunks| > 0 && |s.workers| == |chunks| - 1
    requires Step(s, MainStep, chunks).Some?
    ensures Phased(chunks, Step(s, MainStep, chunks).value)
  {
    hide Phased;
    var c := if s.phase.Fallback? then s.phase.j else |chunks| - 1;
    if s.pos[c] < chunks[c].end {
      RunPhased(chunks, s, c);
    } else if s.phase.Fallback? && s.phase.j < |chunks| - 1 {
      FallbackPhased(chunks, s);
    } else {
      JoiningPhased(chunks, s);
    }
  }

  lemma WorkerPhased(chunks: seq<Chunk>, s: State, w: nat)
    requires Phased(chunks, s) && Step(s, WorkerStep(w), chunks).Some?
    ensures Phased(chunks, Step(s, WorkerStep(w), chunks).value)
  {
    if s.pos[w] < chunks[w].end { RunPhased(chunks, s, w); }
  }

  lemma JoinPhased(chunks: seq<Chunk>, s: State)
    requires Phased(chunks, s) && Step(s, Join, chunks).Some?
    ensures Phased(chunks, Step(s, Join, chunks).value)
  {
  }

  lemma StepPhased(chunks: seq<Chunk>, s: State, l: Label)
    requires Phased(chunks, s) && |s.pos| == |chunks| > 0 && |s.workers| == |chunks| - 1
    requires Step(s, l, chunks).Some?
    ensures Phased(chunks, Step(s, l, chunks).value)
  {
    hide Phased, Step;
    match l {
      case Spawn(ok) => SpawnPhased(chunks, s, ok);
      case MainStep => MainPhased(chunks, s);
      case WorkerStep(w) => WorkerPhased(chunks, s, w);
      case Join => JoinPhased(chunks, s);
    }
  }

  /** A step runs the next index of one chunk, or leaves the loops and the log alone. */
  lemma StepLogs(s: State, l: Label, chunks: seq<Chunk>) returns (c: nat)
    requires |s.pos| == |chunks| > 0 && |s.workers| == |chunks| - 1 && Step(s, l, chunks).Some?
    ensures var t := Step(s, l, chunks).value;
            || (t.log == s.log && t.pos == s.pos)
            || (c < |chunks| && s.pos[c] < chunks[c].end && t == RunNext(s, c))
  {
    c := if l.WorkerStep? then l.w else if s.phase.Fallback? then s.phase.j else |chunks| - 1;
  }

  lemma StepInv(chunks: seq<Chunk>, count: int, size: int, s: State, l: Label)
    requires Splits(chunks, count, size) && size >= 0 && Inv(chunks, s) && Step(s, l, chunks).Some?
    ensures Inv(chunks, Step(s, l, chunks).value)
  {
    hide Splits, Step;
    StepPhased(chunks, s, l);
    var t := Step(s, l, chunks).value;
    var c := StepLogs(s, l, chunks);
    forall x
      ensures Logged(chunks, t, x)
    {
      assert Logged(chunks, s, x);
      if t.log != s.log { RunNextLogged(chunks, count, size, s, c, x); }
    }
  }

  lemma {:induction false} ExecInv(chunks: seq<Chunk>, count: int, size: int, sched: seq<Label>)
    requires Splits(chunks, count, size) && size >= 0 && Exec(chunks, sched).Some?
    ensures Inv(chunks, Exec(chunks, sched).value)
    decreases |sched|
  {
    if sched != [] {
      ExecInv(chunks, count, size, sched[..|sched| - 1]);
      StepInv(chunks, count, size, Exec(chunks, sched[..|sched| - 1]).value, sched[|sched| - 1]);
    }
  }

  /** Once the call has returned, every chunk's loop is through. */
  lemma AllPassed(chunks: seq<Chunk>, s: State, c: nat)
    requires Phased(chunks, s) && s.phase.Returned? && c < |chunks|
    ensures s.pos[c] == chunks[c].end
  {
  }

  /** So an index is in the log once if it is in range, and otherwise not at all. */
  lemma ReturnedLog(chunks: seq<Chunk>, count: nat, size: nat, s: State, x: int)
    requires Splits(chunks, count, size) && Phased(chunks, s) && s.phase.Returned?
    requires |s.pos| == |chunks| > 0 && Logged(chunks, s, x)
    ensures multiset(s.log)[x] == if 0 <= x < count then 1 else 0
  {
    assert chunks[|chunks| - 1].end == count;
    hide Splits, Phased;
    if 0 <= x < count {
      var c := ChunkOf(chunks, count, size, x, |chunks| - 1);
      AllPassed(chunks, s, c);
      assert Covered(chunks, s.pos, c, x);
    } else if exists c :: Covered(chunks, s.pos, c, x) {
      var c: nat :| Covered(chunks, s.pos, c, x);
      AllPassed(chunks, s, c);
      InRange(chunks, count, size, c);
    }
  }

  /** When the call returns, every index has run exactly once, whichever thread creation failed and
      however the chunks' loops interleaved. */
  lemma ReturnedExactlyOnce(chunks: seq<Chunk>, count: nat, size: nat, sched: seq<Label>)
    requires Splits(chunks, count, size) && Exec(chunks, sched).Some? && Exec(chunks, sched).value.phase.Returned?
    ensures ExactlyOnce(Exec(chunks, sched).value.log, count)
  {
    hide Exec, Logged;
    ExecInv(chunks, count, size, sched);
    var s := Exec(chunks, sched).value;
    forall x
      ensures multiset(s.log)[x] == if 0 <= x < count then 1 else 0
    {
      assert Logged(chunks, s, x);
      ReturnedLog(chunks, count, size, s, x);
    }
  }

  /** The final context is the serial loop's, when callbacks on different indices commute. */
  lemma StaticIsSerial<C(!new)>(f: (int, C) -> C, ctx: C, chunks: seq<Chunk>, count: nat, size: nat, sched: seq<Label>)
    requires Splits(chunks, count, size) && Exec(chunks, sched).Some? && Exec(chunks, sched).value.phase.Returned?
    requires Commutes(f, count)
    ensures Fold(f, Exec(chunks, sched).value.log, ctx) == Fold(f, Serial(count), ctx)
  {
    ReturnedExactlyOnce(chunks, count, size, sched);
    ExactlyOnceIsSerial(f, count, Exec(chunks, sched).value.log, ctx);
  }

  /** Until the call returns some step is enabled. */
  lemma NeverStuck(chunks: seq<Chunk>, count: nat, size: nat, sched: seq<Label>)
    requires Splits(chunks, count, size) && Exec(chunks, sched).Some?
    ensures var s := Exec(chunks, sched).value;
            s.phase.Returned? || exists l :: Step(s, l, chunks).Some?
  {
    ExecInv(chunks, count, size, sched);
    var s := Exec(chunks, sched).value;
    match s.phase {
      case Spawning(_) => assert Step(s, Spawn(true), chunks).Some?;
      case Fallback(_) => assert Step(s, MainStep, chunks).Some?;
      case LastChunk => assert Step(s, MainStep, chunks).Some?;
      case Joining(j) =>
        var l := if s.workers[j].Finished? then Join else WorkerStep(j);
        assert Step(s, l, chunks).Some?;
      case Returned =>
    }
  }

  // ---- every schedule is finite ----

  /** Indices not yet passed by their chunk's loop. */
  ghost function Remaining(chunks: seq<Chunk>, pos: seq<int>): int
    requires |chunks| == |pos|
  {
    if chunks == [] then 0
    else
      var n := |chunks| - 1;
      Remaining(chunks[..n], pos[..n]) + (chunks[n].end - pos[n])
  }

  lemma {:induction false} AdvanceRemaining(chunks: seq<Chunk>, pos: seq<int>, c: nat)
    requires |chunks| == |pos| && c < |chunks|
    ensures Remaining(chunks, pos[c := pos[c] + 1]) == Remaining(chunks, pos) - 1
    decreases |chunks|
  {
    var n, pos' := |chunks| - 1, pos[c := pos[c] + 1];
    if c == n {
      assert pos'[..n] == pos[..n];
    } else {
      assert pos'[..n] == pos[..n][c := pos[..n][c] + 1];
      AdvanceRemaining(chunks[..n], pos[..n], c);
    }
  }

  lemma {:induction false} RemainingNonNegative(chunks: seq<Chunk>, pos: seq<int>)
    requires |chunks| == |pos| && forall c :: 0 <= c < |chunks| ==> pos[c] <= chunks[c].end
    ensures Remaining(chunks, pos) >= 0
  {
    if chunks != [] { RemainingNonNegative(chunks[..|chunks| - 1], pos[..|chunks| - 1]); }
  }

  ghost function Effort(workers: seq<Worker>): nat {
    if workers == [] then 0
    else Effort(workers[..|workers| - 1]) + WorkerEffort(workers[|workers| - 1])
  }

  ghost function WorkerEffort(w: Worker): nat {
    match w case Absent => 2 case Busy => 1 case Finished => 0
  }

  lemma {:induction false} UpdateEffort(workers: seq<Worker>, w: nat, v: Worker)
    requires w < |workers|
    ensures Effort(workers[w := v]) + WorkerEffort(workers[w]) == Effort(workers) + WorkerEffort(v)
    decreases |workers|
  {
    var t, n := workers[w := v], |workers| - 1;
    if w == n {
      assert t[..n] == workers[..n];
    } else {
      assert t[..n] == workers[..n][w := v];
      UpdateEffort(workers[..n], w, v);
    }
  }

  ghost function Rank(phase: Phase, n: nat): int {
    match phase
    case Spawning(_) => 2 * n + 4
    case Fallback(j) => 2 * n + 3 - j
    case LastChunk => n + 2
    case Joining(j) => n + 1 - j
    case Returned => 0
  }

  ghost function Measure(chunks: seq<Chunk>, s: State): int
    requires |s.pos| == |chunks| > 0
  {
    Remaining(chunks, s.pos) + Effort(s.workers) + Rank(s.phase, |chunks| - 1)
  }

  /** A callback uses up one remaining index. */
  lemma RunDecreases(chunks: seq<Chunk>, s: State, c: nat)
    requires |s.pos| == |chunks| && c < |chunks|
    ensures Measure(chunks, RunNext(s, c)) == Measure(chunks, s) - 1
  {
    hide Remaining, Effort, Rank;
    AdvanceRemaining(chunks, s.pos, c);
  }

  lemma SpawnDecreases(chunks: seq<Chunk>, s: State, ok: bool)
    requires Phased(chunks, s) && Step(s, Spawn(ok), chunks).Some?
    ensures Measure(chunks, Step(s, Spawn(ok), chunks).value) < Measure(chunks, s)
  {
    hide Remaining, Effort;
    if ok { UpdateEffort(s.workers, s.phase.i, Busy); }
  }

  lemma WorkerDecreases(chunks: seq<Chunk>, s: State, w: nat)
    requires |s.pos| == |chunks| > 0 && |s.workers| == |chunks| - 1
    requires Step(s, WorkerStep(w), chunks).Some?
    ensures Measure(chunks, Step(s, WorkerStep(w), chunks).value) < Measure(chunks, s)
  {
    hide Remaining, Effort, Rank;
    if s.pos[w] < chunks[w].end { RunDecreases(chunks, s, w); } else { UpdateEffort(s.workers, w, Finished); }
  }

  lemma MainDecreases(chunks: seq<Chunk>, s: State)
    requires |s.pos| == |chunks| > 0 && |s.workers| == |chunks| - 1
    requires Step(s, MainStep, chunks).Some?
    ensures Measure(chunks, Step(s, MainStep, chunks).value) < Measure(chunks, s)
  {
    hide Remaining, Effort;
    var c := if s.phase.Fallback? then s.phase.j else |chunks| - 1;
    if s.pos[c] < chunks[c].end { RunDecreases(chunks, s, c); }
  }

  lemma StepDecreases(chunks: seq<Chunk>, s: State, l: Label)
    requires Phased(chunks, s) && Step(s, l, chunks).Some?
    ensures Measure(chunks, Step(s, l, chunks).value) < Measure(chunks, s)
  {
    match l {
      case Spawn(ok) => SpawnDecreases(chunks, s, ok);
      case WorkerStep(w) => WorkerDecreases(chunks, s, w);
      case MainStep => MainDecreases(chunks, s);
      case Join => hide Remaining, Effort;
    }
  }

  /** Contiguous chunks leave exactly `count` indices to run. */
  lemma {:induction false} StartsRemain(chunks: seq<Chunk>, count: int, size: int, k: nat)
    requires Splits(chunks, count, size) && 0 < k <= |chunks|
    ensures Remaining(chunks[..k], Init(chunks).pos[..k]) == chunks[k - 1].end
    decreases k
  {
    var pos := Init(chunks).pos;
    assert chunks[..k][..k - 1] == chunks[..k - 1] && pos[..k][..k - 1] == pos[..k - 1];
    if k > 1 {
      StartsRemain(chunks, count, size, k - 1);
      assert chunks[k - 2].end == chunks[k - 1].start;
    }
  }

  lemma {:induction false} AbsentEffort(workers: seq<Worker>)
    requires forall w :: 0 <= w < |workers| ==> workers[w].Absent?
    ensures Effort(workers) == 2 * |workers|
  {
    if workers != [] { AbsentEffort(workers[..|workers| - 1]); }
  }

  lemma InitMeasure(chunks: seq<Chunk>, count: int, size: int)
    requires Splits(chunks, count, size)
    ensures Measure(chunks, Init(chunks)) <= count + 4 * (|chunks| - 1) + 4
  {
    var pos := Init(chunks).pos;
    assert chunks[..|chunks|] == chunks && pos[..|chunks|] == pos;
    StartsRemain(chunks, count, size, |chunks|);
    AbsentEffort(Init(chunks).workers);
  }

  /** No schedule is longer than the initial measure. */
  lemma {:induction false} ScheduleMeasure(chunks: seq<Chunk>, count: nat, size: nat, sched: seq<Label>)
    requires Splits(chunks, count, size) && Exec(chunks, sched).Some?
    ensures |sched| + Measure(chunks, Exec(chunks, sched).value) <= Measure(chunks, Init(chunks))
    decreases |sched|
  {
    hide Splits, Step, Measure, Logged, Phased;
    if sched != [] {
      ScheduleMeasure(chunks, count, size, sched[..|sched| - 1]);
      ExecInv(chunks, count, size, sched[..|sched| - 1]);
      StepDecreases(chunks, Exec(chunks, sched[..|sched| - 1]).value, sched[|sched| - 1]);
    }
  }

  /** Every schedule is finite: `count` callbacks, and at most four other steps per chunk. */
  lemma ScheduleLength(chunks: seq<Chunk>, count: nat, size: nat, sched: seq<Label>)
    requires Splits(chunks, count, size) && Exec(chunks, sched).Some?
    ensures |sched| <= count + 4 * |chunks|
  {
    ScheduleMeasure(chunks, count, size, sched);
    InitMeasure(chunks, count, size);
    ExecInv(chunks, count, size, sched);
    RemainingNonNegative(chunks, Exec(chunks, sched).value.pos);
  }

  /** Every schedule can be continued until the call returns. */
  lemma {:induction false} CanReturn(chunks: seq<Chunk>, count: nat, size: nat, sched: seq<Label>)
    returns (more: seq<Label>)
    requires Splits(chunks, count, size) && Exec(chunks, sched).Some?
    ensures Exec(chunks, sched + more).Some? && Exec(chunks, sched + more).value.phase.Returned?
    decreases count + 4 * |chunks| - |sched|
  {
    hide Step, Splits, Init;
    var s := Exec(chunks, sched).value;
    if s.phase.Returned? {
      more := [];
      assert sched + [] == sched;
    } else {
      NeverStuck(chunks, count, size, sched);
      var l :| Step(s, l, chunks).Some?;
      assert (sched + [l])[..|sched|] == sched;
      ScheduleLength(chunks, count, size, sched + [l]);
      var rest := CanReturn(chunks, count, size, sched + [l]);
      more := [l] + rest;
      assert sched + more == sched + [l] + rest;
    }
  }

  /** `log` is a possible order of callback invocations by the time `fce_parallel_for_static`
      returns; it plans its loop as `fce_parallel_for` does. */
  ghost predicate Outcome(plan: ParallelFor.Plan, count: int, argsOk: bool, log: seq<int>) {
    match plan
    case NoOp => log == []
    case SerialLoop => count >= 0 && log == Serial(count)
    case Threads(n) =>
      if !argsOk then count >= 0 && log == Serial(count)
      else count >= 0 && exists chunks, size, sched :: Finishes(n, chunks, size, sched, count, log)
  }

  ghost predicate Finishes(n: nat, chunks: seq<Chunk>, size: nat, sched: seq<Label>, count: nat, log: seq<int>) {
    && |chunks| == n + 1 && Splits(chunks, count, size)
    && match Exec(chunks, sched)
       case Some(s) => s.phase.Returned? && s.log == log
       case None => false
  }

  /** Every call comes to an outcome. */
  lemma OutcomeExists(count: int, hasFn: bool, maxWorkers: int, defaultWorkers: int, argsOk: bool)
    returns (log: seq<int>)
    ensures Outcome(ParallelFor.PlanFor(count, hasFn, maxWorkers, defaultWorkers), count, argsOk, log)
  {
    var plan := ParallelFor.PlanFor(count, hasFn, maxWorkers, defaultWorkers);
    log := if plan.NoOp? then [] else Serial(count);
    if plan.Threads? && argsOk {
      var total := plan.n + 1;
      var size, remainder := count / total, count % total;
      Remainder(count, total);
      var chunks := seq(total, k requires 0 <= k < total => ChunkAt(k, size, remainder));
      LaidOut(chunks, count, size, remainder);
      var sched := CanReturn(chunks, count, size, []);
      log := Exec(chunks, [] + sched).value.log;
      assert Finishes(plan.n, chunks, size, [] + sched, count, log);
    }
  }

  /** Each index of [0, count) is visited exactly once, with no bound on `count` plus the workers. */
  lemma EachIndexOnce(count: int, hasFn: bool, maxWorkers: int, defaultWorkers: int, argsOk: bool, log: seq<int>)
    requires Outcome(ParallelFor.PlanFor(count, hasFn, maxWorkers, defaultWorkers), count, argsOk, log)
    ensures ExactlyOnce(log, if count <= 0 || !hasFn then 0 else count)
  {
    var plan := ParallelFor.PlanFor(count, hasFn, maxWorkers, defaultWorkers);
    if plan.Threads? && argsOk {
      var chunks, size: nat, sched :| Finishes(plan.n, chunks, size, sched, count, log);
      ReturnedExactlyOnce(chunks, count, size, sched);
    } else if count > 0 && hasFn {
      SerialOnce(count);
    }
  }
}
