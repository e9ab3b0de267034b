/** generateOCSPResponses (cmd/ocsp-updater/main.go): a buffered channel bounds the goroutines
    that generate and store responses, and filling it up again waits for all of them. The
    main loop and the goroutines take their steps in any order. */
module OcspSemaphore {
  import opened Prelude

  datatype Worker = Generating | Storing | Releasing | Finished

  /** Where the main goroutine is: before `wait` for a status, between `wait` and `go`, in the
      final loop, or returned. */
  datatype Main = Acquiring(next: nat) | Launching(next: nat) | Draining(filled: nat) | Returned

  /** `tokens` is the number of elements in the channel of capacity `cap`. */
  datatype State = State(cap: nat, statuses: nat, main: Main, tokens: nat, workers: seq<Worker>)

  datatype Step =
    | Advance                            // the main goroutine's next step
    | Generate(worker: nat, ok: bool)
    | Store(worker: nat)
    | Release(worker: nat)

  function Start(cap: nat, statuses: nat): State {
    State(cap, statuses, Acquiring(0), 0, [])
  }

  function Move(s: State, k: nat, from: Worker, to: Worker): Option<State> {
    if k < |s.workers| && s.workers[k] == from then Some(s.(workers := s.workers[k := to])) else None
  }

  /** The state after a step, or None when the step has to wait. */
  function Next(s: State, step: Step): Option<State> {
    match step
    case Advance =>
      (match s.main
       case Acquiring(i) =>
         if i >= s.statuses then Some(s.(main := Draining(0)))
         else if s.tokens < s.cap then Some(s.(main := Launching(i), tokens := s.tokens + 1))
         else None
       case Launching(i) => Some(s.(main := Acquiring(i + 1), workers := s.workers + [Generating]))
       case Draining(j) =>
         if j >= s.cap then Some(s.(main := Returned))
         else if s.tokens < s.cap then Some(s.(main := Draining(j + 1), tokens := s.tokens + 1))
         else None
       case Returned => None)
    case Generate(k, ok) => Move(s, k, Generating, if ok then Storing else Releasing)
    case Store(k) => Move(s, k, Storing, Releasing)
    case Release(k) =>
      var r := Move(s, k, Releasing, Finished);
      if r.Some? && s.tokens > 0 then Some(r.value.(tokens := s.tokens - 1)) else None
  }

  /** A run: every step is one that could be taken. */
  function Run(s: State, steps: seq<Step>): Option<State> {
    if |steps| == 0 then Some(s)
    else
      var before := Run(s, steps[..|steps| - 1]);
      if before.None? then None else Next(before.value, steps[|steps| - 1])
  }

  /** The goroutines that have been started and have not given their token back. */
  function Outstanding(workers: seq<Worker>): nat {
    if |workers| == 0 then 0
    else Outstanding(workers[..|workers| - 1]) + if workers[|workers| - 1].Finished? then 0 else 1
  }

  function HeldByMain(m: Main): nat {
    match m
    case Launching(_) => 1
    case Draining(j) => j
    case _ => 0
  }

  function Launched(m: Main, statuses: nat): nat {
    match m
    case Acquiring(i) => i
    case Launching(i) => i
    case _ => statuses
  }

  predicate Inv(s: State) {
    && |s.workers| == Launched(s.main, s.statuses) <= s.statuses
    && (s.main.Launching? ==> s.main.next < s.statuses)
    && s.tokens <= s.cap
    && (if s.main.Returned? then Outstanding(s.workers) == 0 else s.tokens == Outstanding(s.workers) + HeldByMain(s.main))
  }

  lemma {:induction false} OutstandingUpdate(w: seq<Worker>, k: nat, to: Worker)
    requires k < |w| && !w[k].Finished?
    ensures Outstanding(w) > 0
    ensures Outstanding(w[k := to]) == Outstanding(w) - if to.Finished? then 1 else 0
  {
    var n := |w| - 1;
    if k < n {
      OutstandingUpdate(w[..n], k, to);
      assert w[k := to][..n] == w[..n][k := to];
    } else {
      assert w[k := to][..n] == w[..n];
    }
  }

  lemma {:induction false} SomeOutstanding(w: seq<Worker>) returns (k: nat)
    requires Outstanding(w) > 0
    ensures k < |w| && !w[k].Finished?
  {
    var n := |w| - 1;
    if w[n].Finished? {
      k := SomeOutstanding(w[..n]);
    } else {
      k := n;
    }
  }

  lemma StepKeeps(s: State, step: Step)
    requires Inv(s) && Next(s, step).Some?
    ensures Inv(Next(s, step).value) && Next(s, step).value.cap == s.cap && Next(s, step).value.statuses == s.statuses
  {
    match step
    case Advance =>
      if s.main.Launching? {
        assert (s.workers + [Generating])[..|s.workers|] == s.workers;
      }
    case Generate(k, ok) => OutstandingUpdate(s.workers, k, if ok then Storing else Releasing);
    case Store(k) => OutstandingUpdate(s.workers, k, Releasing);
    case Release(k) => OutstandingUpdate(s.workers, k, Finished);
  }

  lemma {:induction false} RunKeeps(s: State, steps: seq<Step>)
    requires Inv(s) && Run(s, steps).Some?
    ensures var r := Run(s, steps).value; Inv(r) && r.cap == s.cap && r.statuses == s.statuses
  {
    if |steps| > 0 {
      var n := |steps| - 1;
      RunKeeps(s, steps[..n]);
      StepKeeps(Run(s, steps[..n]).value, steps[n]);
    }
  }

  /** Under every schedule no more goroutines than the capacity are outstanding, and when the
      function returns it has started one for every status and all have finished. */
  lemma BoundedAndComplete(cap: nat, statuses: nat, steps: seq<Step>)
    requires Run(Start(cap, statuses), steps).Some?
    ensures var s := Run(Start(cap, statuses), steps).value;
            && Outstanding(s.workers) <= cap
            && (s.main.Returned? ==> |s.workers| == statuses && forall k | 0 <= k < statuses :: s.workers[k].Finished?)
  {
    RunKeeps(Start(cap, statuses), steps);
    var s := Run(Start(cap, statuses), steps).value;
    if s.main.Returned? {
      forall k | 0 <= k < statuses ensures s.workers[k].Finished? {
        if !s.workers[k].Finished? {
          OutstandingUpdate(s.workers, k, Finished);
        }
      }
    }
  }

  ghost predicate CanMove(s: State) {
    exists step :: Next(s, step).Some?
  }

  /** Whatever has been scheduled so far, something can move until the function has returned. */
  ghost predicate NeverStuck(cap: nat, statuses: nat) {
    forall steps | Run(Start(cap, statuses), steps).Some? && !Run(Start(cap, statuses), steps).value.main.Returned? ::
      CanMove(Run(Start(cap, statuses), steps).value)
  }

  lemma SomethingMoves(s: State)
    requires Inv(s) && !s.main.Returned? && (s.cap > 0 || s.statuses == 0)
    ensures CanMove(s)
  {
    if Next(s, Advance).None? {
      var k := SomeOutstanding(s.workers);
      var step := match s.workers[k] case Generating => Generate(k, true) case Storing => Store(k) case _ => Release(k);
      assert Next(s, step).Some?;
    }
  }

  /** It never deadlocks, except that a channel without capacity blocks the first status for ever. */
  lemma NeverStuckIff(cap: nat, statuses: nat)
    ensures NeverStuck(cap, statuses) <==> cap > 0 || statuses == 0
  {
    var start := Start(cap, statuses);
    if cap > 0 || statuses == 0 {
      forall steps | Run(start, steps).Some? && !Run(start, steps).value.main.Returned?
        ensures CanMove(Run(start, steps).value)
      {
        RunKeeps(start, steps);
        SomethingMoves(Run(start, steps).value);
      }
    } else {
      assert Run(start, []) == Some(start);
      assert !CanMove(start);
    }
  }

  // ---------------------------------------------------------------- every schedule ends

  function Weight(w: Worker): nat {
    match w
    case Generating => 3
    case Storing => 2
    case Releasing => 1
    case Finished => 0
  }

  function Weights(workers: seq<Worker>): nat {
    if |workers| == 0 then 0 else Weights(workers[..|workers| - 1]) + Weight(workers[|workers| - 1])
  }

  function MainLeft(s: State): int {
    match s.main
    case Acquiring(i) => 5 * (s.statuses - i) + s.cap + 2
    case Launching(i) => 5 * (s.statuses - i) + s.cap + 1
    case Draining(j) => s.cap - j + 1
    case Returned => 0
  }

  lemma {:induction false} WeightsUpdate(w: seq<Worker>, k: nat, to: Worker)
    requires k < |w|
    ensures Weights(w[k := to]) == Weights(w) - Weight(w[k]) + Weight(to)
  {
    var n := |w| - 1;
    if k < n {
      WeightsUpdate(w[..n], k, to);
      assert w[k := to][..n] == w[..n][k := to];
    } else {
      assert w[k := to][..n] == w[..n];
    }
  }

  lemma StepShrinks(s: State, step: Step)
    requires Inv(s) && Next(s, step).Some?
    ensures var s' := Next(s, step).value; Weights(s'.workers) + MainLeft(s') < Weights(s.workers) + MainLeft(s)
  {
    match step
    case Advance =>
      if s.main.Launching? {
        assert (s.workers + [Generating])[..|s.workers|] == s.workers;
      }
    case Generate(k, ok) => WeightsUpdate(s.workers, k, if ok then Storing else Releasing);
    case Store(k) => WeightsUpdate(s.workers, k, Releasing);
    case Release(k) => WeightsUpdate(s.workers, k, Finished);
  }

  lemma MainLeftIsNatural(s: State)
    requires Inv(s)
    ensures MainLeft(s) >= 0
  {
  }

  lemma {:induction false} RunShrinks(s: State, steps: seq<Step>)
    requires Inv(s) && Run(s, steps).Some?
    ensures var r := Run(s, steps).value;
            |steps| + Weights(r.workers) + MainLeft(r) <= Weights(s.workers) + MainLeft(s)
  {
    if |steps| > 0 {
      var n := |steps| - 1;
      RunShrinks(s, steps[..n]);
      RunKeeps(s, steps[..n]);
      StepShrinks(Run(s, steps[..n]).value, steps[n]);
    }
  }

  /** No schedule takes more than 5n + cap + 2 steps, so with NeverStuckIff every schedule ends
      with the function returned. */
  lemma EveryScheduleEnds(cap: nat, statuses: nat, steps: seq<Step>)
    requires Run(Start(cap, statuses), steps).Some?
    ensures |steps| <= 5 * statuses + cap + 2
  {
    RunShrinks(Start(cap, statuses), steps);
    RunKeeps(Start(cap, statuses), steps);
    MainLeftIsNatural(Run(Start(cap, statuses), steps).value);
  }
}
