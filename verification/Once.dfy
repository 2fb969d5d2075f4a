/** `base/once`: one-time initialization by any number of threads, as a machine whose steps
    are the atomic accesses of the code (sequentially consistent). */
module Once {

  const UNINITIALIZED := 0
  const EXECUTING_CLOSURE := 1
  const DONE := 2

  /** Where a thread stands in its call of `OnceInit`. */
  datatype Pc =
    | Idle
    | AtFastLoad    // OnceInit: first load of the word
    | AtSlowLoad    // OnceInitImpl: second load
    | AtSwap        // compare-and-swap from 0 to 1
    | AtClosure     // won the swap, closure not entered yet
    | InClosure
    | AtStore       // closure finished, DONE not stored yet
    | Spinning      // yield and load until the word is not 1
    | Returned

  datatype State = State(word: int, pcs: seq<Pc>, starts: nat, finished: bool)

  function Start(threads: nat): State {
    State(UNINITIALIZED, seq(threads, i => Idle), 0, false)
  }

  /** The next atomic step of thread `t`. A thread may call again after returning. */
  function Step(s: State, t: nat): State
    requires t < |s.pcs|
  {
    match s.pcs[t]
    case Idle => s.(pcs := s.pcs[t := AtFastLoad])
    case AtFastLoad => s.(pcs := s.pcs[t := if s.word != DONE then AtSlowLoad else Returned])
    case AtSlowLoad => s.(pcs := s.pcs[t := if s.word == DONE then Returned else AtSwap])
    case AtSwap =>
      if s.word == UNINITIALIZED then s.(word := EXECUTING_CLOSURE, pcs := s.pcs[t := AtClosure])
      else s.(pcs := s.pcs[t := if s.word == EXECUTING_CLOSURE then Spinning else Returned])
    case AtClosure => s.(pcs := s.pcs[t := InClosure], starts := s.starts + 1)
    case InClosure => s.(pcs := s.pcs[t := AtStore], finished := true)
    case AtStore => s.(word := DONE, pcs := s.pcs[t := Returned])
    case Spinning => if s.word == EXECUTING_CLOSURE then s else s.(pcs := s.pcs[t := Returned])
    case Returned => s.(pcs := s.pcs[t := Idle])
  }

  predicate Owner(pc: Pc) {
    pc.AtClosure? || pc.InClosure? || pc.AtStore?
  }

  /** At most one thread owns the initialization; the word says whether one does. */
  ghost predicate Inv(s: State) {
    && s.word in {UNINITIALIZED, EXECUTING_CLOSURE, DONE}
    && (forall t, u :: 0 <= t < |s.pcs| && 0 <= u < |s.pcs| && Owner(s.pcs[t]) && Owner(s.pcs[u]) ==> t == u)
    && (s.word == EXECUTING_CLOSURE <==> exists t :: 0 <= t < |s.pcs| && Owner(s.pcs[t]))
    && (s.word == UNINITIALIZED ==> s.starts == 0 && !s.finished)
    && (s.word == DONE ==> s.starts == 1 && s.finished)
    && (forall t :: 0 <= t < |s.pcs| && s.pcs[t].AtClosure? ==> s.starts == 0 && !s.finished)
    && (forall t :: 0 <= t < |s.pcs| && s.pcs[t].InClosure? ==> s.starts == 1 && !s.finished)
    && (forall t :: 0 <= t < |s.pcs| && s.pcs[t].AtStore? ==> s.starts == 1 && s.finished)
    && (forall t :: 0 <= t < |s.pcs| && s.pcs[t].Spinning? ==> s.word != UNINITIALIZED)
    && (forall t :: 0 <= t < |s.pcs| && s.pcs[t].Returned? ==> s.word == DONE)
  }

  lemma StepKeepsInv(s: State, t: nat)
    requires Inv(s) && t < |s.pcs|
    ensures Inv(Step(s, t))
  {
    if Owner(s.pcs[t]) {
      OwnerStepKeepsInv(s, t);
    } else if s.pcs[t].AtSwap? && s.word == UNINITIALIZED {
      WinningSwapKeepsInv(s, t);
    } else {
      OtherStepKeepsInv(s, t);
    }
  }

  lemma OtherStepKeepsInv(s: State, t: nat)
    requires Inv(s) && t < |s.pcs| && !Owner(s.pcs[t])
    requires s.pcs[t].AtSwap? ==> s.word != UNINITIALIZED
    ensures Inv(Step(s, t))
  {
    var s' := Step(s, t);
    assert s'.word == s.word && s'.starts == s.starts && s'.finished == s.finished && |s'.pcs| == |s.pcs|;
    assert !Owner(s'.pcs[t]) && (s'.pcs[t].Spinning? ==> s.word != UNINITIALIZED) && (s'.pcs[t].Returned? ==> s.word == DONE);
    assert forall u :: 0 <= u < |s.pcs| && u != t ==> s'.pcs[u] == s.pcs[u];
    assert forall u :: 0 <= u < |s.pcs| ==> (Owner(s'.pcs[u]) <==> Owner(s.pcs[u]));
    hide Step;
    if s.word == EXECUTING_CLOSURE {
      var owner :| 0 <= owner < |s.pcs| && Owner(s.pcs[owner]);
      assert Owner(s'.pcs[owner]);
    } else {
      assert forall u :: 0 <= u < |s.pcs| ==> !Owner(s.pcs[u]);
    }
  }

  lemma OwnerStepKeepsInv(s: State, t: nat)
    requires Inv(s) && t < |s.pcs| && Owner(s.pcs[t])
    ensures Inv(Step(s, t))
  {
    var s' := Step(s, t);
    assert s.word == EXECUTING_CLOSURE;
    assert forall u :: 0 <= u < |s.pcs| && u != t ==> !Owner(s.pcs[u]) && s'.pcs[u] == s.pcs[u];
    if !s.pcs[t].AtStore? {
      assert Owner(s'.pcs[t]);
    }
  }

  lemma WinningSwapKeepsInv(s: State, t: nat)
    requires Inv(s) && t < |s.pcs| && s.pcs[t].AtSwap? && s.word == UNINITIALIZED
    ensures Inv(Step(s, t))
  {
    var s' := Step(s, t);
    assert forall u :: 0 <= u < |s.pcs| ==> !Owner(s.pcs[u]);
    assert forall u :: 0 <= u < |s.pcs| && u != t ==> s'.pcs[u] == s.pcs[u];
    assert Owner(s'.pcs[t]);
  }

  /** One schedule of atomic steps. */
  function Run(s: State, schedule: seq<nat>): (s': State)
    requires forall i :: 0 <= i < |schedule| ==> schedule[i] < |s.pcs|
    ensures |s'.pcs| == |s.pcs|
    decreases |schedule|
  {
    if schedule == [] then s else Run(Step(s, schedule[0]), schedule[1..])
  }

  lemma {:induction false} RunKeepsInv(s: State, schedule: seq<nat>)
    requires Inv(s) && forall i :: 0 <= i < |schedule| ==> schedule[i] < |s.pcs|
    ensures Inv(Run(s, schedule))
    decreases |schedule|
  {
    if schedule != [] {
      StepKeepsInv(s, schedule[0]);
      RunKeepsInv(Step(s, schedule[0]), schedule[1..]);
    }
  }

  /** Main result on safety: for any number of threads and any interleaving, the closure is
      entered at most once and by at most one thread at a time, and no call returns before
      the closure has finished. */
  lemma OnceOnly(threads: nat, schedule: seq<nat>, t: nat, u: nat)
    requires forall i :: 0 <= i < |schedule| ==> schedule[i] < threads
    requires t < threads && u < threads
    ensures var s := Run(Start(threads), schedule);
            && s.starts <= 1
            && (s.pcs[t].InClosure? && s.pcs[u].InClosure? ==> t == u)
            && (s.pcs[t].Returned? ==> s.finished && s.starts == 1 && s.word == DONE)
            && (s.word == UNINITIALIZED ==> s.starts == 0)
  {
    RunKeepsInv(Start(threads), schedule);
    var s := Run(Start(threads), schedule);
    if s.word == EXECUTING_CLOSURE {
      var owner :| 0 <= owner < |s.pcs| && Owner(s.pcs[owner]);
      assert s.starts <= 1;
    }
  }

  /** A call is left only when the closure has finished, whatever way it is left. */
  lemma LeavesWhenDone(s: State, t: nat)
    requires Inv(s) && t < |s.pcs| && InCall(s.pcs[t]) && !InCall(Step(s, t).pcs[t])
    ensures Step(s, t).word == DONE && Step(s, t).finished && Step(s, t).starts == 1
    ensures Step(s, t).pcs[t] == Returned
  {
  }

  /** Main result on returning: in no run does a step take a thread out of its call before the
      closure has finished. */
  lemma NoEarlyReturn(threads: nat, schedule: seq<nat>, t: nat)
    requires t < threads && forall i :: 0 <= i < |schedule| ==> schedule[i] < threads
    ensures var s := Run(Start(threads), schedule);
            InCall(s.pcs[t]) && !InCall(Step(s, t).pcs[t]) ==>
              Step(s, t).word == DONE && Step(s, t).finished && Step(s, t).starts == 1
  {
    RunKeepsInv(Start(threads), schedule);
    var s := Run(Start(threads), schedule);
    hide Inv, Step, InCall, Run;
    if InCall(s.pcs[t]) && !InCall(Step(s, t).pcs[t]) {
      LeavesWhenDone(s, t);
    }
  }

  /** A step is one thread's: it enters a call only from outside, gets outside only through a
      return, and moves no other thread. */
  lemma StepIsLocal(s: State, t: nat, u: nat)
    requires t < |s.pcs| && u < |s.pcs|
    ensures |Step(s, t).pcs| == |s.pcs| && (u != t ==> Step(s, t).pcs[u] == s.pcs[u])
    ensures s.pcs[t].Idle? ==> InCall(Step(s, t).pcs[t])
    ensures Step(s, t).pcs[t].Idle? ==> s.pcs[t].Returned?
    ensures s.pcs[t].Idle? || s.pcs[t].Returned? ==>
              Step(s, t).word == s.word && Step(s, t).starts == s.starts && Step(s, t).finished == s.finished
  {
  }

  /** The closure is under way in the model exactly from the step that enters it to the step
      that leaves it: it starts once the word is taken, and has finished before DONE is stored. */
  lemma ClosureIsBracketed(s: State, t: nat)
    requires Inv(s) && t < |s.pcs|
    ensures Step(s, t).starts != s.starts <==> !s.pcs[t].InClosure? && Step(s, t).pcs[t].InClosure?
    ensures Step(s, t).finished != s.finished <==> s.pcs[t].InClosure?
    ensures Step(s, t).starts != s.starts ==> s.word == EXECUTING_CLOSURE
    ensures Step(s, t).word == DONE && s.word != DONE ==> s.finished
  {
    if s.pcs[t].AtClosure? || s.pcs[t].InClosure? {
      assert Owner(s.pcs[t]);
    }
  }

  /** The word only moves up, one value at a time. */
  lemma WordClimbs(s: State, t: nat)
    requires Inv(s) && t < |s.pcs|
    ensures s.word <= Step(s, t).word <= s.word + 1 && Step(s, t).word <= DONE
    ensures s.finished ==> Step(s, t).finished
  {
    if s.pcs[t].AtStore? {
      assert Owner(s.pcs[t]);
    }
  }

  lemma {:induction false} DoneIsFinal(s: State, schedule: seq<nat>)
    requires Inv(s) && s.word == DONE && forall i :: 0 <= i < |schedule| ==> schedule[i] < |s.pcs|
    ensures Run(s, schedule).word == DONE && Run(s, schedule).starts == s.starts
    decreases |schedule|
  {
    if schedule != [] {
      var t := schedule[0];
      assert !Owner(s.pcs[t]);
      StepKeepsInv(s, t);
      DoneIsFinal(Step(s, t), schedule[1..]);
    }
  }

  lemma {:induction false} OthersLeaveThread(s: State, schedule: seq<nat>, t: nat)
    requires t < |s.pcs| && t !in schedule
    requires forall i :: 0 <= i < |schedule| ==> schedule[i] < |s.pcs|
    ensures Run(s, schedule).pcs[t] == s.pcs[t]
    decreases |schedule|
  {
    if schedule != [] {
      OthersLeaveThread(Step(s, schedule[0]), schedule[1..], t);
    }
  }

  /** Main result on waiting: once the word is DONE, a waiting thread returns in its very
      next step, whatever other threads do before it. */
  lemma WaiterReturnsNext(s: State, others: seq<nat>, t: nat)
    requires Inv(s) && s.word == DONE && t < |s.pcs| && s.pcs[t].Spinning? && t !in others
    requires forall i :: 0 <= i < |others| ==> others[i] < |s.pcs|
    ensures Step(Run(s, others), t).pcs[t] == Returned
  {
    DoneIsFinal(s, others);
    OthersLeaveThread(s, others, t);
  }

  // --------------------------------------------------------------- progress

  /** Steps a call still needs, not counting spins. */
  function Distance(pc: Pc): nat {
    match pc
    case AtFastLoad => 7
    case AtSlowLoad => 6
    case AtSwap => 5
    case AtClosure => 4
    case InClosure => 3
    case AtStore => 2
    case Spinning => 1
    case Idle => 0
    case Returned => 0
  }

  function Remaining(pcs: seq<Pc>): nat {
    if pcs == [] then 0 else Distance(pcs[0]) + Remaining(pcs[1..])
  }

  predicate InCall(pc: Pc) {
    !pc.Idle? && !pc.Returned?
  }

  lemma {:induction false} RemainingUpdate(pcs: seq<Pc>, t: nat, pc: Pc)
    requires t < |pcs|
    ensures Remaining(pcs[t := pc]) == Remaining(pcs) - Distance(pcs[t]) + Distance(pc)
  {
    if t == 0 {
      assert pcs[t := pc][1..] == pcs[1..];
    } else {
      RemainingUpdate(pcs[1..], t - 1, pc);
      assert pcs[t := pc][1..] == pcs[1..][t - 1 := pc];
    }
  }

  /** A thread that waits while another one initializes. */
  predicate Waits(s: State, t: nat)
    requires t < |s.pcs|
  {
    s.pcs[t].Spinning? && s.word == EXECUTING_CLOSURE
  }

  /** Every step of a call brings it nearer to its end, except waiting. */
  lemma CallStepsProgress(s: State, t: nat)
    requires t < |s.pcs| && InCall(s.pcs[t])
    ensures Waits(s, t) ==> Step(s, t) == s
    ensures !Waits(s, t) ==> Remaining(Step(s, t).pcs) < Remaining(s.pcs)
  {
    RemainingUpdate(s.pcs, t, Step(s, t).pcs[t]);
    assert s.pcs[t := Step(s, t).pcs[t]] == Step(s, t).pcs;
  }

  /** Main result on progress: as long as any call is under way, some thread in a call is
      not waiting, so nobody waits for nobody. */
  lemma NeverStuck(s: State, t: nat)
    requires Inv(s) && t < |s.pcs| && InCall(s.pcs[t])
    ensures exists u :: 0 <= u < |s.pcs| && InCall(s.pcs[u]) && !Waits(s, u)
  {
    if Waits(s, t) {
      var owner :| 0 <= owner < |s.pcs| && Owner(s.pcs[owner]);
      assert InCall(s.pcs[owner]) && !Waits(s, owner);
    } else {
      assert InCall(s.pcs[t]) && !Waits(s, t);
    }
  }

  /** Hence all calls under way can be driven to their end. */
  lemma {:induction false} AllCallsCanFinish(s: State) returns (schedule: seq<nat>)
    requires Inv(s)
    ensures forall i :: 0 <= i < |schedule| ==> schedule[i] < |s.pcs|
    ensures forall t :: 0 <= t < |s.pcs| ==> !InCall(Run(s, schedule).pcs[t])
    ensures |schedule| <= Remaining(s.pcs)
    decreases Remaining(s.pcs)
  {
    if t :| 0 <= t < |s.pcs| && InCall(s.pcs[t]) {
      NeverStuck(s, t);
      var u :| 0 <= u < |s.pcs| && InCall(s.pcs[u]) && !Waits(s, u);
      CallStepsProgress(s, u);
      StepKeepsInv(s, u);
      var rest := AllCallsCanFinish(Step(s, u));
      schedule := [u] + rest;
      assert schedule[1..] == rest;
    } else {
      schedule := [];
    }
  }
}
