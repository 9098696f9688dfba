/**
 The server stub: stepping, continuing and reverse-continuing the shadow, and the packets that read and write
 it. Only the shadow side is modelled; `dut` holds the instructions the DUT has yet to retire.
 */
module Stub {
  import opened MemoryMap
  import opened ShadowState
  import opened Points
  import opened TimeTravel
  import opened Exactness
  import opened ShadowHistory
  import opened Continue
  import opened Shadow

  /** How a continue loop ended: with a signal, by Ctrl+C, or in a DUT step that never completes. */
  datatype Outcome = Signalled | Interrupted | Waiting

  /** The entries that stop a continue loop. */
  function Hit(t: Tables): Retired -> bool {
    r => Matches(t, r)
  }

  /** The operations used for stepping are those of the shadow; stated pointwise to keep proofs about loops small. */
  ghost predicate Agrees(ops: Ops<Cpu, Retired>, mmap: seq<Block>) {
    forall s, r :: AgreesAt(ops, mmap, s, r)
  }

  ghost predicate AgreesAt(ops: Ops<Cpu, Retired>, mmap: seq<Block>, s: Cpu, r: Retired) {
    && ops.update(s, r) == Update(mmap, s, r) && ops.record(s, r) == Record(mmap, s, r)
    && ops.replay(s, r) == Replay(mmap, s, r) && ops.revert(s, r) == Revert(mmap, s, r)
  }

  class GdbServerStub {
    const shd: GdbShadow
    ghost const ops: Ops<Cpu, Retired>
    var dut: seq<Retired>

    ghost predicate Valid()
      reads this, shd, shd.mem
    {
      && shd.Valid() && -1 <= shd.cnt < |shd.trc| && (shd.cnt == -1 <==> |shd.trc| == 0)
      && (forall i {:trigger WellFormed(shd.mmap, shd.gpr.Length, shd.csr.Length, dut[i])} ::
            0 <= i < |dut| ==> WellFormed(shd.mmap, shd.gpr.Length, shd.csr.Length, dut[i]))
      && Agrees(ops, shd.mmap)
    }

    constructor (shd: GdbShadow, dut: seq<Retired>)
      requires shd.Valid() && shd.cnt == -1 && |shd.trc| == 0
      requires forall i :: 0 <= i < |dut| ==> WellFormed(shd.mmap, shd.gpr.Length, shd.csr.Length, dut[i])
      ensures Valid() && IsStart(State()) && State().dut == dut && State().cpu == shd.View()
      ensures this.shd == shd && ops == ShadowOps(shd.mmap)
    {
      this.shd, this.dut := shd, dut;
      this.ops := ShadowOps(shd.mmap);
    }

    ghost function State(): (m: Machine<Cpu, Retired>)
      reads this, shd, shd.gpr, shd.csr, shd.mem
      ensures Valid() ==> m.Inv()
    {
      Machine(shd.View(), shd.cnt, shd.trc, dut)
    }

    // ---------- single steps ----------

    /** Step forward: pull the next instruction from the DUT if the trace is used up. */
    method ForwardStep() returns (waits: bool)
      requires Valid()
      modifies this`dut, shd, shd.gpr, shd.csr, shd.mem
      ensures Valid() && shd.Points() == old(shd.Points())
      ensures waits == old(State()).Waits()
      ensures State() == TimeTravel.ForwardStep(shd.guard, ops, old(State()))
      ensures shd.Stopped() ==
              if waits then old(shd.Stopped()) else Observe(shd.Points(), shd.trc[shd.cnt], old(shd.Stopped()))
    {
      ghost var m := State();
      waits := false;
      var appended := shd.cnt == |shd.trc| - 1;
      if appended {
        if |dut| == 0 {
          return true;
        }
        shd.trc := shd.trc + [dut[0]];
        dut := dut[1..];
      }
      ghost var pushed := shd.trc;
      assert shd.View() == m.cpu && shd.Stopped() == old(shd.Stopped());
      shd.Forward(appended);
      ForwardFields(shd.guard, ops, shd.mmap, m, shd.View(), shd.trc, pushed, dut);
    }

    method BackwardStep()
      requires Valid()
      modifies shd, shd.gpr, shd.csr, shd.mem
      ensures Valid() && shd.Points() == old(shd.Points())
      ensures State() == TimeTravel.BackwardStep(ops, old(State()))
      ensures shd.Stopped() ==
              if old(shd.cnt) <= 0 then Stop(SIGTRAP, old(shd.rsn))
              else Observe(shd.Points(), shd.trc[shd.cnt], old(shd.Stopped()))
    {
      if shd.cnt == -1 {
        shd.sig := SIGTRAP;
      } else if shd.cnt == 0 {
        shd.sig := SIGTRAP;
      } else {
        BackwardFields(ops, shd.mmap, State());
        shd.Backward();
      }
    }

    // ---------- continue and reverse-continue ----------

    /** One pass of the reverse-continue loop, before the interrupt is polled. */
    method ReverseOnce() returns (stop: bool)
      requires Valid()
      modifies shd, shd.gpr, shd.csr, shd.mem
      ensures Valid() && shd.Points() == old(shd.Points())
      ensures State() == TimeTravel.BackwardStep(ops, old(State()))
      ensures stop == (shd.sig != SIGNONE)
      ensures stop <==> old(shd.cnt) <= 0 || Hit(shd.Points())(shd.trc[shd.cnt])
      ensures stop ==> shd.sig == if old(shd.cnt) <= 0 then SIGTRAP else SignalOf(shd.Points(), shd.trc[shd.cnt])
    {
      shd.sig := SIGNONE;
      ghost var quiet := shd.Stopped();
      BackwardStep();
      if old(shd.cnt) > 0 {
        ObserveSignalsMatches(shd.Points(), shd.trc[shd.cnt], quiet);
      }
      stop := shd.sig != SIGNONE;
    }

    /** A pass with the poll for Ctrl+C: it ends the loop begun at `start`, or the loop goes on further back. */
    method ReversePass(ghost start: Machine<Cpu, Retired>) returns (stop: bool, o: Outcome)
      requires Valid() && start.Inv() && Reversing(ops, Hit(shd.Points()), start, State())
      modifies shd, shd.gpr, shd.csr, shd.mem
      ensures Valid() && shd.Points() == old(shd.Points())
      ensures !stop ==> shd.cnt < old(shd.cnt) && Reversing(ops, Hit(shd.Points()), start, State())
      ensures stop ==> Reversed(ops, shd.Points(), start, State(), shd.sig, o)
    {
      ReverseIteration(ops, Hit(shd.Points()), start, State());
      stop := ReverseOnce();
      o := Signalled;
      var ctrlC: bool := *;
      if ctrlC {
        shd.sig := SIGINT;
        stop, o := true, Interrupted;
      }
    }

    /** The `bc` packet: step back until an entry matches, the history begins, or the user interrupts. */
    method ReverseContinue() returns (o: Outcome)
      requires Valid()
      modifies shd, shd.gpr, shd.csr, shd.mem
      ensures Valid() && shd.Points() == old(shd.Points())
      ensures Reversed(ops, shd.Points(), old(State()), State(), shd.sig, o)
    {
      ghost var start := State();
      o := Signalled;
      var stop := false;
      while !stop
        invariant Valid() && shd.Points() == old(shd.Points())
        invariant !stop ==> Reversing(ops, Hit(shd.Points()), start, State())
        invariant stop ==> Reversed(ops, shd.Points(), start, State(), shd.sig, o)
        decreases !stop, shd.cnt + 1
      {
        stop, o := ReversePass(start);
      }
    }

    /** One pass of the continue loop, before the interrupt is polled. */
    method ContinueOnce() returns (waits: bool, stop: bool)
      requires Valid()
      modifies this`dut, shd, shd.gpr, shd.csr, shd.mem
      ensures Valid() && shd.Points() == old(shd.Points())
      ensures waits == old(State()).Waits()
      ensures State() == TimeTravel.ForwardStep(shd.guard, ops, old(State()))
      ensures stop == (shd.sig != SIGNONE)
      ensures waits ==> shd.sig == old(shd.sig)
      ensures !waits ==> (stop <==> old(shd.sig) != SIGNONE || Hit(shd.Points())(shd.trc[shd.cnt]))
      ensures !waits && stop && old(shd.sig) == SIGNONE ==> shd.sig == SignalOf(shd.Points(), shd.trc[shd.cnt])
    {
      waits := ForwardStep();
      if !waits {
        ObserveSignalsMatches(shd.Points(), shd.trc[shd.cnt], old(shd.Stopped()));
      }
      stop := shd.sig != SIGNONE;
    }

    /** A pass with the poll for Ctrl+C: it ends the loop begun at `start`, or the loop goes on with less to do. */
    method ContinuePass(ghost start: Machine<Cpu, Retired>, ghost first: nat) returns (stop: bool, o: Outcome)
      requires Valid() && start.Inv()
      requires Goes(shd.guard, ops, Hit(shd.Points()), start, State(), first, shd.sig)
      modifies this`dut, shd, shd.gpr, shd.csr, shd.mem
      ensures Valid() && shd.Points() == old(shd.Points())
      ensures !stop ==> Goes(shd.guard, ops, Hit(shd.Points()), start, State(), first, shd.sig)
      ensures !stop ==> |dut| + |shd.trc| - shd.cnt < old(|dut| + |shd.trc| - shd.cnt)
      ensures stop ==> Ended(shd.guard, ops, shd.Points(), start, State(), first, shd.sig, o)
    {
      GoesOn(shd.guard, ops, shd.Points(), start, State(), first, shd.sig);
      var waits;
      waits, stop := ContinueOnce();
      o := Signalled;
      if waits {
        stop, o := true, Waiting;
      } else {
        var ctrlC: bool := *;
        if ctrlC {
          shd.sig := SIGINT;
          stop, o := true, Interrupted;
        }
      }
    }

    /**
     The `c` packet (`signal` 0) and the `C` packet: step forward at least once, then until a signal is set.
     A `C` packet with a nonzero signal starts with the signal set, so it makes one step.
     */
    method Continue(signal: nat) returns (o: Outcome)
      requires Valid()
      modifies this`dut, shd, shd.gpr, shd.csr, shd.mem
      ensures Valid() && shd.Points() == old(shd.Points())
      ensures Ended(shd.guard, ops, shd.Points(), old(State()), State(), signal % 256, shd.sig, o)
    {
      ghost var start := State();
      o := Signalled;
      shd.sig := signal % 256;
      var stop := false;
      while !stop
        invariant Valid() && shd.Points() == old(shd.Points())
        invariant !stop ==> Goes(shd.guard, ops, Hit(shd.Points()), start, State(), signal % 256, shd.sig)
        invariant stop ==> Ended(shd.guard, ops, shd.Points(), start, State(), signal % 256, shd.sig, o)
        decreases !stop, |dut| + |shd.trc| - shd.cnt
      {
        stop, o := ContinuePass(start, signal % 256);
      }
    }
  }

  /**
   How a reverse-continue begun at `start` may end at `m` with signal `sig`: uninterrupted it is the
   uninterrupted run, and the signal is that of the matching entry or the trap of the beginning of history.
   In every case, Ctrl+C included, `m` is `start` after as many backward steps as lie between their positions,
   and no entry passed over matches.
   */
  ghost predicate Reversed(ops: Ops<Cpu, Retired>, t: Tables, start: Machine<Cpu, Retired>, m: Machine<Cpu, Retired>,
                           sig: nat, o: Outcome)
    requires start.Inv() && m.Inv()
  {
    && o != Waiting && m.trc == start.trc && m.dut == start.dut && m.cnt <= start.cnt
    && SteppedBack(ops, start, m)
    && Clear(Hit(t), m.trc, m.cnt, start.cnt)
    && (o == Interrupted ==> sig == SIGINT == 2)
    && (o == Signalled ==>
          && m == ReverseRun(ops, Hit(t), start)
          && sig == if 0 <= m.cnt < start.cnt && Matches(t, m.trc[m.cnt]) then SignalOf(t, m.trc[m.cnt]) else SIGTRAP)
  }

  /**
   A reverse-continue followed by a continue on the stub itself: where time travel is exact, and unless the
   user interrupts, the stub ends up as it was.
   */
  method ReverseThenContinue(stub: GdbServerStub, ghost start: Machine<Cpu, Retired>, ghost steps: seq<Step>)
    returns (back: Outcome, again: Outcome)
    requires stub.Valid() && IsStart(start) && Exact(stub.shd.guard, stub.ops, start)
    requires stub.State() == Run(stub.shd.guard, stub.ops, start, steps)
    requires stub.shd.cnt > 0 && Hit(stub.shd.Points())(stub.shd.trc[stub.shd.cnt])
    modifies stub`dut, stub.shd, stub.shd.gpr, stub.shd.csr, stub.shd.mem
    ensures stub.Valid()
    ensures back == Signalled && again != Interrupted ==> stub.State() == old(stub.State())
  {
    ContinueUndoesReverse(stub.shd.guard, stub.ops, Hit(stub.shd.Points()), start, steps);
    back := stub.ReverseContinue();
    again := stub.Continue(SIGNONE);
  }

  /**
   From a matching position of a quiet DUT stream, a reverse-continue and a continue, neither interrupted,
   lead back to the same machine: same position, same trace, same shadow, nothing asked of the DUT. For the
   code with the guard repaired.
   */
  lemma QuietContinueUndoesReverse(
      mmap: seq<Block>, t: Tables, start: Machine<Cpu, Retired>, steps: seq<Step>)
    requires IsStart(start) && forall k: nat :: k + 1 < |start.dut| ==> QuietAt(mmap, start, k)
    requires var m := Run(OnAppend, ShadowOps(mmap), start, steps); m.cnt > 0 && Matches(t, m.trc[m.cnt])
    ensures var m := Run(OnAppend, ShadowOps(mmap), start, steps);
            ContinueRun(OnAppend, ShadowOps(mmap), Hit(t), ReverseRun(ShadowOps(mmap), Hit(t), m)) == m
  {
    OnAppendIsExactIffQuiet(mmap, start);
    ContinueUndoesReverse(OnAppend, ShadowOps(mmap), Hit(t), start, steps);
  }

  /** However a reverse-continue ends, a stub that was at the end of a run is at the end of a longer one. */
  lemma ReversedIsRun(
      g: Guard, ops: Ops<Cpu, Retired>, t: Tables, origin: Machine<Cpu, Retired>, steps: seq<Step>,
      m: Machine<Cpu, Retired>, sig: nat, o: Outcome)
    returns (back: seq<Step>)
    requires origin.Inv() && m.Inv() && Reversed(ops, t, Run(g, ops, origin, steps), m, sig, o)
    ensures |back| == Run(g, ops, origin, steps).cnt - m.cnt && forall i :: 0 <= i < |back| ==> back[i] == Backward
    ensures m == Run(g, ops, origin, steps + back)
  {
    var start := Run(g, ops, origin, steps);
    back := seq(start.cnt - m.cnt, _ => Backward);
    BackedIsRun(g, ops, start, start.cnt - m.cnt);
    RunConcat(g, ops, origin, steps, back);
  }

  lemma EndedIsRun(
      g: Guard, ops: Ops<Cpu, Retired>, t: Tables, origin: Machine<Cpu, Retired>, steps: seq<Step>,
      m: Machine<Cpu, Retired>, first: nat, sig: nat, o: Outcome)
    returns (forth: seq<Step>)
    requires origin.Inv() && m.Inv() && Ended(g, ops, t, Run(g, ops, origin, steps), m, first, sig, o)
    ensures |forth| == m.cnt - Run(g, ops, origin, steps).cnt && forall i :: 0 <= i < |forth| ==> forth[i] == Forward
    ensures m == Run(g, ops, origin, steps + forth)
  {
    var start := Run(g, ops, origin, steps);
    forth := seq(m.cnt - start.cnt, _ => Forward);
    StraightIsRun(g, ops, start, m.cnt - start.cnt);
    RunConcat(g, ops, origin, steps, forth);
  }

  /** The continue loop begun at `start` with signal `first` is at `m` with signal `sig` and makes another pass. */
  ghost predicate Goes(g: Guard, ops: Ops<Cpu, Retired>, hit: Retired -> bool,
                       start: Machine<Cpu, Retired>, m: Machine<Cpu, Retired>, first: nat, sig: nat)
    requires start.Inv() && m.Inv()
  {
    if first == SIGNONE then sig == SIGNONE && Continuing(g, ops, hit, start, m) else sig == first && m == start
  }

  /**
   How a continue begun at `start` with signal `first` may end at `m` with signal `sig`: begun without a
   signal and not interrupted, it is the uninterrupted run; begun with one, it is a single step. In every case,
   Ctrl+C included, `m` is `start` after as many forward steps as lie between their positions, and no entry
   passed over matches.
   */
  ghost predicate Ended(g: Guard, ops: Ops<Cpu, Retired>, t: Tables,
                        start: Machine<Cpu, Retired>, m: Machine<Cpu, Retired>, first: nat, sig: nat, o: Outcome)
    requires start.Inv() && m.Inv()
  {
    && start.trc <= m.trc && SteppedOn(g, ops, start, m)
    && (o == Waiting ==> m.Waits() && Clear(Hit(t), m.trc, start.cnt, |m.trc|))
    && (o != Waiting ==> start.cnt < m.cnt && sig != SIGNONE && Clear(Hit(t), m.trc, start.cnt, m.cnt))
    && (o == Interrupted ==> sig == SIGINT == 2)
    && (first == SIGNONE && o != Interrupted ==> m == ContinueRun(g, ops, Hit(t), start))
    && (first == SIGNONE && o == Signalled ==> sig == SignalOf(t, m.trc[m.cnt]))
    && (first != SIGNONE ==> m == TimeTravel.ForwardStep(g, ops, start))
  }

  /** What one more pass from `m` brings, with `f` the machine after it: the end of the loop, or less left to do. */
  ghost predicate Passes(g: Guard, ops: Ops<Cpu, Retired>, t: Tables, start: Machine<Cpu, Retired>,
                         m: Machine<Cpu, Retired>, f: Machine<Cpu, Retired>, first: nat, sig: nat)
    requires start.Inv() && m.Inv() && f.Inv()
  {
    if m.Waits() then Ended(g, ops, t, start, f, first, sig, Waiting)
    else
      && |f.dut| + |f.trc| - f.cnt < |m.dut| + |m.trc| - m.cnt
      && Ended(g, ops, t, start, f, first, SIGINT, Interrupted)
      && (forall s :: s != SIGNONE && (sig != SIGNONE || Hit(t)(f.trc[f.cnt]))
                      && (sig == SIGNONE ==> s == SignalOf(t, f.trc[f.cnt])) ==>
            Ended(g, ops, t, start, f, first, s, Signalled))
      && (sig == SIGNONE && !Hit(t)(f.trc[f.cnt]) ==> Goes(g, ops, Hit(t), start, f, first, SIGNONE))
  }

  lemma SignalledPass(g: Guard, ops: Ops<Cpu, Retired>, t: Tables, m: Machine<Cpu, Retired>, first: nat)
    requires m.Inv() && first != SIGNONE
    ensures Passes(g, ops, t, m, m, TimeTravel.ForwardStep(g, ops, m), first, first)
  {
    if !m.Waits() {
      ForwardShape(g, ops, m);
      assert Straight(g, ops, m, 0) == m;
      assert Straight(g, ops, m, 1) == TimeTravel.ForwardStep(g, ops, m);
    }
  }

  lemma WaitingPass(g: Guard, ops: Ops<Cpu, Retired>, t: Tables, start: Machine<Cpu, Retired>, m: Machine<Cpu, Retired>)
    requires start.Inv() && m.Inv() && Continuing(g, ops, Hit(t), start, m) && m.Waits()
    ensures Ended(g, ops, t, start, m, SIGNONE, SIGNONE, Waiting)
  {
    ContinueFollows(g, ops, Hit(t), m);
  }

  lemma MovingPass(g: Guard, ops: Ops<Cpu, Retired>, t: Tables, start: Machine<Cpu, Retired>,
                   f: Machine<Cpu, Retired>, sig: nat, o: Outcome)
    requires start.Inv() && f.Inv() && o != Waiting
    requires start.trc <= f.trc && start.cnt < f.cnt && SteppedOn(g, ops, start, f)
    requires Clear(Hit(t), f.trc, start.cnt, f.cnt)
    requires if o == Interrupted then sig == SIGINT
             else f == ContinueRun(g, ops, Hit(t), start) && sig == SignalOf(t, f.trc[f.cnt])
    ensures Ended(g, ops, t, start, f, SIGNONE, sig, o)
  {
  }

  lemma UnsignalledPass(g: Guard, ops: Ops<Cpu, Retired>, t: Tables, start: Machine<Cpu, Retired>,
                        m: Machine<Cpu, Retired>, f: Machine<Cpu, Retired>)
    requires start.Inv() && m.Inv() && f.Inv() && !m.Waits() && Onward(g, ops, Hit(t), start, m, f)
    ensures Passes(g, ops, t, start, m, f, SIGNONE, SIGNONE)
  {
    MovingPass(g, ops, t, start, f, SIGINT, Interrupted);
    if Hit(t)(f.trc[f.cnt]) {
      MovingPass(g, ops, t, start, f, SignalOf(t, f.trc[f.cnt]), Signalled);
    }
  }

  lemma GoesOn(g: Guard, ops: Ops<Cpu, Retired>, t: Tables,
               start: Machine<Cpu, Retired>, m: Machine<Cpu, Retired>, first: nat, sig: nat)
    requires start.Inv() && m.Inv() && Goes(g, ops, Hit(t), start, m, first, sig)
    ensures Passes(g, ops, t, start, m, TimeTravel.ForwardStep(g, ops, m), first, sig)
  {
    if first == SIGNONE {
      if m.Waits() {
        WaitingPass(g, ops, t, start, m);
      } else {
        ContinueIteration(g, ops, Hit(t), start, m);
        UnsignalledPass(g, ops, t, start, m, TimeTravel.ForwardStep(g, ops, m));
      }
    } else {
      SignalledPass(g, ops, t, m, first);
    }
  }

  lemma BackwardFields(ops: Ops<Cpu, Retired>, mmap: seq<Block>, m: Machine<Cpu, Retired>)
    requires m.Inv() && m.cnt > 0 && Agrees(ops, mmap)
    ensures TimeTravel.BackwardStep(ops, m) ==
            Machine(Revert(mmap, m.cpu, m.trc[m.cnt - 1]), m.cnt - 1, m.trc, m.dut)
  {
    assert AgreesAt(ops, mmap, m.cpu, m.trc[m.cnt - 1]);
  }

  /** The fields a forward step leaves make up the machine's forward step. */
  lemma ForwardFields(g: Guard, ops: Ops<Cpu, Retired>, mmap: seq<Block>, m: Machine<Cpu, Retired>,
                      cpu: Cpu, trc: seq<Retired>, pushed: seq<Retired>, dut: seq<Retired>)
    requires m.Inv() && !m.Waits() && Agrees(ops, mmap)
    requires var appended := m.cnt == |m.trc| - 1;
             && pushed == (if appended then m.trc + [m.dut[0]] else m.trc)
             && dut == (if appended then m.dut[1..] else m.dut)
             && Moves(g, mmap, m.cpu, m.cnt, pushed, appended, cpu, trc)
    ensures TimeTravel.ForwardStep(g, ops, m) == Machine(cpu, m.cnt + 1, trc, dut)
  {
    AdvanceField(ops, mmap, m);
    assert m.cnt >= 0 ==> pushed[m.cnt] == m.trc[m.cnt];
    EnteredFields(g, ops, mmap, Advance(ops, m), m.cnt + 1, pushed, m.cnt == |m.trc| - 1, cpu, trc);
    StepFields(g, ops, m, cpu, trc, pushed, dut);
  }

  lemma EnteredFields(g: Guard, ops: Ops<Cpu, Retired>, mmap: seq<Block>, a: Cpu, cnt: nat, trc: seq<Retired>,
                      appended: bool, after: Cpu, trace: seq<Retired>)
    requires cnt < |trc| && Agrees(ops, mmap) && Entered(g, mmap, a, cnt, trc, appended, after, trace)
    ensures var u := ops.update(a, trc[cnt]);
            if Records(g, cnt, |trc|, appended) then after == u && trace == trc[cnt := ops.record(u, trc[cnt])]
            else after == (if g == AsDocumented then u else a) && trace == trc
  {
    assert AgreesAt(ops, mmap, a, trc[cnt]);
    assert AgreesAt(ops, mmap, after, trc[cnt]);
  }

  lemma AdvanceField(ops: Ops<Cpu, Retired>, mmap: seq<Block>, m: Machine<Cpu, Retired>)
    requires m.Inv() && Agrees(ops, mmap)
    ensures Advance(ops, m) == if m.cnt == -1 then m.cpu else Replay(mmap, m.cpu, m.trc[m.cnt])
  {
    assert m.cnt >= 0 ==> AgreesAt(ops, mmap, m.cpu, m.trc[m.cnt]);
  }

  lemma StepFields<S, E>(g: Guard, ops: Ops<S, E>, m: Machine<S, E>, cpu: S, trc: seq<E>, pushed: seq<E>, dut: seq<E>)
    requires m.Inv() && !m.Waits()
    requires var appended := m.cnt == |m.trc| - 1;
             && pushed == (if appended then m.trc + [m.dut[0]] else m.trc)
             && dut == (if appended then m.dut[1..] else m.dut)
             && var u := ops.update(Advance(ops, m), pushed[m.cnt + 1]);
                if Records(g, m.cnt + 1, |pushed|, appended) then
                  cpu == u && trc == pushed[m.cnt + 1 := ops.record(u, pushed[m.cnt + 1])]
                else
                  cpu == (if g == AsDocumented then u else Advance(ops, m)) && trc == pushed
    ensures TimeTravel.ForwardStep(g, ops, m) == Machine(cpu, m.cnt + 1, trc, dut)
  {
  }
}
