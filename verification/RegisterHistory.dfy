/**
 What the debugger is shown in the register file and the PC, told from the DUT's instructions alone.
 */
module RegisterHistory {
  import opened Wrappers
  import opened MemoryMap
  import opened ShadowState
  import opened Effects
  import opened TimeTravel
  import opened Exactness
  import opened ShadowHistory

  /** The register changes of the first `k` instructions, in order. */
  function Changes(dut: seq<Retired>, k: nat): seq<RegChange>
    requires k <= |dut|
  {
    if k == 0 then [] else Changes(dut, k - 1) + dut[k - 1].gpr
  }

  lemma OverwrittenByNone(regs: seq<nat>)
    ensures Overwritten(regs, regs, [], false)
  {
  }

  /** The operation on instruction `d` treats the register file as it should: replay writes it, update does not. */
  ghost predicate FollowsAt(ops: Ops<Cpu, Retired>, s: Cpu, d: Retired) {
    Overwritten(s.gpr, ops.replay(s, d).gpr, d.gpr, false) && ops.update(s, d).gpr == s.gpr
  }

  ghost predicate Follows(ops: Ops<Cpu, Retired>) {
    forall s, d :: FollowsAt(ops, s, d)
  }

  lemma ShadowFollows(mmap: seq<Block>)
    ensures Follows(ShadowOps(mmap))
  {
    forall s, d ensures FollowsAt(ShadowOps(mmap), s, d) {
      ReplayEffect(mmap, s, d);
      var _ := UpdateEffect(mmap, s, d);
    }
  }

  /** First shown at position `k`: the register file after the first `k` instructions. */
  lemma {:induction false} VisitedRegisters(g: Guard, ops: Ops<Cpu, Retired>, s: Cpu, dut: seq<Retired>, k: nat)
    requires Follows(ops) && k < |dut|
    ensures Overwritten(s.gpr, Visited(g, ops, s, dut, k).gpr, Changes(dut, k), false)
  {
    if k == 0 {
      OverwrittenByNone(s.gpr);
      assert FollowsAt(ops, s, dut[0]);
    } else {
      var v := Visited(g, ops, s, dut, k - 1);
      var a := ops.replay(v, dut[k - 1]);
      VisitedRegisters(g, ops, s, dut, k - 1);
      assert FollowsAt(ops, v, dut[k - 1]);
      assert FollowsAt(ops, a, dut[k]);
      OverwrittenTwice(s.gpr, v.gpr, a.gpr, Changes(dut, k - 1), dut[k - 1].gpr, false);
    }
  }

  /** `n + 1` forward steps show the register file after the first `n` instructions, under any guard. */
  lemma StraightShowsRegisters(g: Guard, mmap: seq<Block>, m: Machine<Cpu, Retired>, n: nat)
    requires IsStart(m) && n < |m.dut|
    ensures var r := Straight(g, ShadowOps(mmap), m, n + 1);
            r.cnt == n && Overwritten(m.cpu.gpr, r.cpu.gpr, Changes(m.dut, n), false)
  {
    ShadowReplaysFaithfully(mmap);
    ShadowFollows(mmap);
    StraightIsVisited(g, ShadowOps(mmap), m, n);
    VisitedRegisters(g, ShadowOps(mmap), m.cpu, m.dut, n);
  }

  lemma SameRegisterViews(s: Cpu, t: Cpu)
    requires forall i: nat :: View(GprLoc(i))(s) == View(GprLoc(i))(t)
    ensures s.gpr == t.gpr
  {
    assert View(GprLoc(|s.gpr|))(s) == View(GprLoc(|s.gpr|))(t);
    assert View(GprLoc(|t.gpr|))(s) == View(GprLoc(|t.gpr|))(t);
    forall i | 0 <= i < |s.gpr| && i < |t.gpr| ensures s.gpr[i] == t.gpr[i] {
      assert View(GprLoc(i))(s) == View(GprLoc(i))(t);
    }
  }

  /** A run shows at its position the register of the straight run. */
  ghost predicate ShowsStraight(g: Guard, ops: Ops<Cpu, Retired>, m: Machine<Cpu, Retired>, steps: seq<Step>, i: nat)
    requires IsStart(m)
  {
    var r := Run(g, ops, m, steps);
    r.cnt >= 0 ==>
      r.cnt < |m.dut| && View(GprLoc(i))(r.cpu) == View(GprLoc(i))(Straight(g, ops, m, r.cnt + 1).cpu)
  }

  /** All runs agree on register `i`. */
  ghost predicate Agreed(g: Guard, ops: Ops<Cpu, Retired>, m: Machine<Cpu, Retired>, i: nat)
    requires IsStart(m)
  {
    ExactIn(g, ops, View(GprLoc(i)), m)
  }

  lemma RegisterIsStraight(g: Guard, ops: Ops<Cpu, Retired>, m: Machine<Cpu, Retired>, steps: seq<Step>, i: nat)
    requires IsStart(m) && Agreed(g, ops, m, i)
    ensures ShowsStraight(g, ops, m, steps, i)
  {
    ExactIsStraight(g, ops, View(GprLoc(i)), m, steps);
  }

  lemma RegistersAreStraight(g: Guard, ops: Ops<Cpu, Retired>, m: Machine<Cpu, Retired>, steps: seq<Step>)
    requires IsStart(m) && forall i: nat :: ShowsStraight(g, ops, m, steps, i)
    ensures var r := Run(g, ops, m, steps);
            r.cnt >= 0 ==> r.cnt < |m.dut| && r.cpu.gpr == Straight(g, ops, m, r.cnt + 1).cpu.gpr
  {
    var r := Run(g, ops, m, steps);
    assert ShowsStraight(g, ops, m, steps, 0);
    if r.cnt >= 0 {
      var w := Straight(g, ops, m, r.cnt + 1);
      forall i: nat ensures View(GprLoc(i))(r.cpu) == View(GprLoc(i))(w.cpu) {
        assert ShowsStraight(g, ops, m, steps, i);
      }
      SameRegisterViews(r.cpu, w.cpu);
    }
  }

  lemma RegistersShown(g: Guard, ops: Ops<Cpu, Retired>, m: Machine<Cpu, Retired>, steps: seq<Step>)
    requires IsStart(m) && ReplaysFaithfully(ops) && Follows(ops)
    requires forall i: nat :: Agreed(g, ops, m, i)
    ensures var r := Run(g, ops, m, steps);
            r.cnt >= 0 ==> r.cnt < |m.dut| && Overwritten(m.cpu.gpr, r.cpu.gpr, Changes(m.dut, r.cnt), false)
  {
    var n := Run(g, ops, m, steps).cnt;
    forall i: nat ensures ShowsStraight(g, ops, m, steps, i) {
      RegisterIsStraight(g, ops, m, steps, i);
    }
    RegistersAreStraight(g, ops, m, steps);
    if n >= 0 {
      StraightIsVisited(g, ops, m, n);
      VisitedRegisters(g, ops, m.cpu, m.dut, n);
    }
  }

  /**
   `OnAppend` and `AsDocumented`: however a position is reached, forward, backward or again, every general purpose
   register shows the value last written to it by the instructions before that position, or its initial value.
   */
  lemma EveryRunShowsRegisters(g: Guard, mmap: seq<Block>, m: Machine<Cpu, Retired>, steps: seq<Step>)
    requires IsStart(m) && g != AsWritten
    ensures var r := Run(g, ShadowOps(mmap), m, steps);
            r.cnt >= 0 ==> r.cnt < |m.dut| && Overwritten(m.cpu.gpr, r.cpu.gpr, Changes(m.dut, r.cnt), false)
  {
    forall i: nat ensures Agreed(g, ShadowOps(mmap), m, i) {
      GprIsExact(g, mmap, m, i);
    }
    ShadowReplaysFaithfully(mmap);
    ShadowFollows(mmap);
    RegistersShown(g, ShadowOps(mmap), m, steps);
  }

  // ---------- the program counter ----------

  lemma PcListed(mmap: seq<Block>, s: Cpu, d: Retired)
    ensures Last(UpdateLog(mmap, d), PcLoc) == Some(Word(d.ifu.adr))
    ensures Last(ReplayLog(mmap, d), PcLoc).Some?
  {
    UpdateSetsPc(mmap, s, d);
    UpdateLists(mmap, d, PcLoc);
    ApplyGet(s, UpdateLog(mmap, d), PcLoc);
    assert ReplayLog(mmap, d)[0].Loc() == PcLoc;
    LastIsListed(ReplayLog(mmap, d), PcLoc);
  }

  lemma PcReverts(g: Guard, mmap: seq<Block>, m: Machine<Cpu, Retired>)
    requires g != AsWritten
    ensures Reverts(g, mmap, m, PcLoc)
  {
    forall k: nat | k + 1 < |m.dut| ensures CanRevertAt(g, mmap, m, k, PcLoc) {
      PcListed(mmap, m.cpu, m.dut[k]);
    }
  }

  ghost predicate SetsPcAt(ops: Ops<Cpu, Retired>, s: Cpu, d: Retired) {
    ops.update(s, d).pc == d.ifu.adr
  }

  /** Where all runs agree on the PC, it is the address of the instruction at each position. */
  lemma PcShown(g: Guard, ops: Ops<Cpu, Retired>, m: Machine<Cpu, Retired>, steps: seq<Step>)
    requires IsStart(m) && g != AsWritten && ReplaysFaithfully(ops) && ExactIn(g, ops, View(PcLoc), m)
    requires forall s, d :: SetsPcAt(ops, s, d)
    ensures var r := Run(g, ops, m, steps);
            r.cnt >= 0 ==> r.cnt < |m.dut| && r.cpu.pc == m.dut[r.cnt].ifu.adr
  {
    var n := Run(g, ops, m, steps).cnt;
    ExactIsStraight(g, ops, View(PcLoc), m, steps);
    if n >= 0 {
      StraightIsVisited(g, ops, m, n);
      assert SetsPcAt(ops, if n == 0 then m.cpu else ops.replay(Visited(g, ops, m.cpu, m.dut, n - 1), m.dut[n - 1]),
                      m.dut[n]);
    }
  }

  /** `AsDocumented`: at every position of every run the PC is the address of the instruction there. */
  lemma EveryRunShowsPc(mmap: seq<Block>, m: Machine<Cpu, Retired>, steps: seq<Step>)
    requires IsStart(m)
    ensures var r := Run(AsDocumented, ShadowOps(mmap), m, steps);
            r.cnt >= 0 ==> r.cnt < |m.dut| && r.cpu.pc == m.dut[r.cnt].ifu.adr
  {
    PcIsExact(mmap, m);
    ShadowReplaysFaithfully(mmap);
    forall s, d ensures SetsPcAt(ShadowOps(mmap), s, d) {
      UpdateSetsPc(mmap, s, d);
    }
    PcShown(AsDocumented, ShadowOps(mmap), m, steps);
  }

  lemma PcIsExact(mmap: seq<Block>, m: Machine<Cpu, Retired>)
    requires IsStart(m)
    ensures ExactIn(AsDocumented, ShadowOps(mmap), View(PcLoc), m)
  {
    PcReverts(AsDocumented, mmap, m);
    LocationBacksIff(AsDocumented, mmap, m, PcLoc);
    DocumentedReplayIsExact(mmap, m, PcLoc);
  }

  /**
   `OnAppend`: the PC shown at a position depends on how it was reached, unless each instruction is fetched from
   where the one before it said the next would be.
   */
  lemma OnAppendPcIsExactIff(mmap: seq<Block>, m: Machine<Cpu, Retired>)
    requires IsStart(m)
    ensures ExactIn(OnAppend, ShadowOps(mmap), View(PcLoc), m) <==>
            forall k :: 0 <= k && k + 1 < |m.dut| ==> m.dut[k + 1].ifu.adr == m.dut[k].ifu.pcn
  {
    PcReverts(OnAppend, mmap, m);
    LocationExactIff(OnAppend, mmap, m, PcLoc);
    forall k: nat | k + 1 < |m.dut|
      ensures CanReenterAt(OnAppend, mmap, m, k, PcLoc) <==> m.dut[k + 1].ifu.adr == m.dut[k].ifu.pcn
    {
      PcReentersIff(mmap, Shown(OnAppend, mmap, m, k), m.dut[k], m.dut[k + 1]);
    }
  }

  lemma PcReentersIff(mmap: seq<Block>, v: Cpu, d: Retired, next: Retired)
    ensures CanReenter(OnAppend, mmap, v, d, next, PcLoc) <==> next.ifu.adr == d.ifu.pcn
  {
    PcListed(mmap, v, next);
    ReplayEffect(mmap, v, d);
  }
}
