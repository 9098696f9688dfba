/**
 DUT streams that tell the promises and the guards apart.

 The CPU has two registers and sixteen bytes of memory holding four no-operations; address 256 is a device
 register outside every memory block. A store reports no read data, so an update from it clears the device
 register in the shadow.
 */
module Streams {
  import opened Wrappers
  import opened MemoryMap
  import opened ShadowState
  import opened TimeTravel
  import opened Exactness
  import opened ShadowHistory

  const Ram: seq<Block> := [Block(0, 16)]
  const Device: Size := 256
  const Code: seq<Byte> := [0x13, 0, 0, 0]

  const Reset: Cpu := Cpu([0, 5], 0, [], [Code + Code + Code + Code], map[])

  function Plain(pc: nat, changes: seq<RegChange>): Retired {
    Retired(Fetch(pc, pc + 4, Code, false), changes, [], Access(0, [], []))
  }

  function DeviceStore(pc: nat, b: Byte): Retired {
    Retired(Fetch(pc, pc + 4, Code, false), [], [], Access(Device, [], [b]))
  }

  lemma Decoded(pc: nat)
    requires pc < 16
    ensures Decode(Ram, ToSize(pc)) == Some(Cell(0, pc)) && Decode(Ram, ToSize(Device)) == None
  {
  }

  /** An update with what the shadow holds already changes nothing. */
  lemma UpdateEchoes(mmap: seq<Block>, s: Cpu, d: Retired)
    requires d.ifu.adr == s.pc && d.csr == []
    requires d.ifu.rdt == Load(mmap, s, d.ifu.adr, |d.ifu.rdt|)
    requires d.lsu.rdt == Load(mmap, s, d.lsu.adr, |d.lsu.rdt|)
    ensures Settled(s, UpdateLog(mmap, d)) && Update(mmap, s, d) == s
  {
    var a, b := StoreLog(mmap, d.ifu.adr, d.ifu.rdt), StoreLog(mmap, d.lsu.adr, d.lsu.rdt);
    LoadEchoes(mmap, s, d.ifu.adr, |d.ifu.rdt|);
    LoadEchoes(mmap, s, d.lsu.adr, |d.lsu.rdt|);
    var pc := [SetPc(s.pc)];
    ConcatTargetsAndEchoes(s, a, a, pc, pc);
    ConcatTargetsAndEchoes(s, a + pc, a + pc, b, b);
    assert a + pc + OldLog(false, d.csr) + b == a + pc + b;
    EchoIsSettled(s, UpdateLog(mmap, d));
    ApplyIsIdentityIffSettled(s, UpdateLog(mmap, d));
  }

  lemma FetchedCode(s: Cpu, pc: nat)
    requires pc in {0, 4, 8, 12} && s.mem == Reset.mem
    ensures Load(Ram, s, pc, 4) == Code
  {
    Decoded(pc);
    var block := Code + Code + Code + Code;
    assert Reset.mem[0] == block && block[pc..pc + 4] == Code;
    forall k | 0 <= k < 4 ensures Load(Ram, s, pc, 4)[k] == Code[k] {
      assert s.mem[0] == block && pc + k < 16;
      assert Load(Ram, s, pc, 4)[k] == ByteOf(s, 0, pc + k);
    }
  }

  lemma StoreReplays(s: Cpu, pc: nat, b: Byte)
    ensures Replay(Ram, s, DeviceStore(pc, b)) == s.(pc := pc + 4, io := s.io[Device := [b]])
  {
    Decoded(0);
    var t := Set(s, SetPc(pc + 4));
    ChainOf(s, SetPc(pc + 4), [], [], [SetIo(Device, [b])]);
    ApplyOne(t, SetIo(Device, [b]));
  }

  // ---------- stepping back fails ----------

  /** Two stores to the device with an unrelated instruction between them. */
  const Spaced: seq<Retired> := [DeviceStore(0, 1), Plain(4, []), DeviceStore(8, 2)]

  /** The device register between the stores. */
  lemma SpacedShown(g: Guard)
    requires g != AsWritten
    ensures Get(Shown(g, Ram, Machine(Reset, -1, [], Spaced), 1), IoLoc(Device)) == Bytes([1])
  {
    var m, l := Machine(Reset, -1, [], Spaced), IoLoc(Device);
    var v := Shown(g, Ram, m, 0);
    Decoded(0);
    Decoded(4);
    ApplyGet(v, ReplayLog(Ram, Spaced[0]), l);
    LastIsListed(UpdateLog(Ram, Spaced[1]), l);
    ApplyGet(Replay(Ram, v, Spaced[0]), UpdateLog(Ram, Spaced[1]), l);
  }

  /** Stepping back over the unrelated instruction does not bring back what the device register held. */
  lemma SteppingBackCanFail(g: Guard)
    requires g != AsWritten
    ensures !Backs(g, ShadowOps(Ram), Machine(Reset, -1, [], Spaced))
  {
    var m, l := Machine(Reset, -1, [], Spaced), IoLoc(Device);
    ShadowBacksIff(g, Ram, m);
    SpacedShown(g);
    Decoded(0);
    Decoded(4);
    Decoded(8);
    LastIsListed(ReplayLog(Ram, Spaced[1]), l);
    assert !CanRevert(g, Ram, Shown(g, Ram, m, 1), Spaced[1], Spaced[2], l);
    assert !RevertsAt(g, Ram, m, 1);
  }

  // ---------- stepping back works, moving forward again does not ----------

  /** Two stores to the device, one right after the other. */
  const Adjacent: seq<Retired> := [DeviceStore(0, 1), DeviceStore(4, 2)]

  lemma AdjacentShown(g: Guard)
    ensures Shown(g, Ram, Machine(Reset, -1, [], Adjacent), 0) == Reset
  {
    FetchedCode(Reset, 0);
    Decoded(0);
    UpdateEchoes(Ram, Reset, Adjacent[0]);
  }

  /** After the first store only the device register differs from what the second one reports. */
  lemma AdjacentListed(l: Loc)
    ensures var a := Replay(Ram, Reset, Adjacent[0]);
            var listed := Last(UpdateLog(Ram, Adjacent[1]), l);
            Has(a, l) && listed.Some? && listed.value != Get(a, l) ==> l == IoLoc(Device)
  {
    var a := Replay(Ram, Reset, Adjacent[0]);
    Decoded(0);
    StoreReplays(Reset, 0, 1);
    var d := Adjacent[1].(lsu := Access(Device, [1], [2]));
    FetchedCode(a, 4);
    UpdateEchoes(Ram, a, d);
  }

  lemma AdjacentReverts(g: Guard)
    requires g != AsWritten
    ensures CanRevertAll(g, Ram, Reset, Adjacent[0], Adjacent[1])
  {
    Decoded(0);
    forall l ensures CanRevert(g, Ram, Reset, Adjacent[0], Adjacent[1], l) {
      if Has(Reset, l) {
        AdjacentListed(l);
        AdjacentReplayed(l);
      }
    }
  }

  /** The first store writes the PC and the device register, and nothing else. */
  lemma AdjacentReplayed(l: Loc)
    requires Has(Reset, l)
    ensures var a := Replay(Ram, Reset, Adjacent[0]);
            && Has(a, l)
            && if l == PcLoc || l == IoLoc(Device) then Last(ReplayLog(Ram, Adjacent[0]), l).Some?
               else Get(a, l) == Get(Reset, l)
  {
    Decoded(0);
    StoreReplays(Reset, 0, 1);
    var log := ReplayLog(Ram, Adjacent[0]);
    assert log[0].Loc() == PcLoc && log[1].Loc() == IoLoc(Device);
    LastIsListed(log, l);
  }

  lemma AdjacentReenters()
    ensures !CanReenterAll(OnAppend, Ram, Reset, Adjacent[0], Adjacent[1])
    ensures CanReenterAll(AsDocumented, Ram, Reset, Adjacent[0], Adjacent[1])
  {
    Decoded(0);
    StoreReplays(Reset, 0, 1);
    assert !CanReenter(OnAppend, Ram, Reset, Adjacent[0], Adjacent[1], IoLoc(Device));
    forall l ensures CanReenter(AsDocumented, Ram, Reset, Adjacent[0], Adjacent[1], l) {
      AdjacentListed(l);
    }
  }

  /** The two conditions at the only step of the stream. */
  lemma AdjacentAt(g: Guard)
    requires g != AsWritten
    ensures var m := Machine(Reset, -1, [], Adjacent);
            && RevertsAt(g, Ram, m, 0)
            && (ReentersAt(g, Ram, m, 0) <==> g == AsDocumented)
  {
    AdjacentShown(g);
    AdjacentReverts(g);
    AdjacentReenters();
  }

  /**
   On adjacent stores stepping back is exact with the guard repaired, but moving forward again is not: the
   replayed position shows the first store's value, the first visit showed it cleared. The documented update
   on replay makes every revisit exact.
   */
  lemma MovingForwardAgainCanFail()
    ensures var m := Machine(Reset, -1, [], Adjacent);
            && Backs(OnAppend, ShadowOps(Ram), m)
            && !Exact(OnAppend, ShadowOps(Ram), m)
            && Exact(AsDocumented, ShadowOps(Ram), m)
  {
    var m := Machine(Reset, -1, [], Adjacent);
    AdjacentAt(OnAppend);
    AdjacentAt(AsDocumented);
    ShadowBacksIff(OnAppend, Ram, m);
    ShadowExactIff(OnAppend, Ram, m);
    ShadowExactIff(AsDocumented, Ram, m);
  }

  // ---------- the documented update on replay is not always enough ----------

  function MemoryAccess(pc: nat, rdt: seq<Byte>, wdt: seq<Byte>): Retired {
    Retired(Fetch(pc, pc + 4, Code, false), [], [], Access(12, rdt, wdt))
  }

  /** A store to memory, and a load that reads something else there. */
  const Reread: seq<Retired> := [MemoryAccess(0, [], [7]), MemoryAccess(4, [1], [])]

  /** What the load lists for its byte, and that the entry recorded for it lists nothing there. */
  lemma RereadListed(v: Cpu)
    requires |v.mem| == 1 && |v.mem[0]| == 16
    ensures var a := Replay(Ram, v, Reread[0]);
            var w := Update(Ram, a, Reread[1]);
            var l := MemLoc(0, 12);
            && Has(v, l) && Has(a, l) && Get(a, l) == Word(7)
            && Last(ReplayLog(Ram, Reread[0]), l).Some?
            && Last(UpdateLog(Ram, Reread[1]), l) == Some(Word(1))
            && Last(UpdateLog(Ram, Record(Ram, w, Reread[1])), l).None?
  {
    var a, l := Replay(Ram, v, Reread[0]), MemLoc(0, 12);
    var w := Update(Ram, a, Reread[1]);
    var e := Record(Ram, w, Reread[1]);
    Decoded(4);
    Decoded(12);
    ApplyGet(v, ReplayLog(Ram, Reread[0]), l);
    UpdateSetsPc(Ram, a, Reread[1]);
    assert e.ifu.adr == 4 && |e.ifu.rdt| == 4 && e.lsu == Access(12, [], []) && e.csr == [];
    LastIsListed(UpdateLog(Ram, e), l);
  }

  /** The byte comes back when stepping back; moving forward again shows the stored value, not the loaded one. */
  lemma DocumentedReplayCanFail()
    ensures var m, l := Machine(Reset, -1, [], Reread), MemLoc(0, 12);
            && BacksIn(AsDocumented, ShadowOps(Ram), View(l), m)
            && !ExactIn(AsDocumented, ShadowOps(Ram), View(l), m)
  {
    var m, l := Machine(Reset, -1, [], Reread), MemLoc(0, 12);
    var v := Shown(AsDocumented, Ram, m, 0);
    ApplyGet(Reset, UpdateLog(Ram, Reread[0]), l);
    RereadListed(v);
    LocationBacksIff(AsDocumented, Ram, m, l);
    LocationExactIff(AsDocumented, Ram, m, l);
    assert CanRevertAt(AsDocumented, Ram, m, 0, l);
    assert !CanReenterAt(AsDocumented, Ram, m, 0, l);
  }

  // ---------- the code as written ----------

  /** One instruction that writes register 1 and does not report that it held 5, then another. */
  const Unreported: seq<Retired> := [Plain(0, [RegChange(1, 0, 7)]), Plain(4, [])]

  /** The register comes back with a value it never had, under the code as written. */
  lemma WrittenCanFail()
    ensures !Backs(AsWritten, ShadowOps(Ram), Machine(Reset, -1, [], Unreported))
    ensures !Exact(AsWritten, ShadowOps(Ram), Machine(Reset, -1, [], Unreported))
  {
    var m, d := Machine(Reset, -1, [], Unreported), Unreported[0];
    WrittenIsExactIffReversible(Ram, m);
    Decoded(0);
    var log := ReplayLog(Ram, d) + RevertLog(Ram, d);
    assert log[|log| - 1] == SetGpr(1, 0);
    assert Last(log, GprLoc(1)) == Some(Word(0));
    assert !ReversibleAt(Ram, m, 0);
  }
}
