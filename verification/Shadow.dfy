/**
 The shadow object: the fields of the SystemVerilog class `gdb_shadow` and the methods that change them in
 place, each tied to the value-level meaning of module ShadowState.
 */
module Shadow {
  import opened Wrappers
  import opened MemoryMap
  import opened ShadowState
  import opened Points
  import opened TimeTravel

  /** Drop the empty entries of an I/O dictionary: they read like absent ones. */
  ghost function Nonempty(m: map<Size, seq<Byte>>): Io {
    map a | a in m && m[a] != [] :: m[a]
  }

  /** Register indices exist, and mapped accesses stay inside the block they start in. */
  predicate WellFormed(mmap: seq<Block>, gprn: nat, csrn: nat, r: Retired) {
    && (forall i :: 0 <= i < |r.gpr| ==> r.gpr[i].idx < gprn)
    && (forall i :: 0 <= i < |r.csr| ==> r.csr[i].idx < csrn)
    && Fits(mmap, ToSize(r.ifu.adr), |r.ifu.rdt|)
    && Fits(mmap, ToSize(r.lsu.adr), |r.lsu.rdt|)
    && Fits(mmap, ToSize(r.lsu.adr), |r.lsu.wdt|)
  }

  lemma RecordIsWellFormed(mmap: seq<Block>, gprn: nat, csrn: nat, s: Cpu, r: Retired)
    requires WellFormed(mmap, gprn, csrn, r) && s.pc == r.ifu.adr
    ensures WellFormed(mmap, gprn, csrn, Record(mmap, s, r))
  {
  }

  /** Reading outside the trace queue gives the default entry. */
  function EntryAt(trc: seq<Retired>, i: int): Retired {
    if 0 <= i < |trc| then trc[i] else Retired(Fetch(0, 0, [], false), [], [], Access(0, [], []))
  }

  /**
   Entering position `cnt` of `trc` turns `cpu` and `trc` into `after` and `trace`: the entry updates the shadow
   and is recorded as the guard says.
   */
  ghost predicate Entered(g: Guard, mmap: seq<Block>, cpu: Cpu, cnt: nat, trc: seq<Retired>, appended: bool,
                          after: Cpu, trace: seq<Retired>)
    requires cnt < |trc|
  {
    if Records(g, cnt, |trc|, appended) then
      && after == Update(mmap, cpu, trc[cnt])
      && trace == trc[cnt := Record(mmap, after, trc[cnt])]
    else
      && after == (if g == AsDocumented then Update(mmap, cpu, trc[cnt]) else cpu)
      && trace == trc
  }

  /** Moving forward from position `cnt`: the entry left is replayed, the next one entered. */
  ghost predicate Moves(g: Guard, mmap: seq<Block>, cpu: Cpu, cnt: int, trc: seq<Retired>, appended: bool,
                        after: Cpu, trace: seq<Retired>)
    requires -1 <= cnt && cnt + 1 < |trc|
  {
    var a := if cnt == -1 then cpu else Replay(mmap, cpu, trc[cnt]);
    Entered(g, mmap, a, cnt + 1, trc, appended, after, trace)
  }

  lemma Extend(s: Cpu, log: seq<Write>, w: Write)
    ensures Apply(s, log + [w]) == Set(Apply(s, log), w)
  {
    assert (log + [w])[..|log|] == log;
  }

  function Spliced(m: seq<Byte>, off: nat, dat: seq<Byte>): seq<Byte>
    requires off + |dat| <= |m|
  {
    m[..off] + dat + m[off + |dat|..]
  }

  lemma SplicedExtends(m: seq<Byte>, off: nat, dat: seq<Byte>, b: Byte)
    requires off + |dat| + 1 <= |m|
    ensures Spliced(m, off, dat)[off + |dat| := b] == Spliced(m, off, dat + [b])
  {
  }

  lemma {:induction false} SpliceIsLog(s: Cpu, c: Cell, dat: seq<Byte>)
    requires c.blk < |s.mem| && c.off + |dat| <= |s.mem[c.blk]|
    ensures Apply(s, ByteLog(c, dat)) == s.(mem := s.mem[c.blk := Spliced(s.mem[c.blk], c.off, dat)])
    decreases |dat|
  {
    var m := s.mem[c.blk];
    if dat == [] {
      assert Spliced(m, c.off, dat) == m;
      assert s.mem[c.blk := m] == s.mem;
    } else {
      var n := |dat| - 1;
      var d, b := dat[..n], dat[n];
      assert dat == d + [b];
      SpliceIsLog(s, c, d);
      ByteLogExtends(c, d, b);
      Extend(s, ByteLog(c, d), SetByte(c.blk, c.off + n, b));
      SplicedExtends(m, c.off, d, b);
    }
  }

  /** Writing a slice of a block in one go is storing its bytes one by one. */
  lemma StoreIsSplice(mmap: seq<Block>, s: Cpu, adr: nat, dat: seq<Byte>)
    requires LaidOut(mmap, s) && Fits(mmap, ToSize(adr), |dat|)
    requires Decode(mmap, ToSize(adr)).Some?
    ensures var c := Decode(mmap, ToSize(adr)).value;
            Apply(s, StoreLog(mmap, adr, dat)) == s.(mem := s.mem[c.blk := Spliced(s.mem[c.blk], c.off, dat)])
  {
    SpliceIsLog(s, Decode(mmap, ToSize(adr)).value, dat);
  }

  lemma StoreIsIoPut(mmap: seq<Block>, s: Cpu, adr: nat, dat: seq<Byte>)
    requires Decode(mmap, ToSize(adr)).None?
    ensures Apply(s, StoreLog(mmap, adr, dat)) == s.(io := IoPut(s.io, ToSize(adr), dat))
  {
    Extend(s, [], SetIo(ToSize(adr), dat));
  }

  lemma SliceIsLoad(mmap: seq<Block>, s: Cpu, adr: nat, siz: nat)
    requires LaidOut(mmap, s) && Fits(mmap, ToSize(adr), siz)
    requires Decode(mmap, ToSize(adr)).Some?
    ensures var c := Decode(mmap, ToSize(adr)).value;
            s.mem[c.blk][c.off..c.off + siz] == Load(mmap, s, adr, siz)
  {
    var c := Decode(mmap, ToSize(adr)).value;
    var dat := Load(mmap, s, adr, siz);
    forall k | 0 <= k < siz ensures s.mem[c.blk][c.off..c.off + siz][k] == dat[k] {
      assert dat[k] == ByteOf(s, c.blk, c.off + k);
    }
  }

  lemma IoPutIsNonempty(m: map<Size, seq<Byte>>, a: Size, d: seq<Byte>)
    ensures Nonempty(m[a := d]) == IoPut(Nonempty(m), a, d)
  {
  }

  class GdbShadow {
    const mmap: seq<Block>
    const guard: Guard

    const gpr: array<nat>
    const csr: array<nat>
    const mem: array<seq<Byte>>
    var pc: nat
    var i_o: map<Size, seq<Byte>>

    var cnt: int
    var trc: seq<Retired>
    var ret: Option<Retired>

    var sig: nat
    var rsn: Point
    var bpt: map<Size, Point>
    var wpt: map<Size, Point>

    ghost predicate Valid()
      reads this, mem
    {
      && gpr != csr
      && mem.Length == |mmap|
      && (forall b :: 0 <= b < |mmap| ==> |mem[b]| == mmap[b].size)
      && (forall i {:trigger WellFormed(mmap, gpr.Length, csr.Length, trc[i])} ::
            0 <= i < |trc| ==> WellFormed(mmap, gpr.Length, csr.Length, trc[i]))
    }

    ghost function View(): Cpu
      reads this, gpr, csr, mem
    {
      Cpu(gpr[..], pc, csr[..], mem[..], Nonempty(i_o))
    }

    ghost function Points(): Tables
      reads this
    {
      Tables(bpt, wpt)
    }

    ghost function Stopped(): Stop
      reads this
    {
      Stop(sig, rsn)
    }

    /** Registers other than x0 start with unknown values; memory blocks start zeroed. */
    constructor (mmap: seq<Block>, guard: Guard, gprn: nat, csrn: nat)
      requires gprn > 0
      ensures Valid() && fresh(gpr) && fresh(csr) && fresh(mem)
      ensures this.mmap == mmap && this.guard == guard && gpr.Length == gprn && csr.Length == csrn
      ensures gpr[0] == 0 && View().io == map[]
      ensures forall b, o :: 0 <= b < |mmap| && 0 <= o < mmap[b].size ==> mem[b][o] == 0
      ensures cnt == -1 && trc == [] && Points() == Tables(map[], map[])
      ensures Stopped() == Stop(SIGTRAP, Point(SWBREAK, 0))
    {
      this.mmap, this.guard := mmap, guard;
      var g := new nat[gprn];
      g[0] := 0;
      var c := new nat[csrn];
      gpr, csr := g, c;
      mem := new seq<Byte>[|mmap|](i requires 0 <= i < |mmap| => seq<Byte>(mmap[i].size, _ => 0));
      i_o, trc, cnt, ret := map[], [], -1, None;
      sig, rsn := SIGTRAP, Point(SWBREAK, 0);
      bpt, wpt := map[], map[];
    }

    // ---------- register access ----------

    /** A register number past the last CSR is ignored. */
    method RegWrite(idx: nat, val: nat)
      requires Valid()
      modifies this`pc, gpr, csr
      ensures Valid()
      ensures View() == Set(old(View()), RegWriteOf(gpr.Length, idx, val))
      ensures idx < gpr.Length ==> gpr[idx] == val
      ensures idx == gpr.Length ==> pc == val
      ensures gpr.Length < idx <= gpr.Length + csr.Length ==> csr[idx - 1 - gpr.Length] == val
    {
      if idx < gpr.Length {
        gpr[idx] := val;
      } else if idx == gpr.Length {
        pc := val;
      } else if idx - 1 - gpr.Length < csr.Length {
        csr[idx - 1 - gpr.Length] := val;
      }
    }

    /** Past the last CSR the value read is unknown. */
    method RegRead(idx: nat) returns (val: nat)
      requires Valid()
      ensures Has(View(), RegLoc(gpr.Length, idx)) ==> Word(val) == Get(View(), RegLoc(gpr.Length, idx))
      ensures idx < gpr.Length ==> val == gpr[idx]
      ensures idx == gpr.Length ==> val == pc
      ensures gpr.Length < idx <= gpr.Length + csr.Length ==> val == csr[idx - 1 - gpr.Length]
    {
      if idx < gpr.Length {
        val := gpr[idx];
      } else if idx == gpr.Length {
        val := pc;
      } else if idx - 1 - gpr.Length < csr.Length {
        val := csr[idx - 1 - gpr.Length];
      } else {
        val := *;
      }
    }

    // ---------- memory access ----------

    method MemRead(adr: nat, siz: nat) returns (dat: seq<Byte>)
      requires Valid() && Fits(mmap, ToSize(adr), siz)
      ensures dat == Load(mmap, View(), adr, siz)
    {
      var a := ToSize(adr);
      for blk := 0 to |mmap|
        invariant Decode(mmap, a) == FindFrom(mmap, a, blk)
      {
        if mmap[blk].base <= a && a < (mmap[blk].base + mmap[blk].size) % ADDRESS_SPACE {
          var off := a - mmap[blk].base;
          dat := mem[blk][off..off + siz];
          SliceIsLoad(mmap, View(), adr, siz);
          return;
        }
      }
      dat := if a in i_o then i_o[a] else [];
    }

    method MemWrite(adr: nat, dat: seq<Byte>)
      requires Valid() && Fits(mmap, ToSize(adr), |dat|)
      modifies this`i_o, mem
      ensures Valid()
      ensures View() == Apply(old(View()), StoreLog(mmap, adr, dat))
    {
      var a := ToSize(adr);
      for blk := 0 to |mmap|
        invariant Decode(mmap, a) == FindFrom(mmap, a, blk)
        invariant mem[..] == old(mem[..]) && i_o == old(i_o)
      {
        if mmap[blk].base <= a && a < (mmap[blk].base + mmap[blk].size) % ADDRESS_SPACE {
          var off := a - mmap[blk].base;
          StoreIsSplice(mmap, View(), adr, dat);
          mem[blk] := Spliced(mem[blk], off, dat);
          assert mem[..] == old(mem[..])[blk := mem[blk]];
          return;
        }
      }
      i_o := i_o[a := dat];
      IoPutIsNonempty(old(i_o), a, dat);
      StoreIsIoPut(mmap, old(View()), adr, dat);
    }

    // ---------- update, record, replay, revert ----------

    method WriteReg(isGpr: bool, idx: nat, val: nat)
      requires gpr != csr && idx < (if isGpr then gpr.Length else csr.Length)
      modifies if isGpr then {gpr} else {csr}
      ensures View() == Set(old(View()), if isGpr then SetGpr(idx, val) else SetCsr(idx, val))
    {
      if isGpr {
        gpr[idx] := val;
      } else {
        csr[idx] := val;
      }
    }

    /** The loop over the register changes of an entry, writing either their old or their new values. */
    method WriteRegs(isGpr: bool, cs: seq<RegChange>, undo: bool)
      requires gpr != csr
      requires forall i :: 0 <= i < |cs| ==> cs[i].idx < (if isGpr then gpr.Length else csr.Length)
      modifies if isGpr then {gpr} else {csr}
      ensures View() == Apply(old(View()), if undo then OldLog(isGpr, cs) else NewLog(isGpr, cs))
    {
      ghost var log := if undo then OldLog(isGpr, cs) else NewLog(isGpr, cs);
      for i := 0 to |cs|
        invariant View() == Apply(old(View()), log[..i])
      {
        WriteReg(isGpr, cs[i].idx, if undo then cs[i].rdt else cs[i].wdt);
        assert log[..i + 1] == log[..i] + [log[i]];
        Extend(old(View()), log[..i], log[i]);
      }
      assert log[..|cs|] == log;
    }

    /** Bring the shadow in line with what the DUT reports the instruction to have read. */
    method Update(r: Retired)
      requires Valid() && WellFormed(mmap, gpr.Length, csr.Length, r)
      modifies this`pc, this`i_o, csr, mem
      ensures Valid()
      ensures View() == ShadowState.Update(mmap, old(View()), r)
    {
      UpdateChain(mmap, View(), r);
      MemWrite(r.ifu.adr, r.ifu.rdt);
      pc := r.ifu.adr;
      WriteRegs(false, r.csr, true);
      MemWrite(r.lsu.adr, r.lsu.rdt);
    }

    /** The register changes with the values the registers hold now as their old values. */
    method RememberRegs(regs: array<nat>, cs: seq<RegChange>) returns (e: seq<RegChange>)
      requires forall i :: 0 <= i < |cs| ==> cs[i].idx < regs.Length
      ensures e == Remember(regs[..], cs)
    {
      e := cs;
      for i := 0 to |cs|
        invariant |e| == |cs|
        invariant forall j :: 0 <= j < i ==> e[j] == cs[j].(rdt := regs[cs[j].idx])
        invariant forall j :: i <= j < |cs| ==> e[j] == cs[j]
      {
        e := e[i := e[i].(rdt := regs[e[i].idx])];
      }
    }

    /** Remember in the entry everything its replay will overwrite. */
    method Record(r: Retired) returns (e: Retired)
      requires Valid() && WellFormed(mmap, gpr.Length, csr.Length, r)
      ensures e == ShadowState.Record(mmap, View(), r)
    {
      var fetched := MemRead(r.ifu.adr, |r.ifu.rdt|);
      e := r.(ifu := r.ifu.(rdt := fetched, adr := pc));
      var g := RememberRegs(gpr, r.gpr);
      var c := RememberRegs(csr, r.csr);
      e := e.(gpr := g, csr := c);
      var loaded := MemRead(r.lsu.adr, |r.lsu.wdt|);
      e := e.(lsu := e.lsu.(rdt := loaded));
    }

    method Replay(r: Retired)
      requires Valid() && WellFormed(mmap, gpr.Length, csr.Length, r)
      modifies this`pc, this`i_o, gpr, csr, mem
      ensures Valid()
      ensures View() == ShadowState.Replay(mmap, old(View()), r)
    {
      ChainOf(View(), SetPc(r.ifu.pcn), NewLog(true, r.gpr), NewLog(false, r.csr),
              StoreLog(mmap, r.lsu.adr, r.lsu.wdt));
      pc := r.ifu.pcn;
      WriteRegs(true, r.gpr, false);
      WriteRegs(false, r.csr, false);
      MemWrite(r.lsu.adr, r.lsu.wdt);
    }

    method Revert(r: Retired)
      requires Valid() && WellFormed(mmap, gpr.Length, csr.Length, r)
      modifies this`pc, this`i_o, gpr, csr, mem
      ensures Valid()
      ensures View() == ShadowState.Revert(mmap, old(View()), r)
    {
      ChainOf(View(), SetPc(r.ifu.adr), OldLog(true, r.gpr), OldLog(false, r.csr),
              StoreLog(mmap, r.lsu.adr, r.lsu.rdt));
      pc := r.ifu.adr;
      WriteRegs(true, r.gpr, true);
      WriteRegs(false, r.csr, true);
      MemWrite(r.lsu.adr, r.lsu.rdt);
    }

    // ---------- forward and backward ----------

    method UpdateAndRecord()
      requires Valid() && 0 <= cnt < |trc|
      modifies this`pc, this`i_o, this`trc, csr, mem
      ensures Valid()
      ensures View() == ShadowState.Update(mmap, old(View()), old(trc)[cnt])
      ensures trc == old(trc)[cnt := ShadowState.Record(mmap, View(), old(trc)[cnt])]
    {
      UpdateSetsPc(mmap, View(), trc[cnt]);
      Update(trc[cnt]);
      RecordIsWellFormed(mmap, gpr.Length, csr.Length, View(), trc[cnt]);
      var e := Record(trc[cnt]);
      trc := trc[cnt := e];
    }

    /** Make the entry at the current position the one shown, and match it against the points. */
    method Match()
      modifies this`ret, this`sig, this`rsn
      ensures ret == Some(EntryAt(trc, cnt)) && Stopped() == Observe(Points(), EntryAt(trc, cnt), old(Stopped()))
    {
      var r := EntryAt(trc, cnt);
      ret := Some(r);
      BreakpointMatch(r);
      WatchpointMatch(r);
    }

    /** Make the entry at the current position take effect as the guard says. */
    method Enter(appended: bool)
      requires Valid() && 0 <= cnt < |trc|
      modifies this`pc, this`i_o, this`trc, csr, mem
      ensures Valid()
      ensures Entered(guard, mmap, old(View()), cnt, old(trc), appended, View(), trc)
    {
      if Records(guard, cnt, |trc|, appended) {
        UpdateAndRecord();
      } else if guard == AsDocumented {
        Update(trc[cnt]);
      }
    }

    /** The shadow's part of moving forward. */
    method Move(appended: bool)
      requires Valid() && -1 <= cnt && cnt + 1 < |trc|
      modifies this`pc, this`i_o, this`cnt, this`trc, gpr, csr, mem
      ensures Valid() && cnt == old(cnt) + 1
      ensures Moves(guard, mmap, old(View()), old(cnt), old(trc), appended, View(), trc)
    {
      if cnt != -1 {
        Replay(trc[cnt]);
      }
      cnt := cnt + 1;
      Enter(appended);
    }

    /** Move one entry forward; `appended` tells that the entry moved to was pushed just before. */
    method Forward(appended: bool)
      requires Valid() && -1 <= cnt && cnt + 1 < |trc|
      modifies this`pc, this`i_o, this`cnt, this`trc, this`ret, this`sig, this`rsn, gpr, csr, mem
      ensures Valid() && cnt == old(cnt) + 1
      ensures Moves(guard, mmap, old(View()), old(cnt), old(trc), appended, View(), trc)
      ensures ret == Some(trc[cnt]) && Stopped() == Observe(Points(), trc[cnt], old(Stopped()))
    {
      Move(appended);
      Match();
    }

    /** Move one entry back. At position 0 nothing is reverted, and the position leaves the trace. */
    method Backward()
      requires Valid() && 0 <= cnt < |trc|
      modifies this`pc, this`i_o, this`cnt, this`ret, this`sig, this`rsn, gpr, csr, mem
      ensures Valid() && cnt == old(cnt) - 1 && ret == Some(EntryAt(trc, cnt))
      ensures View() == if cnt < 0 then old(View()) else ShadowState.Revert(mmap, old(View()), trc[cnt])
      ensures Stopped() == Observe(Points(), EntryAt(trc, cnt), old(Stopped()))
    {
      if cnt != 0 {
        Revert(trc[cnt - 1]);
      }
      cnt := cnt - 1;
      Match();
    }

    // ---------- points ----------

    /** Insert a point; the result is the size of the table it went to. */
    method PointInsert(ptype: nat, addr: Size, pkind: nat) returns (size: Option<nat>)
      modifies this`bpt, this`wpt
      ensures Points() == ApplyEdit(old(Points()), Insert(ptype, addr, pkind))
      ensures size == match FamilyOf(ptype)
                      case None => None
                      case Some(f) => Some(|if f == Breakpoints then bpt else wpt|)
    {
      size := None;
      if ptype == SWBREAK || ptype == HWBREAK {
        bpt := bpt[addr := Point(ptype, pkind)];
        size := Some(|bpt|);
      } else if ptype == WATCH || ptype == RWATCH || ptype == AWATCH {
        wpt := wpt[addr := Point(ptype, pkind)];
        size := Some(|wpt|);
      }
    }

    method PointRemove(ptype: nat, addr: Size, pkind: nat) returns (size: Option<nat>)
      modifies this`bpt, this`wpt
      ensures Points() == ApplyEdit(old(Points()), Remove(ptype, addr, pkind))
      ensures size == match FamilyOf(ptype)
                      case None => None
                      case Some(f) => Some(|if f == Breakpoints then bpt else wpt|)
    {
      size := None;
      if ptype == SWBREAK || ptype == HWBREAK {
        bpt := bpt - {addr};
        size := Some(|bpt|);
      } else if ptype == WATCH || ptype == RWATCH || ptype == AWATCH {
        wpt := wpt - {addr};
        size := Some(|wpt|);
      }
    }

    method BreakpointMatch(r: Retired)
      modifies this`sig, this`rsn
      ensures Stopped() == ObserveFetch(Points(), r, old(Stopped()))
    {
      var a, d := ToSize(r.ifu.adr), r.ifu.rdt;
      if r.ifu.ill {
        sig := SIGILL;
      } else if [At(d, 0), At(d, 1), At(d, 2), At(d, 3)] == [0x73, 0x00, 0x10, 0x00] ||
                [At(d, 0), At(d, 1)] == [0x02, 0x90] {
        sig := SIGTRAP;
      } else if a in bpt {
        if bpt[a].ptype == HWBREAK {
          sig := SIGTRAP;
          rsn := bpt[a];
        }
      }
    }

    method WatchpointMatch(r: Retired)
      modifies this`sig, this`rsn
      ensures Stopped() == ObserveAccess(Points(), r, old(Stopped()))
    {
      var a := ToSize(r.lsu.adr);
      var wen := |r.lsu.wdt| > 0;
      if a in wpt {
        if (wpt[a].ptype == WATCH && wen) || (wpt[a].ptype == RWATCH && !wen) || wpt[a].ptype == AWATCH {
          sig := SIGTRAP;
          rsn := wpt[a];
        }
      }
    }
  }
}
