/**
 What update, record, replay and revert do, told field by field.

 Register files are compared before and after by which entry last names a register; memory and I/O by which
 bytes an access covers. None of the statements here mentions the logs the operations are given by.
 */
module Effects {
  import opened Wrappers
  import opened MemoryMap
  import opened ShadowState

  // ---------- register files ----------

  /** Change `k` is the last one of its register. */
  ghost predicate Latest(cs: seq<RegChange>, k: nat) {
    k < |cs| && forall j :: k < j < |cs| ==> cs[j].idx != cs[k].idx
  }

  ghost predicate Names(cs: seq<RegChange>, i: nat) {
    exists k :: 0 <= k < |cs| && cs[k].idx == i
  }

  /** Each register holds the value of its last change (the old or the new one), or what it held if it has none. */
  ghost predicate Overwritten(before: seq<nat>, after: seq<nat>, cs: seq<RegChange>, undo: bool) {
    && |after| == |before|
    && (forall k: nat {:trigger Latest(cs, k)} :: Latest(cs, k) && cs[k].idx < |before| ==>
          after[cs[k].idx] == if undo then cs[k].rdt else cs[k].wdt)
    && (forall i: nat {:trigger Names(cs, i)} :: i < |before| && !Names(cs, i) ==> after[i] == before[i])
  }

  lemma LatestOfConcat(cs: seq<RegChange>, ds: seq<RegChange>, k: nat)
    requires Latest(cs + ds, k)
    ensures if k < |cs| then Latest(cs, k) && !Names(ds, cs[k].idx) else Latest(ds, k - |cs|)
  {
    var all := cs + ds;
    forall j | 0 <= j < |ds| && |cs| + j > k ensures ds[j].idx != all[k].idx {
      assert ds[j] == all[|cs| + j];
    }
    if k < |cs| {
      assert forall j :: k < j < |cs| ==> cs[j] == all[j];
    }
  }

  lemma NamesInConcat(cs: seq<RegChange>, ds: seq<RegChange>, i: nat)
    ensures Names(cs + ds, i) <==> Names(cs, i) || Names(ds, i)
  {
    var all := cs + ds;
    if k :| 0 <= k < |cs| && cs[k].idx == i {
      assert all[k].idx == i;
    }
    if k :| 0 <= k < |ds| && ds[k].idx == i {
      assert all[|cs| + k].idx == i;
    }
  }

  /** Changes made after others: the later ones prevail. */
  lemma OverwrittenTwice(
      before: seq<nat>, mid: seq<nat>, after: seq<nat>, cs: seq<RegChange>, ds: seq<RegChange>, undo: bool)
    requires Overwritten(before, mid, cs, undo) && Overwritten(mid, after, ds, undo)
    ensures Overwritten(before, after, cs + ds, undo)
  {
    var all := cs + ds;
    forall k: nat | Latest(all, k) && all[k].idx < |before|
      ensures after[all[k].idx] == if undo then all[k].rdt else all[k].wdt
    {
      LatestOfConcat(cs, ds, k);
    }
    forall i: nat | i < |before| && !Names(all, i) ensures after[i] == before[i] {
      NamesInConcat(cs, ds, i);
    }
  }

  lemma OverwrittenOnce(regs: seq<nat>, c: RegChange, undo: bool)
    ensures var v := if undo then c.rdt else c.wdt;
            Overwritten(regs, if c.idx < |regs| then regs[c.idx := v] else regs, [c], undo)
  {
    assert [c][0].idx == c.idx;
    assert Names([c], c.idx);
  }

  function WriteOf(isGpr: bool, c: RegChange, undo: bool): Write {
    var v := if undo then c.rdt else c.wdt;
    if isGpr then SetGpr(c.idx, v) else SetCsr(c.idx, v)
  }

  /** A log of register changes acts on its register file alone. */
  lemma {:induction false} RegsApplied(isGpr: bool, s: Cpu, cs: seq<RegChange>, log: seq<Write>, undo: bool)
    requires |log| == |cs| && forall i :: 0 <= i < |cs| ==> log[i] == WriteOf(isGpr, cs[i], undo)
    ensures var t := Apply(s, log);
            && t.pc == s.pc && t.mem == s.mem && t.io == s.io
            && (if isGpr then t.csr == s.csr && Overwritten(s.gpr, t.gpr, cs, undo)
                else t.gpr == s.gpr && Overwritten(s.csr, t.csr, cs, undo))
    decreases |cs|
  {
    if cs != [] {
      var n := |cs| - 1;
      var u := Apply(s, log[..n]);
      var t := Apply(s, log);
      RegsApplied(isGpr, s, cs[..n], log[..n], undo);
      assert t == Set(u, WriteOf(isGpr, cs[n], undo));
      assert cs == cs[..n] + [cs[n]];
      if isGpr {
        OverwrittenOnce(u.gpr, cs[n], undo);
        OverwrittenTwice(s.gpr, u.gpr, t.gpr, cs[..n], [cs[n]], undo);
      } else {
        OverwrittenOnce(u.csr, cs[n], undo);
        OverwrittenTwice(s.csr, u.csr, t.csr, cs[..n], [cs[n]], undo);
      }
    }
  }

  // ---------- memory and I/O ----------

  /** From `s` to `t` the data went to its bytes of the block that serves the address, or to its I/O register. */
  ghost predicate Stored(mmap: seq<Block>, s: Cpu, t: Cpu, adr: nat, dat: seq<Byte>) {
    match Decode(mmap, ToSize(adr))
    case None =>
      t.mem == s.mem && forall a: Size :: IoGet(t.io, a) == if a == ToSize(adr) then dat else IoGet(s.io, a)
    case Some(c) =>
      t.io == s.io && BytesStored(s.mem, t.mem, c, dat)
  }

  ghost predicate BytesStored(before: seq<seq<Byte>>, after: seq<seq<Byte>>, c: Cell, dat: seq<Byte>) {
    && |after| == |before|
    && (forall b :: 0 <= b < |before| ==> |after[b]| == |before[b]|)
    && (forall b, o :: 0 <= b < |before| && 0 <= o < |before[b]| ==>
          after[b][o] == if b == c.blk && c.off <= o < c.off + |dat| then dat[o - c.off] else before[b][o])
  }

  ghost predicate SameRegisters(s: Cpu, t: Cpu) {
    t.pc == s.pc && t.gpr == s.gpr && t.csr == s.csr
  }

  lemma {:induction false} BytesApplied(s: Cpu, c: Cell, dat: seq<Byte>)
    ensures var t := Apply(s, ByteLog(c, dat));
            SameRegisters(s, t) && t.io == s.io && BytesStored(s.mem, t.mem, c, dat)
    decreases |dat|
  {
    if dat != [] {
      var n := |dat| - 1;
      var d, b := dat[..n], dat[n];
      assert dat == d + [b];
      BytesApplied(s, c, d);
      ByteLogExtends(c, d, b);
      var u, w := Apply(s, ByteLog(c, d)), SetByte(c.blk, c.off + n, b);
      ApplyConcat(s, ByteLog(c, d), [w]);
      ApplyOne(u, w);
      ByteStored(s, u, c, d, b);
    }
  }

  lemma ByteStored(s: Cpu, u: Cpu, c: Cell, d: seq<Byte>, b: Byte)
    requires BytesStored(s.mem, u.mem, c, d)
    ensures var t := Set(u, SetByte(c.blk, c.off + |d|, b));
            SameRegisters(u, t) && t.io == u.io && BytesStored(s.mem, t.mem, c, d + [b])
  {
  }

  lemma StoreApplied(mmap: seq<Block>, s: Cpu, adr: nat, dat: seq<Byte>)
    ensures var t := Apply(s, StoreLog(mmap, adr, dat)); SameRegisters(s, t) && Stored(mmap, s, t, adr, dat)
  {
    match Decode(mmap, ToSize(adr))
    case None => ApplyOne(s, SetIo(ToSize(adr), dat));
    case Some(c) => BytesApplied(s, c, dat);
  }

  /** A read from a block is the slice of it, where that exists; a read elsewhere is the whole I/O entry. */
  lemma LoadIsSlice(mmap: seq<Block>, s: Cpu, adr: nat, siz: nat)
    ensures match Decode(mmap, ToSize(adr))
            case None => Load(mmap, s, adr, siz) == IoGet(s.io, ToSize(adr))
            case Some(c) =>
              c.blk < |s.mem| && c.off + siz <= |s.mem[c.blk]| ==>
                Load(mmap, s, adr, siz) == s.mem[c.blk][c.off..c.off + siz]
  {
    match Decode(mmap, ToSize(adr))
    case None =>
    case Some(c) =>
      var dat := Load(mmap, s, adr, siz);
      assert forall k :: 0 <= k < siz ==> dat[k] == ByteOf(s, c.blk, c.off + k);
  }

  // ---------- the operations ----------

  /** Replay: the next PC, the new register values, the store data. */
  lemma ReplayEffect(mmap: seq<Block>, s: Cpu, r: Retired)
    ensures var t := Replay(mmap, s, r);
            && t.pc == r.ifu.pcn
            && Overwritten(s.gpr, t.gpr, r.gpr, false)
            && Overwritten(s.csr, t.csr, r.csr, false)
            && Stored(mmap, s, t, r.lsu.adr, r.lsu.wdt)
  {
    var a, b, c := NewLog(true, r.gpr), NewLog(false, r.csr), StoreLog(mmap, r.lsu.adr, r.lsu.wdt);
    var s0 := Set(s, SetPc(r.ifu.pcn));
    ChainOf(s, SetPc(r.ifu.pcn), a, b, c);
    RegsApplied(true, s0, r.gpr, a, false);
    RegsApplied(false, Apply(s0, a), r.csr, b, false);
    StoreApplied(mmap, Apply(Apply(s0, a), b), r.lsu.adr, r.lsu.wdt);
  }

  /** Revert: the instruction's own PC, the old register values, the old memory data. */
  lemma RevertEffect(mmap: seq<Block>, s: Cpu, r: Retired)
    ensures var t := Revert(mmap, s, r);
            && t.pc == r.ifu.adr
            && Overwritten(s.gpr, t.gpr, r.gpr, true)
            && Overwritten(s.csr, t.csr, r.csr, true)
            && Stored(mmap, s, t, r.lsu.adr, r.lsu.rdt)
  {
    var a, b, c := OldLog(true, r.gpr), OldLog(false, r.csr), StoreLog(mmap, r.lsu.adr, r.lsu.rdt);
    var s0 := Set(s, SetPc(r.ifu.adr));
    ChainOf(s, SetPc(r.ifu.adr), a, b, c);
    RegsApplied(true, s0, r.gpr, a, true);
    RegsApplied(false, Apply(s0, a), r.csr, b, true);
    StoreApplied(mmap, Apply(Apply(s0, a), b), r.lsu.adr, r.lsu.rdt);
  }

  /** Update: the fetched data, the instruction's PC, the CSR values read, then the loaded data. */
  lemma UpdateEffect(mmap: seq<Block>, s: Cpu, r: Retired) returns (fetched: Cpu)
    ensures Stored(mmap, s, fetched, r.ifu.adr, r.ifu.rdt)
    ensures var t := Update(mmap, s, r);
            && t.pc == r.ifu.adr
            && t.gpr == s.gpr
            && Overwritten(s.csr, t.csr, r.csr, true)
            && Stored(mmap, fetched, t, r.lsu.adr, r.lsu.rdt)
  {
    fetched := Apply(s, StoreLog(mmap, r.ifu.adr, r.ifu.rdt));
    var s1, b := Set(fetched, SetPc(r.ifu.adr)), OldLog(false, r.csr);
    UpdateChain(mmap, s, r);
    StoreApplied(mmap, s, r.ifu.adr, r.ifu.rdt);
    RegsApplied(false, s1, r.csr, b, true);
    StoreApplied(mmap, Apply(s1, b), r.lsu.adr, r.lsu.rdt);
  }

  /** The register changes of a recorded entry: the same, with old values from the register file. */
  ghost predicate Remembered(regs: seq<nat>, cs: seq<RegChange>, es: seq<RegChange>) {
    && |es| == |cs|
    && forall i :: 0 <= i < |cs| ==>
         && es[i].idx == cs[i].idx && es[i].wdt == cs[i].wdt
         && (cs[i].idx < |regs| ==> es[i].rdt == regs[cs[i].idx])
  }

  /** Recording replaces old values by those of the shadow and keeps everything else of the instruction. */
  lemma RecordEffect(mmap: seq<Block>, s: Cpu, r: Retired)
    ensures var e := Record(mmap, s, r);
            && e.ifu.adr == s.pc && e.ifu.pcn == r.ifu.pcn && e.ifu.ill == r.ifu.ill
            && e.ifu.rdt == Load(mmap, s, r.ifu.adr, |r.ifu.rdt|)
            && Remembered(s.gpr, r.gpr, e.gpr) && Remembered(s.csr, r.csr, e.csr)
            && e.lsu.adr == r.lsu.adr && e.lsu.wdt == r.lsu.wdt
            && e.lsu.rdt == Load(mmap, s, r.lsu.adr, |r.lsu.wdt|)
  {
  }
}
