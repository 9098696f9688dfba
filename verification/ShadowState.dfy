/**
 The shadow of the CPU as a value, and the meaning of a retired instruction as a log of writes.

 `Cpu` is what the debugger sees: registers, memory blocks and I/O registers. Update, replay and revert
 are given here by the list of single-location writes they amount to, in program order.
 */
module ShadowState {
  import opened Wrappers
  import opened MemoryMap

  // ---------- retired instruction ----------

  datatype Fetch = Fetch(adr: nat, pcn: nat, rdt: seq<Byte>, ill: bool)
  datatype RegChange = RegChange(idx: nat, rdt: nat, wdt: nat)
  datatype Access = Access(adr: nat, rdt: seq<Byte>, wdt: seq<Byte>)
  datatype Retired = Retired(ifu: Fetch, gpr: seq<RegChange>, csr: seq<RegChange>, lsu: Access)

  // ---------- shadow state ----------

  /** I/O registers. An absent entry and an empty one read the same, so only nonempty ones are kept. */
  type Io = m: map<Size, seq<Byte>> | forall a :: a in m ==> m[a] != [] witness map[]

  datatype Cpu = Cpu(gpr: seq<nat>, pc: nat, csr: seq<nat>, mem: seq<seq<Byte>>, io: Io)

  datatype Loc = PcLoc | GprLoc(i: nat) | CsrLoc(i: nat) | MemLoc(b: nat, o: nat) | IoLoc(a: Size)

  datatype Value = Word(w: nat) | Bytes(d: seq<Byte>)

  /** The locations that exist in a given shadow. */
  predicate Has(s: Cpu, l: Loc) {
    match l
    case PcLoc => true
    case GprLoc(i) => i < |s.gpr|
    case CsrLoc(i) => i < |s.csr|
    case MemLoc(b, o) => b < |s.mem| && o < |s.mem[b]|
    case IoLoc(_) => true
  }

  function Get(s: Cpu, l: Loc): Value
    requires Has(s, l)
  {
    match l
    case PcLoc => Word(s.pc)
    case GprLoc(i) => Word(s.gpr[i])
    case CsrLoc(i) => Word(s.csr[i])
    case MemLoc(b, o) => Word(s.mem[b][o])
    case IoLoc(a) => Bytes(IoGet(s.io, a))
  }

  function IoGet(io: Io, a: Size): seq<Byte> {
    if a in io then io[a] else []
  }

  function IoPut(io: Io, a: Size, d: seq<Byte>): Io {
    if d == [] then io - {a} else io[a := d]
  }

  ghost predicate SameShape(s: Cpu, t: Cpu) {
    && |s.gpr| == |t.gpr| && |s.csr| == |t.csr| && |s.mem| == |t.mem|
    && forall b :: 0 <= b < |s.mem| ==> |s.mem[b]| == |t.mem[b]|
  }

  lemma SameLocationsSameState(s: Cpu, t: Cpu)
    requires SameShape(s, t)
    requires forall l :: Has(s, l) ==> Get(s, l) == Get(t, l)
    ensures s == t
  {
    assert Get(s, PcLoc) == Get(t, PcLoc);
    forall i | 0 <= i < |s.gpr| ensures s.gpr[i] == t.gpr[i] { assert Get(s, GprLoc(i)) == Get(t, GprLoc(i)); }
    forall i | 0 <= i < |s.csr| ensures s.csr[i] == t.csr[i] { assert Get(s, CsrLoc(i)) == Get(t, CsrLoc(i)); }
    forall b | 0 <= b < |s.mem| ensures s.mem[b] == t.mem[b] {
      forall o | 0 <= o < |s.mem[b]| ensures s.mem[b][o] == t.mem[b][o] {
        assert Get(s, MemLoc(b, o)) == Get(t, MemLoc(b, o));
      }
    }
    forall a: Size ensures (a in s.io <==> a in t.io) && (a in s.io ==> s.io[a] == t.io[a]) {
      assert Get(s, IoLoc(a)) == Get(t, IoLoc(a));
    }
    assert s.io == t.io;
  }

  // ---------- logs of writes ----------

  datatype Write =
    | SetPc(w: nat)
    | SetGpr(i: nat, w: nat)
    | SetCsr(i: nat, w: nat)
    | SetByte(b: nat, o: nat, v: Byte)
    | SetIo(a: Size, d: seq<Byte>)
  {
    function Loc(): Loc {
      match this
      case SetPc(_) => PcLoc
      case SetGpr(i, _) => GprLoc(i)
      case SetCsr(i, _) => CsrLoc(i)
      case SetByte(b, o, _) => MemLoc(b, o)
      case SetIo(a, _) => IoLoc(a)
    }

    function Val(): Value {
      match this
      case SetPc(w) => Word(w)
      case SetGpr(_, w) => Word(w)
      case SetCsr(_, w) => Word(w)
      case SetByte(_, _, v) => Word(v)
      case SetIo(_, d) => Bytes(d)
    }
  }

  /** One write; a write to a location that does not exist is dropped. */
  function Set(s: Cpu, w: Write): Cpu {
    match w
    case SetPc(x) => s.(pc := x)
    case SetGpr(i, x) => if i < |s.gpr| then s.(gpr := s.gpr[i := x]) else s
    case SetCsr(i, x) => if i < |s.csr| then s.(csr := s.csr[i := x]) else s
    case SetByte(b, o, v) =>
      if b < |s.mem| && o < |s.mem[b]| then
        var block: seq<Byte> := s.mem[b][o := v];
        s.(mem := s.mem[b := block])
      else s
    case SetIo(a, d) => s.(io := IoPut(s.io, a, d))
  }

  function Apply(s: Cpu, log: seq<Write>): Cpu {
    if log == [] then s else Set(Apply(s, log[..|log| - 1]), log[|log| - 1])
  }

  /** The value the log leaves in `l`: that of its last write to `l`, if it has one. */
  function Last(log: seq<Write>, l: Loc): Option<Value> {
    if log == [] then None
    else if log[|log| - 1].Loc() == l then Some(log[|log| - 1].Val())
    else Last(log[..|log| - 1], l)
  }

  lemma {:induction false} ApplyConcat(s: Cpu, a: seq<Write>, b: seq<Write>)
    ensures Apply(s, a + b) == Apply(Apply(s, a), b)
  {
    if b == [] {
      assert a + b == a;
    } else {
      assert (a + b)[..|a + b| - 1] == a + b[..|b| - 1];
      ApplyConcat(s, a, b[..|b| - 1]);
    }
  }

  lemma SetGet(s: Cpu, w: Write, l: Loc)
    ensures SameShape(s, Set(s, w))
    ensures Has(s, l) ==> Get(Set(s, w), l) == if w.Loc() == l then w.Val() else Get(s, l)
  {
  }

  /** A log acts on each location separately: the location gets the last value listed for it, or keeps its own. */
  lemma {:induction false} ApplyGet(s: Cpu, log: seq<Write>, l: Loc)
    ensures SameShape(s, Apply(s, log))
    ensures Has(s, l) ==>
              Get(Apply(s, log), l) == match Last(log, l) case None => Get(s, l) case Some(v) => v
  {
    if log != [] {
      var rest := log[..|log| - 1];
      ApplyGet(s, rest, l);
      SetGet(Apply(s, rest), log[|log| - 1], l);
    }
  }

  /** Every location a log lists already holds the last value the log lists for it. */
  ghost predicate Settled(s: Cpu, log: seq<Write>) {
    forall l :: Has(s, l) && Last(log, l).Some? ==> Last(log, l).value == Get(s, l)
  }

  /** A log changes nothing exactly when the shadow is settled for it. */
  lemma ApplyIsIdentityIffSettled(s: Cpu, log: seq<Write>)
    ensures Apply(s, log) == s <==> Settled(s, log)
  {
    ApplyGet(s, log, PcLoc);
    forall l | Has(s, l)
      ensures Get(Apply(s, log), l) == match Last(log, l) case None => Get(s, l) case Some(v) => v
    {
      ApplyGet(s, log, l);
    }
    if Settled(s, log) {
      SameLocationsSameState(Apply(s, log), s);
    }
  }

  lemma {:induction false} LastIsListed(log: seq<Write>, l: Loc)
    ensures Last(log, l).Some? <==> exists i :: 0 <= i < |log| && log[i].Loc() == l
    ensures Last(log, l).Some? ==> exists i :: 0 <= i < |log| && log[i].Loc() == l && log[i].Val() == Last(log, l).value
  {
    if log != [] {
      var rest := log[..|log| - 1];
      LastIsListed(rest, l);
      if log[|log| - 1].Loc() != l && Last(rest, l).Some? {
        var i :| 0 <= i < |rest| && rest[i].Loc() == l && rest[i].Val() == Last(rest, l).value;
        assert log[i] == rest[i];
      }
      if log[|log| - 1].Loc() == l {
        assert log[|log| - 1].Val() == Last(log, l).value;
      }
      if j :| 0 <= j < |log| && log[j].Loc() == l && j != |log| - 1 {
        assert rest[j] == log[j];
      }
    }
  }

  lemma {:induction false} LastConcat(a: seq<Write>, b: seq<Write>, l: Loc)
    ensures Last(a + b, l) == if Last(b, l).Some? then Last(b, l) else Last(a, l)
  {
    if b == [] {
      assert a + b == a;
    } else {
      assert (a + b)[..|a + b| - 1] == a + b[..|b| - 1];
      LastConcat(a, b[..|b| - 1], l);
    }
  }

  /** Every write of the log carries the value its location already has. */
  ghost predicate Echoes(s: Cpu, log: seq<Write>) {
    forall i :: 0 <= i < |log| && Has(s, log[i].Loc()) ==> log[i].Val() == Get(s, log[i].Loc())
  }

  ghost predicate SameTargets(a: seq<Write>, b: seq<Write>) {
    |a| == |b| && forall i :: 0 <= i < |a| ==> a[i].Loc() == b[i].Loc()
  }

  lemma EchoIsSettled(s: Cpu, log: seq<Write>)
    requires Echoes(s, log)
    ensures Settled(s, log)
  {
    forall l | Has(s, l) && Last(log, l).Some? ensures Last(log, l).value == Get(s, l) {
      LastIsListed(log, l);
    }
  }

  /** A log that echoes `s` undoes any log with the same targets, duplicates included. */
  lemma EchoUndoes(s: Cpu, a: seq<Write>, b: seq<Write>)
    requires SameTargets(a, b) && Echoes(s, b)
    ensures Settled(s, a + b)
  {
    EchoIsSettled(s, b);
    forall l | Has(s, l) && Last(a + b, l).Some? ensures Last(a + b, l).value == Get(s, l) {
      LastConcat(a, b, l);
      LastIsListed(a, l);
      LastIsListed(b, l);
    }
  }

  /** Two logs with the same targets that list the same values for one location. */
  ghost predicate AgreeFor(a: seq<Write>, b: seq<Write>, l: Loc) {
    SameTargets(a, b) && forall i :: 0 <= i < |a| && a[i].Loc() == l ==> a[i].Val() == b[i].Val()
  }

  lemma {:induction false} AgreeingLast(a: seq<Write>, b: seq<Write>, l: Loc)
    requires AgreeFor(a, b, l)
    ensures Last(a, l) == Last(b, l)
  {
    if a != [] {
      AgreeingLast(a[..|a| - 1], b[..|b| - 1], l);
    }
  }

  lemma AgreeConcat(a: seq<Write>, b: seq<Write>, c: seq<Write>, d: seq<Write>, l: Loc)
    requires AgreeFor(a, b, l) && AgreeFor(c, d, l)
    ensures AgreeFor(a + c, b + d, l)
  {
  }

  // ---------- memory access ----------

  /** The writes of consecutive bytes of a block. */
  function ByteLog(c: Cell, dat: seq<Byte>): seq<Write> {
    seq(|dat|, k requires 0 <= k < |dat| => SetByte(c.blk, c.off + k, dat[k]))
  }

  lemma ByteLogExtends(c: Cell, dat: seq<Byte>, b: Byte)
    ensures ByteLog(c, dat + [b]) == ByteLog(c, dat) + [SetByte(c.blk, c.off + |dat|, b)]
  {
  }

  function StoreLog(mmap: seq<Block>, adr: nat, dat: seq<Byte>): seq<Write> {
    match Decode(mmap, ToSize(adr))
    case None => [SetIo(ToSize(adr), dat)]
    case Some(c) => ByteLog(c, dat)
  }

  function ByteOf(s: Cpu, b: nat, o: nat): Byte {
    if b < |s.mem| && o < |s.mem[b]| then s.mem[b][o] else 0
  }

  /** A read from a block has the requested size; a read from the I/O space returns the whole entry. */
  function Load(mmap: seq<Block>, s: Cpu, adr: nat, siz: nat): seq<Byte> {
    match Decode(mmap, ToSize(adr))
    case None => IoGet(s.io, ToSize(adr))
    case Some(c) => seq<Byte>(siz, k requires 0 <= k < siz => ByteOf(s, c.blk, c.off + k))
  }

  /** Storing back what was just read changes nothing. */
  lemma LoadEchoes(mmap: seq<Block>, s: Cpu, adr: nat, siz: nat)
    ensures Echoes(s, StoreLog(mmap, adr, Load(mmap, s, adr, siz)))
  {
    var dat := Load(mmap, s, adr, siz);
    match Decode(mmap, ToSize(adr))
    case None =>
    case Some(c) =>
      forall k | 0 <= k < |dat| && Has(s, MemLoc(c.blk, c.off + k))
        ensures Word(dat[k]) == Get(s, MemLoc(c.blk, c.off + k))
      {
        assert dat[k] == ByteOf(s, c.blk, c.off + k);
      }
  }

  // ---------- the four operations ----------

  function NewLog(isGpr: bool, cs: seq<RegChange>): seq<Write> {
    seq(|cs|, i requires 0 <= i < |cs| => if isGpr then SetGpr(cs[i].idx, cs[i].wdt) else SetCsr(cs[i].idx, cs[i].wdt))
  }

  function OldLog(isGpr: bool, cs: seq<RegChange>): seq<Write> {
    seq(|cs|, i requires 0 <= i < |cs| => if isGpr then SetGpr(cs[i].idx, cs[i].rdt) else SetCsr(cs[i].idx, cs[i].rdt))
  }

  function UpdateLog(mmap: seq<Block>, r: Retired): seq<Write> {
    StoreLog(mmap, r.ifu.adr, r.ifu.rdt) + [SetPc(r.ifu.adr)] + OldLog(false, r.csr)
    + StoreLog(mmap, r.lsu.adr, r.lsu.rdt)
  }

  function ReplayLog(mmap: seq<Block>, r: Retired): seq<Write> {
    [SetPc(r.ifu.pcn)] + NewLog(true, r.gpr) + NewLog(false, r.csr) + StoreLog(mmap, r.lsu.adr, r.lsu.wdt)
  }

  function RevertLog(mmap: seq<Block>, r: Retired): seq<Write> {
    [SetPc(r.ifu.adr)] + OldLog(true, r.gpr) + OldLog(false, r.csr) + StoreLog(mmap, r.lsu.adr, r.lsu.rdt)
  }

  function Update(mmap: seq<Block>, s: Cpu, r: Retired): Cpu { Apply(s, UpdateLog(mmap, r)) }
  function Replay(mmap: seq<Block>, s: Cpu, r: Retired): Cpu { Apply(s, ReplayLog(mmap, r)) }
  function Revert(mmap: seq<Block>, s: Cpu, r: Retired): Cpu { Apply(s, RevertLog(mmap, r)) }

  /** Remember the register values that an entry is about to overwrite. */
  function Remember(regs: seq<nat>, cs: seq<RegChange>): seq<RegChange> {
    seq(|cs|, i requires 0 <= i < |cs| => if cs[i].idx < |regs| then cs[i].(rdt := regs[cs[i].idx]) else cs[i])
  }

  function Record(mmap: seq<Block>, s: Cpu, r: Retired): Retired {
    Retired(r.ifu.(rdt := Load(mmap, s, r.ifu.adr, |r.ifu.rdt|), adr := s.pc),
            Remember(s.gpr, r.gpr), Remember(s.csr, r.csr),
            r.lsu.(rdt := Load(mmap, s, r.lsu.adr, |r.lsu.wdt|)))
  }

  lemma ApplyOne(s: Cpu, w: Write)
    ensures Apply(s, [w]) == Set(s, w)
  {
    assert [w][..0] == [];
  }

  /** The operations as chains of their parts. */
  lemma UpdateChain(mmap: seq<Block>, s: Cpu, r: Retired)
    ensures var s1 := Set(Apply(s, StoreLog(mmap, r.ifu.adr, r.ifu.rdt)), SetPc(r.ifu.adr));
            var s2 := Apply(s1, OldLog(false, r.csr));
            Update(mmap, s, r) == Apply(s2, StoreLog(mmap, r.lsu.adr, r.lsu.rdt))
  {
    var a, b := StoreLog(mmap, r.ifu.adr, r.ifu.rdt), [SetPc(r.ifu.adr)];
    ApplyConcat(s, a, b);
    ApplyOne(Apply(s, a), SetPc(r.ifu.adr));
    ApplyConcat(s, a + b, OldLog(false, r.csr));
    ApplyConcat(s, a + b + OldLog(false, r.csr), StoreLog(mmap, r.lsu.adr, r.lsu.rdt));
  }

  lemma ChainOf(s: Cpu, w: Write, a: seq<Write>, b: seq<Write>, c: seq<Write>)
    ensures Apply(s, [w] + a + b + c) == Apply(Apply(Apply(Set(s, w), a), b), c)
  {
    ApplyOne(s, w);
    ApplyConcat(s, [w], a);
    ApplyConcat(s, [w] + a, b);
    ApplyConcat(s, [w] + a + b, c);
  }

  // ---------- what the operations promise ----------

  /** What `Record` establishes: reverting lists the same locations as replaying, with their values in `s`. */
  ghost predicate RecordedAgainst(mmap: seq<Block>, s: Cpu, e: Retired) {
    SameTargets(ReplayLog(mmap, e), RevertLog(mmap, e)) && Echoes(s, RevertLog(mmap, e))
  }

  /** Remembered old values echo the register file, at the places the new values go to. */
  lemma RememberEchoes(isGpr: bool, s: Cpu, cs: seq<RegChange>)
    ensures var e := Remember(if isGpr then s.gpr else s.csr, cs);
            && NewLog(isGpr, e) == NewLog(isGpr, cs)
            && SameTargets(NewLog(isGpr, e), OldLog(isGpr, e))
            && Echoes(s, OldLog(isGpr, e))
  {
    var e := Remember(if isGpr then s.gpr else s.csr, cs);
    assert NewLog(isGpr, e) == NewLog(isGpr, cs);
  }

  lemma LoadTargets(mmap: seq<Block>, s: Cpu, adr: nat, dat: seq<Byte>)
    ensures SameTargets(StoreLog(mmap, adr, dat), StoreLog(mmap, adr, Load(mmap, s, adr, |dat|)))
  {
  }

  lemma ConcatTargetsAndEchoes(s: Cpu, a: seq<Write>, b: seq<Write>, c: seq<Write>, d: seq<Write>)
    requires SameTargets(a, b) && SameTargets(c, d) && Echoes(s, b) && Echoes(s, d)
    ensures SameTargets(a + c, b + d) && Echoes(s, b + d)
  {
  }

  lemma RecordIsRecorded(mmap: seq<Block>, s: Cpu, r: Retired)
    ensures RecordedAgainst(mmap, s, Record(mmap, s, r))
    ensures ReplayLog(mmap, Record(mmap, s, r)) == ReplayLog(mmap, r)
  {
    var e := Record(mmap, s, r);
    var pn, po := [SetPc(e.ifu.pcn)], [SetPc(e.ifu.adr)];
    var gn, go := NewLog(true, e.gpr), OldLog(true, e.gpr);
    var cn, co := NewLog(false, e.csr), OldLog(false, e.csr);
    RememberEchoes(true, s, r.gpr);
    RememberEchoes(false, s, r.csr);
    LoadEchoes(mmap, s, r.lsu.adr, |r.lsu.wdt|);
    LoadTargets(mmap, s, r.lsu.adr, r.lsu.wdt);
    ConcatTargetsAndEchoes(s, pn, po, gn, go);
    ConcatTargetsAndEchoes(s, pn + gn, po + go, cn, co);
    ConcatTargetsAndEchoes(s, pn + gn + cn, po + go + co,
                           StoreLog(mmap, e.lsu.adr, e.lsu.wdt), StoreLog(mmap, e.lsu.adr, e.lsu.rdt));
  }

  lemma RecordedIsReversible(mmap: seq<Block>, s: Cpu, e: Retired)
    requires RecordedAgainst(mmap, s, e)
    ensures Settled(s, ReplayLog(mmap, e) + RevertLog(mmap, e))
  {
    EchoUndoes(s, ReplayLog(mmap, e), RevertLog(mmap, e));
  }

  /** Reverting undoes replaying exactly when the entry carries, for each location, the value it had. */
  lemma RevertUndoesReplayIff(mmap: seq<Block>, s: Cpu, e: Retired)
    ensures Revert(mmap, Replay(mmap, s, e), e) == s <==> Settled(s, ReplayLog(mmap, e) + RevertLog(mmap, e))
  {
    ApplyConcat(s, ReplayLog(mmap, e), RevertLog(mmap, e));
    ApplyIsIdentityIffSettled(s, ReplayLog(mmap, e) + RevertLog(mmap, e));
  }

  /** An entry recorded against any shadow is undone exactly, whatever indices it repeats. */
  lemma RevertUndoesReplay(mmap: seq<Block>, s: Cpu, r: Retired)
    ensures var e := Record(mmap, s, r); Revert(mmap, Replay(mmap, s, e), e) == s
  {
    var e := Record(mmap, s, r);
    RecordIsRecorded(mmap, s, r);
    RecordedIsReversible(mmap, s, e);
    RevertUndoesReplayIff(mmap, s, e);
  }

  /** The entry recorded on arrival updates the shadow it was recorded against with what is there. */
  lemma RecordedUpdateEchoes(mmap: seq<Block>, s: Cpu, r: Retired)
    requires s.pc == r.ifu.adr
    ensures Echoes(s, UpdateLog(mmap, Record(mmap, s, r)))
  {
    var e := Record(mmap, s, r);
    LoadEchoes(mmap, s, r.ifu.adr, |r.ifu.rdt|);
    LoadEchoes(mmap, s, r.lsu.adr, |r.lsu.wdt|);
    RememberEchoes(false, s, r.csr);
    assert Echoes(s, StoreLog(mmap, e.ifu.adr, e.ifu.rdt) + [SetPc(e.ifu.adr)] + OldLog(false, e.csr));
  }

  /** After update and record, repeating both changes neither the shadow nor the entry. */
  lemma UpdateRecordIsIdempotent(mmap: seq<Block>, s: Cpu, r: Retired)
    ensures var s1 := Update(mmap, s, r);
            var e1 := Record(mmap, s1, r);
            Update(mmap, s1, e1) == s1 && Record(mmap, s1, e1) == e1
  {
    var s1 := Update(mmap, s, r);
    var e1 := Record(mmap, s1, r);
    UpdateSetsPc(mmap, s, r);
    RecordedUpdateEchoes(mmap, s1, r);
    EchoIsSettled(s1, UpdateLog(mmap, e1));
    ApplyIsIdentityIffSettled(s1, UpdateLog(mmap, e1));
    assert Record(mmap, s1, e1).gpr == e1.gpr && Record(mmap, s1, e1).csr == e1.csr;
  }

  lemma StoreLogTargets(mmap: seq<Block>, adr: nat, dat: seq<Byte>, l: Loc)
    requires !l.MemLoc? && !l.IoLoc?
    ensures Last(StoreLog(mmap, adr, dat), l) == None
  {
    LastIsListed(StoreLog(mmap, adr, dat), l);
  }

  lemma UpdateSetsPc(mmap: seq<Block>, s: Cpu, r: Retired)
    ensures Update(mmap, s, r).pc == r.ifu.adr
  {
    var head := StoreLog(mmap, r.ifu.adr, r.ifu.rdt) + [SetPc(r.ifu.adr)];
    var mid, tail := OldLog(false, r.csr), StoreLog(mmap, r.lsu.adr, r.lsu.rdt);
    LastIsListed(mid, PcLoc);
    StoreLogTargets(mmap, r.lsu.adr, r.lsu.rdt, PcLoc);
    LastConcat(head, mid, PcLoc);
    LastConcat(head + mid, tail, PcLoc);
    ApplyGet(s, UpdateLog(mmap, r), PcLoc);
    assert Get(Update(mmap, s, r), PcLoc) == Word(r.ifu.adr);
  }

  /** Updating the shadow from the DUT never touches a general purpose register. */
  lemma UpdateKeepsGpr(mmap: seq<Block>, s: Cpu, r: Retired, i: nat)
    ensures Last(UpdateLog(mmap, r), GprLoc(i)) == None
    ensures var t := Update(mmap, s, r);
            Has(s, GprLoc(i)) ==> Has(t, GprLoc(i)) && Get(t, GprLoc(i)) == Get(s, GprLoc(i))
  {
    LastIsListed(UpdateLog(mmap, r), GprLoc(i));
    ApplyGet(s, UpdateLog(mmap, r), GprLoc(i));
  }

  // ---------- stores and reads ----------

  /** The memory blocks have the sizes the map gives them. */
  ghost predicate LaidOut(mmap: seq<Block>, s: Cpu) {
    |s.mem| == |mmap| && forall b :: 0 <= b < |mmap| ==> |s.mem[b]| == mmap[b].size
  }

  /** The simple form of a store: one byte at a time, each address decoded on its own. */
  function StoreEach(mmap: seq<Block>, s: Cpu, a: nat, dat: seq<Byte>): Cpu {
    if dat == [] then s
    else
      var n := |dat| - 1;
      Apply(StoreEach(mmap, s, a, dat[..n]), StoreLog(mmap, a + n, [dat[n]]))
  }

  lemma StoreEachExtends(mmap: seq<Block>, s: Cpu, a: nat, dat: seq<Byte>, i: nat)
    requires i < |dat|
    ensures StoreEach(mmap, s, a, dat[..i + 1]) ==
            Apply(StoreEach(mmap, s, a, dat[..i]), StoreLog(mmap, a + i, [dat[i]]))
  {
    assert dat[..i + 1][..i] == dat[..i];
  }

  /** A mapped store reads back, in any map. */
  lemma StoreReadsBack(mmap: seq<Block>, s: Cpu, a: Size, dat: seq<Byte>)
    requires LaidOut(mmap, s) && Fits(mmap, a, |dat|)
    ensures Load(mmap, Apply(s, StoreLog(mmap, a, dat)), a, |dat|) == dat
  {
    var log := StoreLog(mmap, a, dat);
    var t := Apply(s, log);
    match Decode(mmap, a)
    case None =>
      ApplyGet(s, log, IoLoc(a));
    case Some(c) =>
      forall k | 0 <= k < |dat| ensures ByteOf(t, c.blk, c.off + k) == dat[k] {
        ApplyGet(s, log, MemLoc(c.blk, c.off + k));
        LastIsListed(log, MemLoc(c.blk, c.off + k));
        assert log[k].Loc() == MemLoc(c.blk, c.off + k);
        assert Get(t, MemLoc(c.blk, c.off + k)) == Word(dat[k]);
      }
  }

  // ---------- register numbers ----------

  /** Register numbers count the general purpose registers, then the program counter, then the CSRs. */
  function RegLoc(gprn: nat, i: nat): Loc {
    if i < gprn then GprLoc(i) else if i == gprn then PcLoc else CsrLoc(i - 1 - gprn)
  }

  function RegWriteOf(gprn: nat, i: nat, v: nat): Write {
    if i < gprn then SetGpr(i, v) else if i == gprn then SetPc(v) else SetCsr(i - 1 - gprn, v)
  }
}
