/**
 Serving the `m`, `M`, `g`, `G`, `z` and `Z` packets: the loops that build replies and apply requests,
 working on the shadow in place.
 */
module AccessServer {
  import opened MemoryMap
  import opened ShadowState
  import opened Points
  import opened Hex
  import opened Fields
  import opened AccessPackets
  import opened Shadow

  // ---------- memory ----------

  /** Overwrite digit pair `i` of a reply. */
  function PutPair(pkt: string, i: nat, tmp: string): string
    requires 2 * i + 2 <= |pkt| && |tmp| == 2
  {
    pkt[2 * i := tmp[0]][2 * i + 1 := tmp[1]]
  }

  lemma PutPairExtends(pkt: string, d: seq<Byte>, i: nat)
    requires i < |d| && |pkt| == 2 * |d| && pkt[..2 * i] == HexOf(d[..i])
    ensures |PutPair(pkt, i, Format(d[i], 2))| == |pkt|
    ensures PutPair(pkt, i, Format(d[i], 2))[..2 * i + 2] == HexOf(d[..i + 1])
  {
    FormatByte(d[i]);
    var tmp := Format(d[i], 2);
    var q := PutPair(pkt, i, tmp);
    assert q[..2 * i + 2] == pkt[..2 * i] + tmp;
    assert d[..i + 1] == d[..i] + [d[i]];
    HexOfExtends(d[..i], d[i]);
  }

  method MemReadByte(shd: GdbShadow, a: Size) returns (val: Byte)
    requires shd.Valid()
    ensures val == Seen(shd.mmap, shd.View(), a)
  {
    OneByteFits(shd.mmap, a);
    var dat := shd.MemRead(a, 1);
    val := At(dat, 0);
  }

  /** The `m` packet: a reply of placeholder digits is overwritten pair by pair. */
  method MemReadPacket(shd: GdbShadow, adr: Size, len: Size) returns (pkt: string)
    requires shd.Valid()
    ensures pkt == HexOf(SeenRange(shd.mmap, shd.View(), adr, len))
  {
    ghost var seen := SeenRange(shd.mmap, shd.View(), adr, len);
    pkt := seq(2 * len, _ => 'X');
    for i := 0 to len
      invariant |pkt| == 2 * len && pkt[..2 * i] == HexOf(seen[..i])
    {
      var val := MemReadByte(shd, ToSize(adr + i));
      assert val == seen[i];
      PutPairExtends(pkt, seen, i);
      pkt := PutPair(pkt, i, Format(val, 2));
    }
    assert seen[..len] == seen;
    assert pkt[..2 * len] == pkt;
  }

  method MemWriteByte(shd: GdbShadow, a: nat, val: Byte, ghost before: Cpu)
    requires shd.Valid() && before == shd.View()
    modifies shd`i_o, shd.mem
    ensures shd.Valid() && shd.View() == Apply(before, StoreLog(shd.mmap, a, [val]))
  {
    OneByteFits(shd.mmap, ToSize(a));
    shd.MemWrite(a, [val]);
  }

  lemma PairIsStored(mmap: seq<Block>, s: Cpu, adr: nat, dat: seq<Byte>, i: nat, val: Byte, before: Cpu, after: Cpu)
    requires i < |dat| && dat[i] == val
    requires before == StoreEach(mmap, s, adr, dat[..i])
    requires after == Apply(before, StoreLog(mmap, adr + i, [val]))
    ensures after == StoreEach(mmap, s, adr, dat[..i + 1])
  {
    StoreEachExtends(mmap, s, adr, dat, i);
  }

  /** The data part of an `M` packet: each digit pair is stored at its own address. */
  method MemWritePacket(shd: GdbShadow, adr: Size, len: Size, str: string)
    requires shd.Valid() && |str| == 2 * len && AllHex(str)
    modifies shd`i_o, shd.mem
    ensures shd.Valid()
    ensures shd.View() == StoreEach(shd.mmap, old(shd.View()), adr, BytesOf(str))
  {
    ghost var s, dat := shd.View(), BytesOf(str);
    for i := 0 to len
      invariant shd.Valid() && shd.View() == StoreEach(shd.mmap, s, adr, dat[..i])
    {
      MemWritePair(shd, adr, str[2 * i..2 * i + 2], s, dat, i, len, str);
    }
    assert dat[..len] == dat;
  }

  /** One pass of the loop: digit pair `i` of `str` goes to its address. */
  method MemWritePair(shd: GdbShadow, adr: Size, pair: string, ghost s: Cpu, ghost dat: seq<Byte>, i: nat,
                      ghost len: nat, ghost str: string)
    requires shd.Valid() && i < len && |str| == 2 * len && AllHex(str) && pair == str[2 * i..2 * i + 2]
    requires dat == BytesOf(str) && shd.View() == StoreEach(shd.mmap, s, adr, dat[..i])
    modifies shd`i_o, shd.mem
    ensures shd.Valid() && shd.View() == StoreEach(shd.mmap, s, adr, dat[..i + 1])
  {
    BytesOfAt(str, len, i);
    ghost var before := shd.View();
    var val: Byte := Parse(pair);
    MemWriteByte(shd, adr + i, val, before);
    PairIsStored(shd.mmap, s, adr, dat, i, val, before, shd.View());
  }

  // ---------- registers ----------

  lemma RegsTextExtends(s: Cpu, i: nat, n: nat)
    requires Covers(s, i + 1) && RegAt(s, i) < Pow256(n)
    ensures RegsText(s, i + 1, n) == RegsText(s, i, n) + Format(Swap(RegAt(s, i), n), 2 * n)
  {
    SwappedFormat(RegAt(s, i), n);
    assert Regs(s, i + 1) == Regs(s, i) + [RegAt(s, i)];
    JoinExtends(Regs(s, i), RegAt(s, i), FieldText(n));
  }

  /** The `g` packet, for registers of `n` bytes. */
  method RegReadAll(shd: GdbShadow, regn: nat, n: nat) returns (pkt: string)
    requires shd.Valid() && Covers(shd.View(), regn)
    requires forall i :: 0 <= i < regn ==> RegAt(shd.View(), i) < Pow256(n)
    ensures pkt == RegsText(shd.View(), regn, n)
  {
    pkt := "";
    for i := 0 to regn
      invariant pkt == RegsText(shd.View(), i, n)
    {
      RegsTextExtends(shd.View(), i, n);
      var val := shd.RegRead(i);
      pkt := pkt + Format(Swap(val, n), 2 * n);
    }
  }

  lemma FieldIsHex(pkt: string, regn: nat, w: nat, i: nat)
    requires |pkt| == Length(regn, w) && AllHex(pkt) && i < regn
    ensures i * w + w <= |pkt| && Length(i, w) == i * w && Length(i + 1, w) == i * w + w
    ensures AllHex(pkt[i * w..i * w + w])
  {
    SplitAt(pkt, regn, w, (f: string) => 0, i);
    LengthIsProduct(i, w);
  }

  /** The shadow after the first `i` fields of a `G` packet. */
  ghost function PartWritten(s: Cpu, pkt: string, regn: nat, n: nat, i: nat): Cpu
    requires |pkt| == Length(regn, 2 * n) && i <= regn
  {
    SetRegs(s, Split(pkt, regn, 2 * n, FieldValue)[..i])
  }

  lemma SetRegsExtends(s: Cpu, vals: seq<nat>, i: nat)
    requires i < |vals|
    ensures SetRegs(s, vals[..i + 1]) == Set(SetRegs(s, vals[..i]), RegWriteOf(|s.gpr|, i, vals[i]))
  {
    assert vals[..i + 1][..i] == vals[..i];
  }

  lemma PartWrittenExtends(s: Cpu, pkt: string, regn: nat, n: nat, i: nat, field: string)
    requires |pkt| == Length(regn, 2 * n) && i < regn && Covers(s, regn)
    requires Length(i + 1, 2 * n) <= |pkt| && field == pkt[Length(i, 2 * n)..Length(i + 1, 2 * n)] && AllHex(field)
    ensures PartWritten(s, pkt, regn, n, i + 1) ==
            Set(PartWritten(s, pkt, regn, n, i), RegWriteOf(|s.gpr|, i, Swap(Parse(field), n)))
  {
    SplitAt(pkt, regn, 2 * n, FieldValue, i);
    SwappedParse(field, n);
    SetRegsExtends(s, Split(pkt, regn, 2 * n, FieldValue), i);
  }

  lemma AllWritten(s: Cpu, pkt: string, regn: nat, n: nat)
    requires |pkt| == Length(regn, 2 * n) == regn * (2 * n)
    ensures PartWritten(s, pkt, regn, n, 0) == s
    ensures PartWritten(s, pkt, regn, n, regn) == RegsWritten(s, pkt, regn, n)
  {
    var vals := Split(pkt, regn, 2 * n, FieldValue);
    assert vals[..regn] == vals && vals[..0] == [];
  }

  /** The `G` packet, without its command letter. */
  method RegWriteAll(shd: GdbShadow, regn: nat, n: nat, pkt: string)
    requires shd.Valid() && Covers(shd.View(), regn)
    requires |pkt| == regn * (2 * n) && AllHex(pkt)
    modifies shd`pc, shd.gpr, shd.csr
    ensures shd.Valid()
    ensures shd.View() == RegsWritten(old(shd.View()), pkt, regn, n)
  {
    var len := 2 * n;
    ghost var s := shd.View();
    LengthIsProduct(regn, len);
    AllWritten(s, pkt, regn, n);
    for i := 0 to regn
      invariant shd.Valid() && shd.View() == PartWritten(s, pkt, regn, n, i)
    {
      FieldIsHex(pkt, regn, len, i);
      var field := pkt[i * len..i * len + len];
      PartWrittenExtends(s, pkt, regn, n, i, field);
      shd.RegWrite(i, Swap(Parse(field), n));
    }
  }

  // ---------- points ----------

  /** The `Z` and `z` packets. */
  method PointPacket(shd: GdbShadow, command: char, ptype: nat, addr: Size, pkind: nat)
    modifies shd`bpt, shd`wpt
    ensures shd.Points() ==
            match command
            case 'Z' => ApplyEdit(old(shd.Points()), Insert(ptype, addr, pkind))
            case 'z' => ApplyEdit(old(shd.Points()), Remove(ptype, addr, pkind))
            case _ => old(shd.Points())
  {
    if command == 'z' {
      var _ := shd.PointRemove(ptype, addr, pkind);
    } else if command == 'Z' {
      var _ := shd.PointInsert(ptype, addr, pkind);
    }
  }
}
