/**
 The memory packets `m` and `M` and the register packets `g` and `G`, served from the shadow.
 */
module AccessPackets {
  import opened MemoryMap
  import opened ShadowState
  import opened Points
  import opened Hex
  import opened Fields

  // ---------- memory ----------

  /** The byte a one-byte read returns: an absent I/O register reads as zero. */
  function Seen(mmap: seq<Block>, s: Cpu, a: Size): Byte {
    At(Load(mmap, s, a, 1), 0)
  }

  /** What is seen at an address: the byte of its block, or the first byte of its I/O register, zero if it has none. */
  lemma SeenIsTheByte(mmap: seq<Block>, s: Cpu, a: Size)
    requires LaidOut(mmap, s)
    ensures match Decode(mmap, a)
            case Some(c) => c.blk < |s.mem| && c.off < |s.mem[c.blk]| && Seen(mmap, s, a) == s.mem[c.blk][c.off]
            case None => Seen(mmap, s, a) == if a in s.io then s.io[a][0] else 0
  {
    OneByteFits(mmap, a);
    match Decode(mmap, a)
    case None =>
    case Some(c) => assert Load(mmap, s, a, 1)[0] == ByteOf(s, c.blk, c.off + 0);
  }

  /** The bytes an `m` packet shows, the address wrapping around. */
  function SeenRange(mmap: seq<Block>, s: Cpu, adr: Size, len: nat): seq<Byte> {
    seq<Byte>(len, i requires 0 <= i < len => Seen(mmap, s, ToSize(adr + i)))
  }

  /** How far `x` lies above `adr`, counting through the wrap-around. */
  function Distance(adr: Size, x: Size): nat {
    if adr <= x then x - adr else x + ADDRESS_SPACE - adr
  }

  lemma DistanceIsOffset(adr: Size, x: Size, i: nat)
    requires i < ADDRESS_SPACE
    ensures ToSize(adr + i) == x <==> i == Distance(adr, x)
  {
  }

  lemma OneByteFits(mmap: seq<Block>, a: Size)
    ensures Fits(mmap, a, 1)
  {
    DecodeIsFirstHit(mmap, a);
    if Decode(mmap, a).Some? {
      HitIsInside(mmap[Decode(mmap, a).value.blk], a);
    }
  }

  lemma StoreByteShape(mmap: seq<Block>, s: Cpu, a: Size, b: Byte)
    requires LaidOut(mmap, s)
    ensures LaidOut(mmap, Apply(s, StoreLog(mmap, a, [b])))
  {
    ApplyGet(s, StoreLog(mmap, a, [b]), PcLoc);
  }

  /** Storing one byte changes what is seen at its address and nowhere else, in any map. */
  lemma StoreByteIsSeen(mmap: seq<Block>, s: Cpu, a: Size, b: Byte, x: Size)
    requires LaidOut(mmap, s)
    ensures Seen(mmap, Apply(s, StoreLog(mmap, a, [b])), x) == if x == a then b else Seen(mmap, s, x)
  {
    var log := StoreLog(mmap, a, [b]);
    var t := Apply(s, log);
    OneByteFits(mmap, a);
    if x == a {
      StoreReadsBack(mmap, s, a, [b]);
    } else {
      match Decode(mmap, x)
      case None =>
        ApplyGet(s, log, IoLoc(x));
        LastIsListed(log, IoLoc(x));
        assert Get(t, IoLoc(x)) == Get(s, IoLoc(x));
      case Some(c) =>
        DecodeIsInjective(mmap, x, a);
        OneByteFits(mmap, x);
        ApplyGet(s, log, MemLoc(c.blk, c.off));
        LastIsListed(log, MemLoc(c.blk, c.off));
        assert Get(t, MemLoc(c.blk, c.off)) == Get(s, MemLoc(c.blk, c.off));
        assert Load(mmap, t, x, 1)[0] == ByteOf(t, c.blk, c.off + 0);
        assert Load(mmap, s, x, 1)[0] == ByteOf(s, c.blk, c.off + 0);
    }
  }

  /**
   After an `M` packet the written range shows the written bytes and every other address what it showed
   before; blocks may overlap, the range may cross blocks, leave them or wrap around.
   */
  lemma {:induction false} WrittenBytesAreSeen(mmap: seq<Block>, s: Cpu, adr: Size, dat: seq<Byte>, x: Size)
    requires LaidOut(mmap, s) && |dat| <= ADDRESS_SPACE
    ensures var t := StoreEach(mmap, s, adr, dat);
            && LaidOut(mmap, t)
            && Seen(mmap, t, x) == if Distance(adr, x) < |dat| then dat[Distance(adr, x)] else Seen(mmap, s, x)
    decreases |dat|
  {
    if dat != [] {
      var n := |dat| - 1;
      var t := StoreEach(mmap, s, adr, dat[..n]);
      WrittenBytesAreSeen(mmap, s, adr, dat[..n], x);
      NextByteIsSeen(mmap, t, adr, n, dat[n], x);
      StoreEachExtends(mmap, s, adr, dat, n);
      assert dat[..n + 1] == dat;
    }
  }

  lemma NextByteIsSeen(mmap: seq<Block>, t: Cpu, adr: Size, n: nat, b: Byte, x: Size)
    requires LaidOut(mmap, t) && n < ADDRESS_SPACE
    ensures var u := Apply(t, StoreLog(mmap, adr + n, [b]));
            LaidOut(mmap, u) && Seen(mmap, u, x) == if Distance(adr, x) == n then b else Seen(mmap, t, x)
  {
    var a := ToSize(adr + n);
    assert StoreLog(mmap, adr + n, [b]) == StoreLog(mmap, a, [b]);
    StoreByteShape(mmap, t, a, b);
    StoreByteIsSeen(mmap, t, a, b, x);
    DistanceIsOffset(adr, x, n);
  }

  lemma WrittenRangeIsSeen(mmap: seq<Block>, s: Cpu, adr: Size, dat: seq<Byte>)
    requires LaidOut(mmap, s) && |dat| <= ADDRESS_SPACE
    ensures SeenRange(mmap, StoreEach(mmap, s, adr, dat), adr, |dat|) == dat
  {
    var t := StoreEach(mmap, s, adr, dat);
    forall i | 0 <= i < |dat| ensures Seen(mmap, t, ToSize(adr + i)) == dat[i] {
      WrittenBytesAreSeen(mmap, s, adr, dat, ToSize(adr + i));
      DistanceIsOffset(adr, ToSize(adr + i), i);
    }
  }

  /** `M` then `m` of the same range: the reply is the written text in lower case. */
  lemma MemoryRoundTrip(mmap: seq<Block>, s: Cpu, adr: Size, len: Size, text: string)
    requires LaidOut(mmap, s)
    requires |text| == 2 * len && AllHex(text)
    ensures HexOf(SeenRange(mmap, StoreEach(mmap, s, adr, BytesOf(text)), adr, len)) == Lower(text)
  {
    WrittenRangeIsSeen(mmap, s, adr, BytesOf(text));
    HexOfBytesOf(text, len);
  }

  // ---------- register text ----------

  /** A register of `n` bytes in a packet: its bytes in hexadecimal, least significant first. */
  function FieldText(n: nat): nat -> string {
    (v: nat) => HexOf(ToLE(v, n))
  }

  function FieldValue(f: string): nat {
    if AllHex(f) then FromLE(BytesOf(f)) else 0
  }

  lemma FieldRoundTrip(f: string, n: nat)
    requires |f| == 2 * n && AllHex(f)
    ensures FieldText(n)(FieldValue(f)) == Lower(f)
  {
    ToFromLE(BytesOf(f));
    HexOfBytesOf(f, n);
  }

  lemma ValueRoundTrip(v: nat, n: nat)
    requires v < Pow256(n)
    ensures |FieldText(n)(v)| == 2 * n && FieldValue(FieldText(n)(v)) == v
  {
    BytesOfHexOf(ToLE(v, n));
    FromToLE(v, n);
  }

  // ---------- the register file ----------

  /** The shadow has at least `regn` registers: the general purpose ones, the program counter, then CSRs. */
  predicate Covers(s: Cpu, regn: nat) {
    regn <= |s.gpr| + 1 + |s.csr|
  }

  function RegAt(s: Cpu, i: nat): nat
    requires Covers(s, i + 1)
  {
    Get(s, RegLoc(|s.gpr|, i)).w
  }

  /** Register numbers: x0 is 0, the PC comes after the last general purpose register, then the CSRs. */
  lemma RegAtIsField(s: Cpu, i: nat)
    requires Covers(s, i + 1)
    ensures RegAt(s, i) ==
            if i < |s.gpr| then s.gpr[i] else if i == |s.gpr| then s.pc else s.csr[i - 1 - |s.gpr|]
  {
  }

  function Regs(s: Cpu, regn: nat): seq<nat>
    requires Covers(s, regn)
  {
    seq(regn, i requires 0 <= i < regn => RegAt(s, i))
  }

  function SetRegs(s: Cpu, vals: seq<nat>): Cpu {
    if vals == [] then s
    else Set(SetRegs(s, vals[..|vals| - 1]), RegWriteOf(|s.gpr|, |vals| - 1, vals[|vals| - 1]))
  }

  lemma SetRegGet(s: Cpu, i: nat, v: nat, j: nat)
    requires Covers(s, i + 1) && Covers(s, j + 1)
    ensures var t := Set(s, RegWriteOf(|s.gpr|, i, v));
            |t.gpr| == |s.gpr| && |t.csr| == |s.csr| && t.mem == s.mem && t.io == s.io
            && RegAt(t, j) == if i == j then v else RegAt(s, j)
  {
  }

  /** Writing the first registers sets each to its value and leaves the rest of the shadow alone. */
  lemma {:induction false} SetRegsGet(s: Cpu, vals: seq<nat>, j: nat)
    requires Covers(s, |vals|) && Covers(s, j + 1)
    ensures var t := SetRegs(s, vals);
            && |t.gpr| == |s.gpr| && |t.csr| == |s.csr| && t.mem == s.mem && t.io == s.io
            && RegAt(t, j) == if j < |vals| then vals[j] else RegAt(s, j)
  {
    if vals != [] {
      var k := |vals| - 1;
      SetRegsGet(s, vals[..k], j);
      SetRegGet(SetRegs(s, vals[..k]), k, vals[k], j);
    }
  }

  /** Written in turn, the values fill the general purpose registers, then the PC, then the CSRs. */
  lemma {:induction false} SetRegsFields(s: Cpu, vals: seq<nat>, i: nat)
    requires Covers(s, |vals|)
    ensures var t, n := SetRegs(s, vals), |s.gpr|;
            && |t.gpr| == n && |t.csr| == |s.csr| && t.mem == s.mem && t.io == s.io
            && t.pc == (if n < |vals| then vals[n] else s.pc)
            && (i < n ==> t.gpr[i] == if i < |vals| then vals[i] else s.gpr[i])
            && (i < |s.csr| ==> t.csr[i] == if n + 1 + i < |vals| then vals[n + 1 + i] else s.csr[i])
  {
    if vals != [] {
      SetRegsFields(s, vals[..|vals| - 1], i);
    }
  }

  lemma SetRegToItself(s: Cpu, i: nat)
    requires Covers(s, i + 1)
    ensures Set(s, RegWriteOf(|s.gpr|, i, RegAt(s, i))) == s
  {
  }

  lemma {:induction false} SetRegsToThemselves(s: Cpu, regn: nat)
    requires Covers(s, regn)
    ensures SetRegs(s, Regs(s, regn)) == s
  {
    if regn > 0 {
      SetRegsToThemselves(s, regn - 1);
      SetRegToItself(s, regn - 1);
      assert Regs(s, regn)[..regn - 1] == Regs(s, regn - 1);
    }
  }

  /** The `g` reply. */
  function RegsText(s: Cpu, regn: nat, n: nat): string
    requires Covers(s, regn)
  {
    Join(Regs(s, regn), FieldText(n))
  }

  /** The effect of a `G` packet. */
  function RegsWritten(s: Cpu, text: string, regn: nat, n: nat): Cpu
    requires |text| == regn * (2 * n)
  {
    LengthIsProduct(regn, 2 * n);
    SetRegs(s, Split(text, regn, 2 * n, FieldValue))
  }

  /** `G` then `g`: the reply is the written text in lower case, for every register count. */
  lemma RegistersRoundTrip(s: Cpu, text: string, regn: nat, n: nat)
    requires |text| == regn * (2 * n) && AllHex(text) && Covers(s, regn)
    ensures var t := RegsWritten(s, text, regn, n);
            Covers(t, regn) && RegsText(t, regn, n) == Lower(text)
  {
    LengthIsProduct(regn, 2 * n);
    var vals := Split(text, regn, 2 * n, FieldValue);
    var t := SetRegs(s, vals);
    SetRegsGet(s, vals, 0);
    forall j | 0 <= j < regn ensures RegAt(t, j) == vals[j] {
      SetRegsGet(s, vals, j);
    }
    assert Regs(t, regn) == vals;
    forall f | |f| == 2 * n && AllHex(f) ensures Restores(f, FieldText(n), FieldValue) {
      FieldRoundTrip(f, n);
    }
    JoinOfSplit(text, regn, 2 * n, FieldText(n), FieldValue);
  }

  /** Writing back a `g` reply changes nothing, provided registers hold values of `n` bytes. */
  lemma WritingBackChangesNothing(s: Cpu, regn: nat, n: nat)
    requires Covers(s, regn) && forall i :: 0 <= i < regn ==> RegAt(s, i) < Pow256(n)
    ensures var text := RegsText(s, regn, n);
            |text| == regn * (2 * n) && RegsWritten(s, text, regn, n) == s
  {
    LengthIsProduct(regn, 2 * n);
    var vals := Regs(s, regn);
    forall i | 0 <= i < regn
      ensures |FieldText(n)(vals[i])| == 2 * n && FieldValue(FieldText(n)(vals[i])) == vals[i]
    {
      ValueRoundTrip(vals[i], n);
    }
    SplitOfJoin(vals, 2 * n, FieldText(n), FieldValue);
    SetRegsToThemselves(s, regn);
  }

  // ---------- packets, digit by digit ----------

  /** The two characters of a text from `at` on spell a byte in lower case. */
  ghost predicate Spells(text: string, at: nat, b: Byte) {
    && at + 1 < |text|
    && text[at] == "0123456789abcdef"[b / 16] && text[at + 1] == "0123456789abcdef"[b % 16]
  }

  /** Byte `j` of a register in its field of a `g` reply. */
  lemma FieldTextSpells(v: nat, n: nat, j: nat)
    requires j < n
    ensures |FieldText(n)(v)| == 2 * n && Spells(FieldText(n)(v), 2 * j, v / Pow256(j) % 256)
  {
    ToLEAt(v, n, j);
    HexOfAt(ToLE(v, n), j);
  }

  /** Field `i` of a `g` reply. */
  lemma RegReplyField(s: Cpu, regn: nat, n: nat, i: nat)
    requires Covers(s, regn) && i < regn
    ensures var text, lo := RegsText(s, regn, n), i * (2 * n);
            && |text| == regn * (2 * n) && lo + 2 * n <= |text|
            && text[lo..lo + 2 * n] == FieldText(n)(RegAt(s, i))
  {
    LengthIsProduct(i, 2 * n);
    LengthIsProduct(regn, 2 * n);
    JoinAt(Regs(s, regn), 2 * n, FieldText(n), i);
  }

  /** Byte `j` of the value that a field of a `G` packet spells. */
  lemma FieldDigits(f: string, n: nat, j: nat)
    requires |f| == 2 * n && AllHex(f) && j < n
    ensures FieldValue(f) < Pow256(n)
    ensures FieldValue(f) / Pow256(j) % 256 == 16 * Digit(f[2 * j]) + Digit(f[2 * j + 1])
  {
    BytesOfDigits(f, n, j);
    NumberBytes(BytesOf(f), j);
  }

  lemma NumberBytes(d: seq<Byte>, j: nat)
    requires j < |d|
    ensures FromLE(d) < Pow256(|d|) && FromLE(d) / Pow256(j) % 256 == d[j]
  {
    ToFromLE(d);
    ToLEAt(FromLE(d), |d|, j);
  }

  /** Field `i` of a `G` packet is the value its register gets. */
  lemma RegsWrittenField(s: Cpu, text: string, regn: nat, n: nat, i: nat)
    requires |text| == regn * (2 * n) && AllHex(text) && Covers(s, regn) && i < regn
    ensures var t, lo := RegsWritten(s, text, regn, n), i * (2 * n);
            && Covers(t, regn) && lo + 2 * n <= |text| && AllHex(text[lo..lo + 2 * n])
            && RegAt(t, i) == FieldValue(text[lo..lo + 2 * n])
  {
    LengthIsProduct(regn, 2 * n);
    LengthIsProduct(i, 2 * n);
    var vals := Split(text, regn, 2 * n, FieldValue);
    SplitAt(text, regn, 2 * n, FieldValue, i);
    SetRegsGet(s, vals, i);
  }

  /** Byte `i` of an `m` reply. */
  lemma MemReplyDigits(mmap: seq<Block>, s: Cpu, adr: Size, len: nat, i: nat)
    requires i < len
    ensures var text := HexOf(SeenRange(mmap, s, adr, len));
            |text| == 2 * len && Spells(text, 2 * i, Seen(mmap, s, (adr + i) % 0x1_0000_0000))
  {
    var seen := SeenRange(mmap, s, adr, len);
    assert seen[i] == Seen(mmap, s, ToSize(adr + i));
    assert ToSize(adr + i) == (adr + i) % 0x1_0000_0000;
    HexOfSpells(seen, i);
  }

  lemma HexOfSpells(d: seq<Byte>, i: nat)
    requires i < |d|
    ensures Spells(HexOf(d), 2 * i, d[i])
  {
    HexOfAt(d, i);
  }

  /** What is seen at byte `i` of the range after an `M` packet, from its two digits. */
  lemma MemWrittenDigits(mmap: seq<Block>, s: Cpu, adr: Size, len: Size, text: string, i: nat)
    requires LaidOut(mmap, s) && |text| == 2 * len && AllHex(text) && i < len
    ensures Seen(mmap, StoreEach(mmap, s, adr, BytesOf(text)), (adr + i) % 0x1_0000_0000) ==
            16 * Digit(text[2 * i]) + Digit(text[2 * i + 1])
  {
    var x: Size := (adr + i) % 0x1_0000_0000;
    WrittenBytesAreSeen(mmap, s, adr, BytesOf(text), x);
    DistanceIsOffset(adr, x, i);
    BytesOfDigits(text, len, i);
  }
}
