/**
 Block memory as a flat byte map: with disjoint blocks, first-match decoding and slices behave as one array
 of bytes indexed by address.
 */
module FlatMemory {
  import opened Wrappers
  import opened MemoryMap
  import opened ShadowState

  /** The byte the debugger sees at a mapped address. */
  function Flat(mmap: seq<Block>, s: Cpu, a: Size): Option<Byte> {
    match Decode(mmap, a)
    case None => None
    case Some(c) => Some(ByteOf(s, c.blk, c.off))
  }

  lemma StoreLogSplits(mmap: seq<Block>, a: Size, dat: seq<Byte>, b: Byte)
    requires Disjoint(mmap)
    requires Decode(mmap, a).Some? && Fits(mmap, a, |dat| + 1)
    ensures StoreLog(mmap, a, dat + [b]) == StoreLog(mmap, a, dat) + StoreLog(mmap, a + |dat|, [b])
  {
    var c, n := Decode(mmap, a).value, |dat|;
    DecodeAlongBlock(mmap, a, n);
    ByteLogExtends(c, dat, b);
    assert ByteLog(Cell(c.blk, c.off + n), [b]) == [SetByte(c.blk, c.off + n, b)];
  }

  /** The writes of a store made one address at a time. */
  function EachLog(mmap: seq<Block>, a: nat, dat: seq<Byte>): seq<Write> {
    if dat == [] then [] else EachLog(mmap, a, dat[..|dat| - 1]) + StoreLog(mmap, a + |dat| - 1, [dat[|dat| - 1]])
  }

  lemma {:induction false} StoreEachIsEachLog(mmap: seq<Block>, s: Cpu, a: nat, dat: seq<Byte>)
    ensures StoreEach(mmap, s, a, dat) == Apply(s, EachLog(mmap, a, dat))
  {
    if dat != [] {
      var n := |dat| - 1;
      StoreEachIsEachLog(mmap, s, a, dat[..n]);
      ApplyConcat(s, EachLog(mmap, a, dat[..n]), StoreLog(mmap, a + n, [dat[n]]));
    }
  }

  lemma {:induction false} EachLogIsStoreLog(mmap: seq<Block>, a: Size, dat: seq<Byte>)
    requires Disjoint(mmap)
    requires Decode(mmap, a).Some? && Fits(mmap, a, |dat|)
    ensures EachLog(mmap, a, dat) == StoreLog(mmap, a, dat)
  {
    if dat == [] {
      assert StoreLog(mmap, a, dat) == [];
    } else {
      var d, b := dat[..|dat| - 1], dat[|dat| - 1];
      assert dat == d + [b];
      EachLogIsStoreLog(mmap, a, d);
      StoreLogSplits(mmap, a, d, b);
      EachLogExtends(mmap, a, d, b);
    }
  }

  lemma EachLogExtends(mmap: seq<Block>, a: nat, dat: seq<Byte>, b: Byte)
    ensures EachLog(mmap, a, dat + [b]) == EachLog(mmap, a, dat) + StoreLog(mmap, a + |dat|, [b])
  {
    assert (dat + [b])[..|dat|] == dat;
  }

  /** In a map of disjoint blocks a store of many bytes is the stores of its bytes, one address at a time. */
  lemma StoreIsByteByByte(mmap: seq<Block>, s: Cpu, a: Size, dat: seq<Byte>)
    requires Disjoint(mmap)
    requires Decode(mmap, a).Some? && Fits(mmap, a, |dat|)
    ensures Apply(s, StoreLog(mmap, a, dat)) == StoreEach(mmap, s, a, dat)
  {
    StoreEachIsEachLog(mmap, s, a, dat);
    EachLogIsStoreLog(mmap, a, dat);
  }

  /** A stored range holds its bytes at the locations its addresses decode to. */
  lemma StoredByte(mmap: seq<Block>, s: Cpu, a: Size, dat: seq<Byte>, x: Size)
    requires Disjoint(mmap) && LaidOut(mmap, s)
    requires Decode(mmap, a).Some? && Fits(mmap, a, |dat|) && a <= x < a + |dat|
    ensures Flat(mmap, Apply(s, StoreLog(mmap, a, dat)), x) == Some(dat[x - a])
  {
    StoreReadsBack(mmap, s, a, dat);
    LoadIsFlat(mmap, Apply(s, StoreLog(mmap, a, dat)), a, |dat|, x - a);
  }

  /** No other address decodes to a location of the range. */
  lemma KeptByte(mmap: seq<Block>, s: Cpu, a: Size, dat: seq<Byte>, x: Size)
    requires LaidOut(mmap, s)
    requires Decode(mmap, a).Some? && !(a <= x < a + |dat|)
    ensures Flat(mmap, Apply(s, StoreLog(mmap, a, dat)), x) == Flat(mmap, s, x)
  {
    var log := StoreLog(mmap, a, dat);
    DecodeIsFirstHit(mmap, a);
    DecodeIsFirstHit(mmap, x);
    if Decode(mmap, x).Some? {
      var d := Decode(mmap, x).value;
      HitIsInside(mmap[d.blk], x);
      ApplyGet(s, log, MemLoc(d.blk, d.off));
      LastIsListed(log, MemLoc(d.blk, d.off));
      assert Get(Apply(s, log), MemLoc(d.blk, d.off)) == Get(s, MemLoc(d.blk, d.off));
    }
  }

  /** Block memory behaves as one flat byte map: the stored range reads back, every other byte is kept. */
  lemma StoreRefinesFlatMemory(mmap: seq<Block>, s: Cpu, a: Size, dat: seq<Byte>, x: Size)
    requires Disjoint(mmap) && LaidOut(mmap, s)
    requires Decode(mmap, a).Some? && Fits(mmap, a, |dat|)
    ensures var t := Apply(s, StoreLog(mmap, a, dat));
            && LaidOut(mmap, t) && t.io == s.io && t.gpr == s.gpr && t.csr == s.csr && t.pc == s.pc
            && (Flat(mmap, t, x) == if a <= x < a + |dat| then Some(dat[x - a]) else Flat(mmap, s, x))
            && Load(mmap, t, a, |dat|) == dat
  {
    StoreLogKeepsRegisters(s, StoreLog(mmap, a, dat));
    StoreReadsBack(mmap, s, a, dat);
    if a <= x < a + |dat| {
      StoredByte(mmap, s, a, dat, x);
    } else {
      KeptByte(mmap, s, a, dat, x);
    }
  }

  lemma {:induction false} StoreLogKeepsRegisters(s: Cpu, log: seq<Write>)
    requires forall i :: 0 <= i < |log| ==> log[i].SetByte?
    ensures var t := Apply(s, log);
            SameShape(s, t) && t.io == s.io && t.gpr == s.gpr && t.csr == s.csr && t.pc == s.pc
  {
    if log != [] {
      StoreLogKeepsRegisters(s, log[..|log| - 1]);
    }
  }

  /** Reading a range of a block reads the flat bytes of its addresses. */
  lemma LoadIsFlat(mmap: seq<Block>, s: Cpu, a: Size, n: nat, k: nat)
    requires Disjoint(mmap) && Decode(mmap, a).Some? && Fits(mmap, a, n) && k < n
    ensures a + k < ADDRESS_SPACE && |Load(mmap, s, a, n)| == n
    ensures Flat(mmap, s, a + k) == Some(Load(mmap, s, a, n)[k])
  {
    DecodeAlongBlock(mmap, a, k);
    var c := Decode(mmap, a).value;
    assert Load(mmap, s, a, n)[k] == ByteOf(s, c.blk, c.off + k);
  }

  datatype Store = Store(a: Size, dat: seq<Byte>)

  predicate InBlock(mmap: seq<Block>, w: Store) {
    Decode(mmap, w.a).Some? && Fits(mmap, w.a, |w.dat|)
  }

  predicate Touches(w: Store, x: Size) {
    w.a <= x < w.a + |w.dat|
  }

  function StoreAll(mmap: seq<Block>, s: Cpu, ws: seq<Store>): Cpu {
    if ws == [] then s
    else Apply(StoreAll(mmap, s, ws[..|ws| - 1]), StoreLog(mmap, ws[|ws| - 1].a, ws[|ws| - 1].dat))
  }

  /** The last store of a sequence that touches an address: its index, or -1 if there is none. */
  ghost predicate IsLatest(ws: seq<Store>, x: Size, i: int) {
    && -1 <= i < |ws|
    && (i >= 0 ==> Touches(ws[i], x))
    && forall j :: i < j < |ws| ==> !Touches(ws[j], x)
  }

  lemma {:induction false} StoreAllKeepsLayout(mmap: seq<Block>, s: Cpu, ws: seq<Store>)
    requires LaidOut(mmap, s)
    ensures LaidOut(mmap, StoreAll(mmap, s, ws))
  {
    if ws != [] {
      var n := |ws| - 1;
      StoreAllKeepsLayout(mmap, s, ws[..n]);
      ApplyGet(StoreAll(mmap, s, ws[..n]), StoreLog(mmap, ws[n].a, ws[n].dat), PcLoc);
    }
  }

  lemma OneMoreStore(mmap: seq<Block>, s: Cpu, w: Store, t: Cpu, x: Size)
    requires Disjoint(mmap) && LaidOut(mmap, s) && InBlock(mmap, w)
    requires t == Apply(s, StoreLog(mmap, w.a, w.dat))
    ensures Flat(mmap, t, x) == if Touches(w, x) then Some(w.dat[x - w.a]) else Flat(mmap, s, x)
  {
    StoreRefinesFlatMemory(mmap, s, w.a, w.dat, x);
  }

  lemma StoreAllStep(mmap: seq<Block>, s: Cpu, ws: seq<Store>, k: nat)
    requires k < |ws|
    ensures StoreAll(mmap, s, ws[..k + 1]) == Apply(StoreAll(mmap, s, ws[..k]), StoreLog(mmap, ws[k].a, ws[k].dat))
  {
    assert ws[..k + 1][..k] == ws[..k];
  }

  /** Store `k` leads from state `k` to state `k + 1`. */
  ghost predicate StoresAt(mmap: seq<Block>, states: seq<Cpu>, ws: seq<Store>, k: nat)
    requires |states| == |ws| + 1 && k < |ws|
  {
    && LaidOut(mmap, states[k]) && InBlock(mmap, ws[k])
    && states[k + 1] == Apply(states[k], StoreLog(mmap, ws[k].a, ws[k].dat))
  }

  /** A cell that each touching store overwrites ends up with the latest byte; `vals` are its values in turn. */
  lemma {:induction false} LatestWins(ws: seq<Store>, vals: seq<Option<Byte>>, x: Size, i: int)
    requires |vals| == |ws| + 1 && IsLatest(ws, x, i)
    requires forall k :: 0 <= k < |ws| ==>
               vals[k + 1] == if Touches(ws[k], x) then Some(ws[k].dat[x - ws[k].a]) else vals[k]
    ensures vals[|ws|] == if i >= 0 then Some(ws[i].dat[x - ws[i].a]) else vals[0]
    decreases |ws|
  {
    var n := |ws| - 1;
    if ws != [] {
      assert vals[n + 1] == if Touches(ws[n], x) then Some(ws[n].dat[x - ws[n].a]) else vals[n];
      if i < n {
        LatestWins(ws[..n], vals[..n + 1], x, i);
      }
    }
  }

  lemma LatestStoreOfStates(mmap: seq<Block>, states: seq<Cpu>, ws: seq<Store>, x: Size, i: int)
    requires Disjoint(mmap) && |states| == |ws| + 1 && IsLatest(ws, x, i)
    requires forall k {:trigger StoresAt(mmap, states, ws, k)} :: 0 <= k < |ws| ==> StoresAt(mmap, states, ws, k)
    ensures Flat(mmap, states[|ws|], x) ==
            if i >= 0 then Some(ws[i].dat[x - ws[i].a]) else Flat(mmap, states[0], x)
  {
    var vals := seq(|ws| + 1, k requires 0 <= k <= |ws| => Flat(mmap, states[k], x));
    forall k | 0 <= k < |ws|
      ensures vals[k + 1] == if Touches(ws[k], x) then Some(ws[k].dat[x - ws[k].a]) else vals[k]
    {
      assert StoresAt(mmap, states, ws, k);
      OneMoreStore(mmap, states[k], ws[k], states[k + 1], x);
    }
    LatestWins(ws, vals, x, i);
  }

  /** After any sequence of block stores every mapped address holds the byte of the latest store to it. */
  lemma LatestStoreIsSeen(mmap: seq<Block>, s: Cpu, ws: seq<Store>, x: Size, i: int)
    requires Disjoint(mmap) && LaidOut(mmap, s)
    requires forall j {:trigger InBlock(mmap, ws[j])} :: 0 <= j < |ws| ==> InBlock(mmap, ws[j])
    requires IsLatest(ws, x, i)
    ensures Flat(mmap, StoreAll(mmap, s, ws), x) == if i >= 0 then Some(ws[i].dat[x - ws[i].a]) else Flat(mmap, s, x)
  {
    var states := seq(|ws| + 1, k requires 0 <= k <= |ws| => StoreAll(mmap, s, ws[..k]));
    forall k | 0 <= k < |ws| ensures StoresAt(mmap, states, ws, k) {
      assert InBlock(mmap, ws[k]);
      StoreAllStep(mmap, s, ws, k);
      StoreAllKeepsLayout(mmap, s, ws[..k]);
    }
    LatestStoreOfStates(mmap, states, ws, x, i);
    assert ws[..|ws|] == ws && ws[..0] == [];
  }
}
