/**
 Time travel of the CPU shadow.

 For each reading of the record guard: exactly when stepping back shows what was shown going forward, exactly when
 every revisit does, for a single location and for the whole shadow, as conditions on what the DUT reports; and
 streams that fail them.
 */
module ShadowHistory {
  import opened Wrappers
  import opened MemoryMap
  import opened ShadowState
  import opened TimeTravel
  import opened Exactness
  import opened Visits

  function ShadowOps(mmap: seq<Block>): Ops<Cpu, Retired> {
    Ops((s, e) => Update(mmap, s, e), (s, e) => Record(mmap, s, e),
        (s, e) => Replay(mmap, s, e), (s, e) => Revert(mmap, s, e))
  }

  // ---------- locations as views ----------

  /** The value of a location, if the shadow has it. */
  function View(l: Loc): Cpu -> Option<Value> {
    s => if Has(s, l) then Some(Get(s, l)) else None
  }

  /** Logs that act alike on shadows that agree in a view. */
  ghost predicate ActAlike<V>(view: Cpu -> V, a: seq<Write>, b: seq<Write>) {
    forall x, y :: view(x) == view(y) ==> view(Apply(x, a)) == view(Apply(y, b))
  }

  lemma LogsActAlike(a: seq<Write>, b: seq<Write>, l: Loc)
    requires AgreeFor(a, b, l)
    ensures ActAlike(View(l), a, b)
  {
    AgreeingLast(a, b, l);
    forall x, y | View(l)(x) == View(l)(y) ensures View(l)(Apply(x, a)) == View(l)(Apply(y, b)) {
      ApplyGet(x, a, l);
      ApplyGet(y, b, l);
    }
  }

  lemma RememberedAgree(isGpr: bool, u: Cpu, v: Cpu, cs: seq<RegChange>, l: Loc)
    requires View(l)(u) == View(l)(v)
    ensures AgreeFor(OldLog(isGpr, Remember(if isGpr then u.gpr else u.csr, cs)),
                     OldLog(isGpr, Remember(if isGpr then v.gpr else v.csr, cs)), l)
  {
    var a := OldLog(isGpr, Remember(if isGpr then u.gpr else u.csr, cs));
    var b := OldLog(isGpr, Remember(if isGpr then v.gpr else v.csr, cs));
    forall i | 0 <= i < |a| && a[i].Loc() == l ensures a[i].Val() == b[i].Val() {
      assert Has(u, l) <==> Has(v, l);
      assert Has(u, l) ==> Get(u, l) == Get(v, l);
    }
  }

  lemma LoadedAgree(mmap: seq<Block>, u: Cpu, v: Cpu, adr: nat, siz: nat, l: Loc)
    requires View(l)(u) == View(l)(v)
    ensures AgreeFor(StoreLog(mmap, adr, Load(mmap, u, adr, siz)), StoreLog(mmap, adr, Load(mmap, v, adr, siz)), l)
  {
    var a, b := StoreLog(mmap, adr, Load(mmap, u, adr, siz)), StoreLog(mmap, adr, Load(mmap, v, adr, siz));
    match Decode(mmap, ToSize(adr))
    case None =>
      assert a[0].Loc() == l ==> Get(u, l) == Get(v, l);
    case Some(c) =>
      forall k | 0 <= k < siz && MemLoc(c.blk, c.off + k) == l
        ensures Load(mmap, u, adr, siz)[k] == Load(mmap, v, adr, siz)[k]
      {
        assert Load(mmap, u, adr, siz)[k] == ByteOf(u, c.blk, c.off + k);
        assert Load(mmap, v, adr, siz)[k] == ByteOf(v, c.blk, c.off + k);
        ByteAgrees(u, v, c.blk, c.off + k);
      }
  }

  lemma ByteAgrees(u: Cpu, v: Cpu, b: nat, o: nat)
    requires View(MemLoc(b, o))(u) == View(MemLoc(b, o))(v)
    ensures ByteOf(u, b, o) == ByteOf(v, b, o)
  {
    var l := MemLoc(b, o);
    assert Has(u, l) <==> Has(v, l);
    assert Has(u, l) ==> Get(u, l) == Get(v, l);
  }

  /** Entries recorded from one instruction against shadows that agree on a location revert alike there. */
  lemma RecordedRevertAgree(mmap: seq<Block>, u: Cpu, v: Cpu, d: Retired, l: Loc)
    requires View(l)(u) == View(l)(v) && u.pc == v.pc == d.ifu.adr
    ensures AgreeFor(RevertLog(mmap, Record(mmap, u, d)), RevertLog(mmap, Record(mmap, v, d)), l)
  {
    var e, f, pc := Record(mmap, u, d), Record(mmap, v, d), [SetPc(d.ifu.adr)];
    RememberedAgree(true, u, v, d.gpr, l);
    RememberedAgree(false, u, v, d.csr, l);
    LoadedAgree(mmap, u, v, d.lsu.adr, |d.lsu.wdt|, l);
    AgreeConcat(pc, pc, OldLog(true, e.gpr), OldLog(true, f.gpr), l);
    AgreeConcat(pc + OldLog(true, e.gpr), pc + OldLog(true, f.gpr), OldLog(false, e.csr), OldLog(false, f.csr), l);
    AgreeConcat(pc + OldLog(true, e.gpr) + OldLog(false, e.csr), pc + OldLog(true, f.gpr) + OldLog(false, f.csr),
                StoreLog(mmap, e.lsu.adr, e.lsu.rdt), StoreLog(mmap, f.lsu.adr, f.lsu.rdt), l);
  }

  lemma RecordedUpdateAgree(mmap: seq<Block>, u: Cpu, v: Cpu, d: Retired, l: Loc)
    requires View(l)(u) == View(l)(v) && u.pc == v.pc == d.ifu.adr
    ensures AgreeFor(UpdateLog(mmap, Record(mmap, u, d)), UpdateLog(mmap, Record(mmap, v, d)), l)
  {
    var e, f, pc := Record(mmap, u, d), Record(mmap, v, d), [SetPc(d.ifu.adr)];
    var a, b := StoreLog(mmap, e.ifu.adr, e.ifu.rdt), StoreLog(mmap, f.ifu.adr, f.ifu.rdt);
    LoadedAgree(mmap, u, v, d.ifu.adr, |d.ifu.rdt|, l);
    RememberedAgree(false, u, v, d.csr, l);
    LoadedAgree(mmap, u, v, d.lsu.adr, |d.lsu.wdt|, l);
    AgreeConcat(a, b, pc, pc, l);
    AgreeConcat(a + pc, b + pc, OldLog(false, e.csr), OldLog(false, f.csr), l);
    AgreeConcat(a + pc + OldLog(false, e.csr), b + pc + OldLog(false, f.csr),
                StoreLog(mmap, e.lsu.adr, e.lsu.rdt), StoreLog(mmap, f.lsu.adr, f.lsu.rdt), l);
  }

  /** Entries whose logs act alike. */
  lemma EntriesActAlike<V>(mmap: seq<Block>, view: Cpu -> V, e: Retired, f: Retired)
    requires ActAlike(view, ReplayLog(mmap, e), ReplayLog(mmap, f))
    requires ActAlike(view, RevertLog(mmap, e), RevertLog(mmap, f))
    requires ActAlike(view, UpdateLog(mmap, e), UpdateLog(mmap, f))
    ensures Alike(ShadowOps(mmap), view, e, f)
  {
  }

  lemma RecordedActAlike(mmap: seq<Block>, u: Cpu, v: Cpu, d: Retired, l: Loc)
    requires View(l)(u) == View(l)(v) && u.pc == v.pc == d.ifu.adr
    ensures Alike(ShadowOps(mmap), View(l), Record(mmap, u, d), Record(mmap, v, d))
  {
    var e, f := Record(mmap, u, d), Record(mmap, v, d);
    RecordIsRecorded(mmap, u, d);
    RecordIsRecorded(mmap, v, d);
    RecordedRevertAgree(mmap, u, v, d, l);
    RecordedUpdateAgree(mmap, u, v, d, l);
    LogsActAlike(ReplayLog(mmap, e), ReplayLog(mmap, f), l);
    LogsActAlike(RevertLog(mmap, e), RevertLog(mmap, f), l);
    LogsActAlike(UpdateLog(mmap, e), UpdateLog(mmap, f), l);
    EntriesActAlike(mmap, View(l), e, f);
  }

  lemma EntryActsAlike(mmap: seq<Block>, e: Retired, l: Loc)
    ensures Alike(ShadowOps(mmap), View(l), e, e)
  {
    LogsActAlike(ReplayLog(mmap, e), ReplayLog(mmap, e), l);
    LogsActAlike(RevertLog(mmap, e), RevertLog(mmap, e), l);
    LogsActAlike(UpdateLog(mmap, e), UpdateLog(mmap, e), l);
    EntriesActAlike(mmap, View(l), e, e);
  }

  lemma ShadowIsLocal(mmap: seq<Block>, l: Loc)
    ensures Local(ShadowOps(mmap), View(l))
  {
    forall e ensures Alike(ShadowOps(mmap), View(l), e, e) {
      EntryActsAlike(mmap, e, l);
    }
    forall s, t, d ensures RecordsAlikeAt(ShadowOps(mmap), View(l), s, t, d) {
      var u, v := Update(mmap, s, d), Update(mmap, t, d);
      UpdateSetsPc(mmap, s, d);
      UpdateSetsPc(mmap, t, d);
      if View(l)(u) == View(l)(v) {
        RecordedActAlike(mmap, u, v, d, l);
      }
    }
  }

  lemma ShadowReplaysFaithfully(mmap: seq<Block>)
    ensures ReplaysFaithfully(ShadowOps(mmap))
  {
    forall s, d, t ensures Replay(mmap, t, Record(mmap, s, d)) == Replay(mmap, t, d) {
      RecordIsRecorded(mmap, s, d);
    }
  }

  // ---------- the conditions, location by location ----------

  /**
   Stepping back over instruction `d` from where `next` was shown restores location `l` of shadow `v`.
   As written: the old value the DUT reports for `l` is the one `v` holds. Otherwise: if the update from `next`
   lists `l`, then with the value `v` holds, unless `d` itself writes `l`.
   */
  ghost predicate CanRevert(g: Guard, mmap: seq<Block>, v: Cpu, d: Retired, next: Retired, l: Loc) {
    Has(v, l) ==>
      match g
      case AsWritten =>
        var listed := Last(ReplayLog(mmap, d) + RevertLog(mmap, d), l);
        listed.Some? ==> listed.value == Get(v, l)
      case _ =>
        var listed := Last(UpdateLog(mmap, next), l);
        Last(ReplayLog(mmap, d), l).None? && listed.Some? ==> listed.value == Get(v, l)
  }

  /**
   Replaying instruction `d` shows location `l` as it was first shown with `next`: the update from `next` lists
   it, if at all, with the value the replay leaves there. The documented update on replay also covers what the
   recorded entry lists.
   */
  ghost predicate CanReenter(g: Guard, mmap: seq<Block>, v: Cpu, d: Retired, next: Retired, l: Loc) {
    var a := Replay(mmap, v, d);
    var listed := Last(UpdateLog(mmap, next), l);
    var again := Last(UpdateLog(mmap, Record(mmap, Update(mmap, a, next), next)), l);
    Has(a, l) && g != AsWritten && listed.Some? && (g == AsDocumented ==> again.None?) ==> listed.value == Get(a, l)
  }

  /** What was first shown at the position after `v`. */
  function Next(g: Guard, mmap: seq<Block>, v: Cpu, d: Retired, next: Retired): Cpu {
    if g == AsWritten then Replay(mmap, v, d) else Update(mmap, Replay(mmap, v, d), next)
  }

  /** Replay and then update, at one location. */
  lemma NextAt(mmap: seq<Block>, v: Cpu, d: Retired, next: Retired, l: Loc)
    requires Has(v, l)
    ensures var a := Replay(mmap, v, d);
            var w := Update(mmap, a, next);
            && Has(a, l) && Has(w, l)
            && (Last(ReplayLog(mmap, d), l).None? ==> Get(a, l) == Get(v, l))
            && Get(w, l) == match Last(UpdateLog(mmap, next), l) case None => Get(a, l) case Some(x) => x
  {
    ApplyGet(v, ReplayLog(mmap, d), l);
    ApplyGet(Replay(mmap, v, d), UpdateLog(mmap, next), l);
  }

  lemma RecordedRevertAt(mmap: seq<Block>, v: Cpu, d: Retired, w: Cpu, l: Loc)
    requires Has(v, l) && Has(w, l)
    ensures var t := Revert(mmap, w, Record(mmap, v, d));
            Has(t, l) && Get(t, l) == if Last(ReplayLog(mmap, d), l).Some? then Get(v, l) else Get(w, l)
  {
    var e := Record(mmap, v, d);
    RecordIsRecorded(mmap, v, d);
    EchoIsSettled(v, RevertLog(mmap, e));
    LastIsListed(ReplayLog(mmap, e), l);
    LastIsListed(RevertLog(mmap, e), l);
    ApplyGet(w, RevertLog(mmap, e), l);
  }

  lemma WrittenRevertAt(mmap: seq<Block>, v: Cpu, d: Retired, l: Loc)
    ensures View(l)(Revert(mmap, Replay(mmap, v, d), d)) ==
            if !Has(v, l) then None
            else match Last(ReplayLog(mmap, d) + RevertLog(mmap, d), l)
                 case None => Some(Get(v, l))
                 case Some(x) => Some(x)
  {
    ApplyConcat(v, ReplayLog(mmap, d), RevertLog(mmap, d));
    ApplyGet(v, ReplayLog(mmap, d) + RevertLog(mmap, d), l);
  }

  lemma RecordedRevertShowsIff(g: Guard, mmap: seq<Block>, v: Cpu, d: Retired, next: Retired, l: Loc)
    requires g != AsWritten
    ensures View(l)(Revert(mmap, Update(mmap, Replay(mmap, v, d), next), Record(mmap, v, d))) == View(l)(v)
            <==> CanRevert(g, mmap, v, d, next, l)
  {
    var w, e := Update(mmap, Replay(mmap, v, d), next), Record(mmap, v, d);
    LogsKeepShape(v, ReplayLog(mmap, d), UpdateLog(mmap, next), RevertLog(mmap, e));
    if Has(v, l) {
      NextAt(mmap, v, d, next, l);
      RecordedRevertAt(mmap, v, d, w, l);
    }
  }

  lemma RevertShowsIff(g: Guard, mmap: seq<Block>, v: Cpu, d: Retired, next: Retired, l: Loc)
    ensures var e := if g == AsWritten then d else Record(mmap, v, d);
            View(l)(Revert(mmap, Next(g, mmap, v, d, next), e)) == View(l)(v) <==> CanRevert(g, mmap, v, d, next, l)
  {
    if g == AsWritten {
      WrittenRevertAt(mmap, v, d, l);
    } else {
      RecordedRevertShowsIff(g, mmap, v, d, next, l);
    }
  }

  lemma RecordedUpdateAt(mmap: seq<Block>, a: Cpu, next: Retired, l: Loc)
    requires Has(a, l)
    ensures var w := Update(mmap, a, next);
            var e := Record(mmap, w, next);
            var t := Update(mmap, a, e);
            && Has(t, l) && Has(w, l)
            && Get(t, l) == if Last(UpdateLog(mmap, e), l).Some? then Get(w, l) else Get(a, l)
  {
    var w := Update(mmap, a, next);
    var e := Record(mmap, w, next);
    UpdateSetsPc(mmap, a, next);
    RecordedUpdateEchoes(mmap, w, next);
    EchoIsSettled(w, UpdateLog(mmap, e));
    ApplyGet(a, UpdateLog(mmap, next), l);
    ApplyGet(a, UpdateLog(mmap, e), l);
  }

  lemma ReenterShowsIff(g: Guard, mmap: seq<Block>, v: Cpu, d: Retired, next: Retired, l: Loc)
    ensures var w := Next(g, mmap, v, d, next);
            var e := if g == AsWritten then next else Record(mmap, w, next);
            View(l)(Reenter(g, ShadowOps(mmap), Replay(mmap, v, d), e)) == View(l)(w)
            <==> CanReenter(g, mmap, v, d, next, l)
  {
    var a, w := Replay(mmap, v, d), Next(g, mmap, v, d, next);
    if !Has(v, l) {
      ApplyGet(v, ReplayLog(mmap, d), l);
      ApplyGet(a, UpdateLog(mmap, next), l);
      ApplyGet(a, UpdateLog(mmap, Record(mmap, w, next)), l);
    } else {
      NextAt(mmap, v, d, next, l);
      if g == AsDocumented {
        RecordedUpdateAt(mmap, a, next, l);
      }
    }
  }

  // ---------- one location, all runs ----------

  /** The shadow first shown at position `k`. */
  ghost function Shown(g: Guard, mmap: seq<Block>, m: Machine<Cpu, Retired>, k: nat): Cpu
    requires k < |m.dut|
  {
    Visited(g, ShadowOps(mmap), m.cpu, m.dut, k)
  }

  ghost predicate CanRevertAt(g: Guard, mmap: seq<Block>, m: Machine<Cpu, Retired>, k: nat, l: Loc)
    requires k + 1 < |m.dut|
  {
    CanRevert(g, mmap, Shown(g, mmap, m, k), m.dut[k], m.dut[k + 1], l)
  }

  ghost predicate CanReenterAt(g: Guard, mmap: seq<Block>, m: Machine<Cpu, Retired>, k: nat, l: Loc)
    requires k + 1 < |m.dut|
  {
    CanReenter(g, mmap, Shown(g, mmap, m, k), m.dut[k], m.dut[k + 1], l)
  }

  lemma LocationShows(g: Guard, mmap: seq<Block>, m: Machine<Cpu, Retired>, k: nat, l: Loc)
    requires k + 1 < |m.dut|
    ensures RevertShows(g, ShadowOps(mmap), View(l), m.cpu, m.dut, k) <==> CanRevertAt(g, mmap, m, k, l)
    ensures ReplayShows(g, ShadowOps(mmap), View(l), m.cpu, m.dut, k) <==> CanReenterAt(g, mmap, m, k, l)
  {
    RevertShowsIff(g, mmap, Shown(g, mmap, m, k), m.dut[k], m.dut[k + 1], l);
    ReenterShowsIff(g, mmap, Shown(g, mmap, m, k), m.dut[k], m.dut[k + 1], l);
  }

  /** Every instruction lets location `l` be stepped back over. */
  ghost predicate Reverts(g: Guard, mmap: seq<Block>, m: Machine<Cpu, Retired>, l: Loc) {
    forall k: nat :: k + 1 < |m.dut| ==> CanRevertAt(g, mmap, m, k, l)
  }

  /** Every instruction lets location `l` be replayed. */
  ghost predicate Reenters(g: Guard, mmap: seq<Block>, m: Machine<Cpu, Retired>, l: Loc) {
    forall k: nat :: k + 1 < |m.dut| ==> CanReenterAt(g, mmap, m, k, l)
  }

  /** Stepping back shows a location as going forward did, exactly when every instruction lets it. */
  lemma LocationBacksIff(g: Guard, mmap: seq<Block>, m: Machine<Cpu, Retired>, l: Loc)
    requires IsStart(m)
    ensures BacksIn(g, ShadowOps(mmap), View(l), m) <==> Reverts(g, mmap, m, l)
  {
    ShadowIsLocal(mmap, l);
    ShadowReplaysFaithfully(mmap);
    BacksIffOnStream(g, ShadowOps(mmap), View(l), m);
    forall k: nat | k + 1 < |m.dut|
      ensures RevertShows(g, ShadowOps(mmap), View(l), m.cpu, m.dut, k) <==> CanRevertAt(g, mmap, m, k, l)
    {
      LocationShows(g, mmap, m, k, l);
    }
  }

  /** All runs agree on a location exactly when every instruction can be walked both ways there. */
  lemma LocationExactIff(g: Guard, mmap: seq<Block>, m: Machine<Cpu, Retired>, l: Loc)
    requires IsStart(m)
    ensures ExactIn(g, ShadowOps(mmap), View(l), m) <==> Reverts(g, mmap, m, l) && Reenters(g, mmap, m, l)
  {
    ShadowIsLocal(mmap, l);
    ShadowReplaysFaithfully(mmap);
    ExactIffOnStream(g, ShadowOps(mmap), View(l), m);
    if ExactIn(g, ShadowOps(mmap), View(l), m) {
      forall k: nat | k + 1 < |m.dut| ensures CanRevertAt(g, mmap, m, k, l) && CanReenterAt(g, mmap, m, k, l) {
        LocationShows(g, mmap, m, k, l);
      }
    }
    if Reverts(g, mmap, m, l) && Reenters(g, mmap, m, l) {
      forall k: nat | k + 1 < |m.dut|
        ensures RevertShows(g, ShadowOps(mmap), View(l), m.cpu, m.dut, k)
        ensures ReplayShows(g, ShadowOps(mmap), View(l), m.cpu, m.dut, k)
      {
        LocationShows(g, mmap, m, k, l);
      }
    }
  }

  /**
   `OnAppend` and `AsDocumented`: all runs agree on the general purpose registers, with no condition on the DUT.
   As written this holds of a register exactly when its old values are reported (`LocationExactIff`).
   */
  lemma GprIsExact(g: Guard, mmap: seq<Block>, m: Machine<Cpu, Retired>, i: nat)
    requires IsStart(m) && g != AsWritten
    ensures ExactIn(g, ShadowOps(mmap), View(GprLoc(i)), m)
  {
    LocationExactIff(g, mmap, m, GprLoc(i));
    forall k: nat | k + 1 < |m.dut|
      ensures CanRevertAt(g, mmap, m, k, GprLoc(i)) && CanReenterAt(g, mmap, m, k, GprLoc(i))
    {
      UpdateKeepsGpr(mmap, m.cpu, m.dut[k + 1], i);
    }
  }

  // ---------- the documented update on replay ----------

  /** Which parts of an entry list a location for update. */
  lemma UpdateLists(mmap: seq<Block>, r: Retired, l: Loc)
    ensures Last(UpdateLog(mmap, r), l).Some? <==>
            || Last(StoreLog(mmap, r.ifu.adr, r.ifu.rdt), l).Some?
            || l == PcLoc
            || Last(OldLog(false, r.csr), l).Some?
            || Last(StoreLog(mmap, r.lsu.adr, r.lsu.rdt), l).Some?
  {
    var a, pc := StoreLog(mmap, r.ifu.adr, r.ifu.rdt), [SetPc(r.ifu.adr)];
    var b, c := OldLog(false, r.csr), StoreLog(mmap, r.lsu.adr, r.lsu.rdt);
    LastIsListed(pc, l);
    LastConcat(a, pc, l);
    LastConcat(a + pc, b, l);
    LastConcat(a + pc + b, c, l);
  }

  lemma StoreListsIo(mmap: seq<Block>, adr: nat, dat: seq<Byte>, l: Loc)
    requires !l.MemLoc?
    ensures Last(StoreLog(mmap, adr, dat), l).Some? <==> Decode(mmap, ToSize(adr)).None? && l == IoLoc(ToSize(adr))
  {
    LastIsListed(StoreLog(mmap, adr, dat), l);
  }

  /** Outside block memory the recorded entry lists for update what the DUT's instruction lists. */
  lemma RecordedUpdateLists(mmap: seq<Block>, w: Cpu, next: Retired, l: Loc)
    requires !l.MemLoc? && w.pc == next.ifu.adr
    ensures Last(UpdateLog(mmap, Record(mmap, w, next)), l).Some? <==> Last(UpdateLog(mmap, next), l).Some?
  {
    var e := Record(mmap, w, next);
    UpdateLists(mmap, next, l);
    UpdateLists(mmap, e, l);
    StoreListsIo(mmap, next.ifu.adr, next.ifu.rdt, l);
    StoreListsIo(mmap, e.ifu.adr, e.ifu.rdt, l);
    StoreListsIo(mmap, next.lsu.adr, next.lsu.rdt, l);
    StoreListsIo(mmap, e.lsu.adr, e.lsu.rdt, l);
    RegistersListed(next.csr, e.csr, l);
  }

  lemma RegistersListed(cs: seq<RegChange>, es: seq<RegChange>, l: Loc)
    requires |cs| == |es| && forall i :: 0 <= i < |cs| ==> es[i].idx == cs[i].idx
    ensures Last(OldLog(false, cs), l).Some? <==> Last(OldLog(false, es), l).Some?
  {
    var a, b := OldLog(false, cs), OldLog(false, es);
    LastIsListed(a, l);
    LastIsListed(b, l);
    assert forall i :: 0 <= i < |a| ==> a[i].Loc() == b[i].Loc();
  }

  /**
   As documented: for the PC, every register and every I/O register, the update on replay makes moving forward
   again exact wherever stepping back is. Only block memory needs more.
   */
  lemma DocumentedReplayIsExact(mmap: seq<Block>, m: Machine<Cpu, Retired>, l: Loc)
    requires IsStart(m) && !l.MemLoc?
    ensures ExactIn(AsDocumented, ShadowOps(mmap), View(l), m) <==> BacksIn(AsDocumented, ShadowOps(mmap), View(l), m)
  {
    LocationBacksIff(AsDocumented, mmap, m, l);
    LocationExactIff(AsDocumented, mmap, m, l);
    forall k: nat | k + 1 < |m.dut| ensures CanReenterAt(AsDocumented, mmap, m, k, l) {
      var a, next := Replay(mmap, Shown(AsDocumented, mmap, m, k), m.dut[k]), m.dut[k + 1];
      UpdateSetsPc(mmap, a, next);
      RecordedUpdateLists(mmap, Update(mmap, a, next), next, l);
    }
  }

  // ---------- the whole shadow ----------

  lemma StatesAgree(s: Cpu, t: Cpu)
    requires SameShape(s, t) && forall l :: View(l)(s) == View(l)(t)
    ensures s == t
  {
    forall l | Has(s, l) ensures Get(s, l) == Get(t, l) {
      assert View(l)(s) == View(l)(t);
    }
    SameLocationsSameState(s, t);
  }

  lemma LogsKeepShape(s: Cpu, a: seq<Write>, b: seq<Write>, c: seq<Write>)
    ensures SameShape(s, Apply(s, a)) && SameShape(s, Apply(Apply(s, a), b))
    ensures SameShape(s, Apply(Apply(Apply(s, a), b), c))
  {
    ApplyGet(s, a, PcLoc);
    ApplyGet(Apply(s, a), b, PcLoc);
    ApplyGet(Apply(Apply(s, a), b), c, PcLoc);
  }

  ghost predicate CanRevertAll(g: Guard, mmap: seq<Block>, v: Cpu, d: Retired, next: Retired) {
    forall l :: CanRevert(g, mmap, v, d, next, l)
  }

  ghost predicate CanReenterAll(g: Guard, mmap: seq<Block>, v: Cpu, d: Retired, next: Retired) {
    forall l :: CanReenter(g, mmap, v, d, next, l)
  }

  lemma RevertRestoresIff(g: Guard, mmap: seq<Block>, v: Cpu, d: Retired, next: Retired)
    ensures var e := if g == AsWritten then d else Record(mmap, v, d);
            Revert(mmap, Next(g, mmap, v, d, next), e) == v <==> CanRevertAll(g, mmap, v, d, next)
  {
    var e := if g == AsWritten then d else Record(mmap, v, d);
    var t := Revert(mmap, Next(g, mmap, v, d, next), e);
    forall l ensures View(l)(t) == View(l)(v) <==> CanRevert(g, mmap, v, d, next, l) {
      RevertShowsIff(g, mmap, v, d, next, l);
    }
    if CanRevertAll(g, mmap, v, d, next) {
      LogsKeepShape(v, ReplayLog(mmap, d), RevertLog(mmap, e), []);
      LogsKeepShape(v, ReplayLog(mmap, d), UpdateLog(mmap, next), RevertLog(mmap, e));
      StatesAgree(v, t);
    }
  }

  lemma ReenterRestoresIff(g: Guard, mmap: seq<Block>, v: Cpu, d: Retired, next: Retired)
    ensures var w := Next(g, mmap, v, d, next);
            var e := if g == AsWritten then next else Record(mmap, w, next);
            Reenter(g, ShadowOps(mmap), Replay(mmap, v, d), e) == w <==> CanReenterAll(g, mmap, v, d, next)
  {
    var a, w := Replay(mmap, v, d), Next(g, mmap, v, d, next);
    var e := if g == AsWritten then next else Record(mmap, w, next);
    var t := Reenter(g, ShadowOps(mmap), a, e);
    forall l ensures View(l)(t) == View(l)(w) <==> CanReenter(g, mmap, v, d, next, l) {
      ReenterShowsIff(g, mmap, v, d, next, l);
    }
    if CanReenterAll(g, mmap, v, d, next) {
      LogsKeepShape(a, UpdateLog(mmap, next), [], []);
      LogsKeepShape(a, UpdateLog(mmap, e), [], []);
      StatesAgree(t, w);
    }
  }

  /** Every location can be stepped back over instruction `k`. */
  ghost predicate RevertsAt(g: Guard, mmap: seq<Block>, m: Machine<Cpu, Retired>, k: nat)
    requires k + 1 < |m.dut|
  {
    CanRevertAll(g, mmap, Shown(g, mmap, m, k), m.dut[k], m.dut[k + 1])
  }

  /** Every location can be replayed over instruction `k`. */
  ghost predicate ReentersAt(g: Guard, mmap: seq<Block>, m: Machine<Cpu, Retired>, k: nat)
    requires k + 1 < |m.dut|
  {
    CanReenterAll(g, mmap, Shown(g, mmap, m, k), m.dut[k], m.dut[k + 1])
  }

  lemma WholeReverts(g: Guard, mmap: seq<Block>, whole: Cpu -> Cpu, m: Machine<Cpu, Retired>, k: nat)
    requires k + 1 < |m.dut| && forall s :: whole(s) == s
    ensures RevertShows(g, ShadowOps(mmap), whole, m.cpu, m.dut, k) <==> RevertsAt(g, mmap, m, k)
  {
    RevertRestoresIff(g, mmap, Shown(g, mmap, m, k), m.dut[k], m.dut[k + 1]);
  }

  lemma WholeReenters(g: Guard, mmap: seq<Block>, whole: Cpu -> Cpu, m: Machine<Cpu, Retired>, k: nat)
    requires k + 1 < |m.dut| && forall s :: whole(s) == s
    ensures ReplayShows(g, ShadowOps(mmap), whole, m.cpu, m.dut, k) <==> ReentersAt(g, mmap, m, k)
  {
    ReenterRestoresIff(g, mmap, Shown(g, mmap, m, k), m.dut[k], m.dut[k + 1]);
  }

  /**
   Stepping back gives exactly the shadow seen going forward, if and only if every instruction lets every
   location be stepped back over.
   */
  lemma ShadowBacksIff(g: Guard, mmap: seq<Block>, m: Machine<Cpu, Retired>)
    requires IsStart(m)
    ensures Backs(g, ShadowOps(mmap), m) <==> forall k: nat :: k + 1 < |m.dut| ==> RevertsAt(g, mmap, m, k)
  {
    var whole := (s: Cpu) => s;
    ShadowReplaysFaithfully(mmap);
    WholeBacksIff(g, ShadowOps(mmap), whole, m);
    forall k: nat | k + 1 < |m.dut|
      ensures RevertShows(g, ShadowOps(mmap), whole, m.cpu, m.dut, k) <==> RevertsAt(g, mmap, m, k)
    {
      WholeReverts(g, mmap, whole, m, k);
    }
  }

  /** Every revisit of every position shows the same shadow, if and only if every location goes both ways. */
  lemma ShadowExactIff(g: Guard, mmap: seq<Block>, m: Machine<Cpu, Retired>)
    requires IsStart(m)
    ensures Exact(g, ShadowOps(mmap), m) <==>
            forall k: nat :: k + 1 < |m.dut| ==> RevertsAt(g, mmap, m, k) && ReentersAt(g, mmap, m, k)
  {
    var whole := (s: Cpu) => s;
    ShadowReplaysFaithfully(mmap);
    WholeExactIff(g, ShadowOps(mmap), whole, m);
    forall k: nat | k + 1 < |m.dut|
      ensures RevertShows(g, ShadowOps(mmap), whole, m.cpu, m.dut, k) <==> RevertsAt(g, mmap, m, k)
      ensures ReplayShows(g, ShadowOps(mmap), whole, m.cpu, m.dut, k) <==> ReentersAt(g, mmap, m, k)
    {
      WholeReverts(g, mmap, whole, m, k);
      WholeReenters(g, mmap, whole, m, k);
    }
  }

  /** Instruction `k` reports, for all it overwrites, the value the shadow held. */
  ghost predicate ReversibleAt(mmap: seq<Block>, m: Machine<Cpu, Retired>, k: nat)
    requires k < |m.dut|
  {
    Settled(Shown(AsWritten, mmap, m, k), ReplayLog(mmap, m.dut[k]) + RevertLog(mmap, m.dut[k]))
  }

  lemma WrittenAt(mmap: seq<Block>, m: Machine<Cpu, Retired>, k: nat)
    requires k + 1 < |m.dut|
    ensures ReversibleAt(mmap, m, k) <==> RevertsAt(AsWritten, mmap, m, k)
    ensures ReentersAt(AsWritten, mmap, m, k)
  {
    if RevertsAt(AsWritten, mmap, m, k) {
      var v, log := Shown(AsWritten, mmap, m, k), ReplayLog(mmap, m.dut[k]) + RevertLog(mmap, m.dut[k]);
      forall l | Has(v, l) && Last(log, l).Some? ensures Last(log, l).value == Get(v, l) {
        assert CanRevertAt(AsWritten, mmap, m, k, l);
      }
    }
  }

  /** The code as written: stepping back is exact, and so is every revisit, exactly on the reversible streams. */
  lemma WrittenIsExactIffReversible(mmap: seq<Block>, m: Machine<Cpu, Retired>)
    requires IsStart(m)
    ensures Exact(AsWritten, ShadowOps(mmap), m) <==> forall k: nat :: k + 1 < |m.dut| ==> ReversibleAt(mmap, m, k)
    ensures Backs(AsWritten, ShadowOps(mmap), m) <==> forall k: nat :: k + 1 < |m.dut| ==> ReversibleAt(mmap, m, k)
  {
    ShadowBacksIff(AsWritten, mmap, m);
    ShadowExactIff(AsWritten, mmap, m);
    forall k: nat | k + 1 < |m.dut|
      ensures ReversibleAt(mmap, m, k) <==> RevertsAt(AsWritten, mmap, m, k)
      ensures ReentersAt(AsWritten, mmap, m, k)
    {
      WrittenAt(mmap, m, k);
    }
  }

  /** Instruction `k + 1` finds in the shadow just what the DUT reports it to have read. */
  ghost predicate QuietAt(mmap: seq<Block>, m: Machine<Cpu, Retired>, k: nat)
    requires k + 1 < |m.dut|
  {
    Settled(Replay(mmap, Shown(OnAppend, mmap, m, k), m.dut[k]), UpdateLog(mmap, m.dut[k + 1]))
  }

  lemma QuietIsBothWays(mmap: seq<Block>, v: Cpu, d: Retired, next: Retired)
    ensures Settled(Replay(mmap, v, d), UpdateLog(mmap, next)) <==>
            CanRevertAll(OnAppend, mmap, v, d, next) && CanReenterAll(OnAppend, mmap, v, d, next)
  {
    var a, log := Replay(mmap, v, d), UpdateLog(mmap, next);
    if Settled(a, log) {
      forall l ensures CanRevert(OnAppend, mmap, v, d, next, l) && CanReenter(OnAppend, mmap, v, d, next, l) {
        if Has(v, l) {
          NextAt(mmap, v, d, next, l);
        }
      }
    } else {
      var l :| Has(a, l) && Last(log, l).Some? && Last(log, l).value != Get(a, l);
      assert !CanReenter(OnAppend, mmap, v, d, next, l);
    }
  }

  /** The code with the guard repaired: every revisit is exact exactly on the quiet streams. */
  lemma OnAppendIsExactIffQuiet(mmap: seq<Block>, m: Machine<Cpu, Retired>)
    requires IsStart(m)
    ensures Exact(OnAppend, ShadowOps(mmap), m) <==> forall k: nat :: k + 1 < |m.dut| ==> QuietAt(mmap, m, k)
  {
    ShadowExactIff(OnAppend, mmap, m);
    forall k: nat | k + 1 < |m.dut|
      ensures QuietAt(mmap, m, k) <==> RevertsAt(OnAppend, mmap, m, k) && ReentersAt(OnAppend, mmap, m, k)
    {
      QuietIsBothWays(mmap, Shown(OnAppend, mmap, m, k), m.dut[k], m.dut[k + 1]);
    }
  }

  // ---------- one location in one run ----------

  lemma ShadowRecordingWorks(mmap: seq<Block>, l: Loc)
    ensures RecordingWorks(ShadowOps(mmap), View(l))
  {
    forall s, d ensures RecordingWorksAt(ShadowOps(mmap), View(l), s, d) {
      RevertUndoesReplay(mmap, Update(mmap, s, d), d);
      UpdateRecordIsIdempotent(mmap, s, d);
    }
  }

  /**
   `OnAppend` and `AsDocumented`: a location that no update above position `p` changes in a run shows its first-visit
   value at every position of the run, if the run stays at or above `p`, whatever updates do to other locations.
   */
  lemma LocationIsExact(
      g: Guard, mmap: seq<Block>, m: Machine<Cpu, Retired>, steps: seq<Step>, p: nat, l: Loc)
    requires IsStart(m) && g != AsWritten && StaysAbove(g, ShadowOps(mmap), m, steps, p)
    requires ArrivalsKeep(Track(g, ShadowOps(mmap), m, steps), View(l), p)
    ensures var t := Track(g, ShadowOps(mmap), m, steps);
            |t.m.trc| > p ==> t.m.cnt >= p && ShowsFirstVisit(t, View(l))
  {
    ShadowIsLocal(mmap, l);
    ShadowRecordingWorks(mmap, l);
    RecordedViewIsExact(g, ShadowOps(mmap), View(l), m, steps, p);
  }
}
