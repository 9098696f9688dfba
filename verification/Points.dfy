/**
 Breakpoints and watchpoints: the two tables, the Z/z packets that edit them, and matching.
 */
module Points {
  import opened Wrappers
  import opened MemoryMap
  import opened ShadowState

  const SIGNONE: nat := 0
  const SIGINT: nat := 2
  const SIGILL: nat := 4
  const SIGTRAP: nat := 5

  const SWBREAK: nat := 0
  const HWBREAK: nat := 1
  const WATCH: nat := 2
  const RWATCH: nat := 3
  const AWATCH: nat := 4

  datatype Point = Point(ptype: nat, pkind: nat)

  datatype Tables = Tables(bpt: map<Size, Point>, wpt: map<Size, Point>)

  datatype Family = Breakpoints | Watchpoints

  /** The table a point type belongs to; types above 4 belong to none. */
  function FamilyOf(ptype: nat): Option<Family> {
    if ptype == SWBREAK || ptype == HWBREAK then Some(Breakpoints)
    else if WATCH <= ptype <= AWATCH then Some(Watchpoints)
    else None
  }

  // ---------- editing ----------

  datatype Edit =
    | Insert(ptype: nat, addr: Size, pkind: nat)
    | Remove(ptype: nat, addr: Size, pkind: nat)

  function EditTable(m: map<Size, Point>, e: Edit): map<Size, Point> {
    if e.Insert? then m[e.addr := Point(e.ptype, e.pkind)] else m - {e.addr}
  }

  function ApplyEdit(t: Tables, e: Edit): Tables {
    match FamilyOf(e.ptype)
    case Some(Breakpoints) => t.(bpt := EditTable(t.bpt, e))
    case Some(Watchpoints) => t.(wpt := EditTable(t.wpt, e))
    case None => t
  }

  function ApplyEdits(t: Tables, es: seq<Edit>): Tables {
    if es == [] then t else ApplyEdit(ApplyEdits(t, es[..|es| - 1]), es[|es| - 1])
  }

  function Lookup(t: Tables, f: Family, a: Size): Option<Point> {
    var m := if f == Breakpoints then t.bpt else t.wpt;
    if a in m then Some(m[a]) else None
  }

  predicate Concerns(e: Edit, f: Family, a: Size) {
    FamilyOf(e.ptype) == Some(f) && e.addr == a
  }

  lemma EditLookup(t: Tables, e: Edit, f: Family, a: Size)
    ensures Lookup(ApplyEdit(t, e), f, a) ==
            if !Concerns(e, f, a) then Lookup(t, f, a)
            else if e.Insert? then Some(Point(e.ptype, e.pkind)) else None
  {
  }

  /** Packets of other families and addresses leave a table entry alone. */
  lemma {:induction false} OtherEditsKeep(t: Tables, es: seq<Edit>, f: Family, a: Size)
    requires forall j :: 0 <= j < |es| ==> !Concerns(es[j], f, a)
    ensures Lookup(ApplyEdits(t, es), f, a) == Lookup(t, f, a)
  {
    if es != [] {
      var n := |es| - 1;
      OtherEditsKeep(t, es[..n], f, a);
      EditLookup(ApplyEdits(t, es[..n]), es[n], f, a);
    }
  }

  /** Each table entry is decided by the last packet of its family and address, whatever came before. */
  lemma {:induction false} LastEditDecides(t: Tables, es: seq<Edit>, f: Family, a: Size, i: nat)
    requires i < |es| && Concerns(es[i], f, a)
    requires forall j :: i < j < |es| ==> !Concerns(es[j], f, a)
    ensures Lookup(ApplyEdits(t, es), f, a) ==
            if es[i].Insert? then Some(Point(es[i].ptype, es[i].pkind)) else None
  {
    var n := |es| - 1;
    EditLookup(ApplyEdits(t, es[..n]), es[n], f, a);
    if i < n {
      LastEditDecides(t, es[..n], f, a, i);
    }
  }

  lemma TableEditsCommute(m: map<Size, Point>, x: Edit, y: Edit)
    requires x.addr != y.addr
    ensures EditTable(EditTable(m, x), y) == EditTable(EditTable(m, y), x)
  {
  }

  lemma EditsCommute(t: Tables, x: Edit, y: Edit)
    requires x.addr != y.addr || FamilyOf(x.ptype) != FamilyOf(y.ptype)
    ensures ApplyEdit(ApplyEdit(t, x), y) == ApplyEdit(ApplyEdit(t, y), x)
  {
    if x.addr != y.addr {
      TableEditsCommute(t.bpt, x, y);
      TableEditsCommute(t.wpt, x, y);
    }
  }

  // ---------- matching ----------

  /** The signal and the stop reason shown to the debugger. */
  datatype Stop = Stop(sig: nat, rsn: Point)

  /** Reading past the end of a dynamic array gives the default byte. */
  function At(d: seq<Byte>, i: nat): Byte {
    if i < |d| then d[i] else 0
  }

  /** EBREAK (0x00100073) or C.EBREAK (0x9002), least significant byte first. */
  predicate IsEbreak(d: seq<Byte>) {
    || (At(d, 0) == 0x73 && At(d, 1) == 0x00 && At(d, 2) == 0x10 && At(d, 3) == 0x00)
    || (At(d, 0) == 0x02 && At(d, 1) == 0x90)
  }

  predicate HitsBreakpoint(t: Tables, r: Retired) {
    var a := ToSize(r.ifu.adr);
    a in t.bpt && t.bpt[a].ptype == HWBREAK
  }

  predicate HitsWatchpoint(t: Tables, r: Retired) {
    var a := ToSize(r.lsu.adr);
    && a in t.wpt
    && match t.wpt[a].ptype
       case 2 => r.lsu.wdt != []
       case 3 => r.lsu.wdt == []
       case 4 => true
       case _ => false
  }

  /** The entry stops the debugger. */
  predicate Matches(t: Tables, r: Retired) {
    r.ifu.ill || IsEbreak(r.ifu.rdt) || HitsBreakpoint(t, r) || HitsWatchpoint(t, r)
  }

  function ObserveFetch(t: Tables, r: Retired, s: Stop): Stop {
    if r.ifu.ill then s.(sig := SIGILL)
    else if IsEbreak(r.ifu.rdt) then s.(sig := SIGTRAP)
    else if HitsBreakpoint(t, r) then Stop(SIGTRAP, t.bpt[ToSize(r.ifu.adr)])
    else s
  }

  function ObserveAccess(t: Tables, r: Retired, s: Stop): Stop {
    if HitsWatchpoint(t, r) then Stop(SIGTRAP, t.wpt[ToSize(r.lsu.adr)]) else s
  }

  function Observe(t: Tables, r: Retired, s: Stop): Stop {
    ObserveAccess(t, r, ObserveFetch(t, r, s))
  }

  /** The signal a matching entry raises: a watchpoint hit overrides an illegal instruction. */
  function SignalOf(t: Tables, r: Retired): nat {
    if r.ifu.ill && !HitsWatchpoint(t, r) then SIGILL else SIGTRAP
  }

  /** The entry hits a point whose type and kind become the stop reason. */
  predicate SetsReason(t: Tables, r: Retired) {
    HitsWatchpoint(t, r) || (HitsBreakpoint(t, r) && !r.ifu.ill && !IsEbreak(r.ifu.rdt))
  }

  /** The reason a matching entry leaves: an illegal instruction or an EBREAK alone keeps that of the last hit. */
  function ReasonOf(t: Tables, r: Retired, earlier: Point): Point {
    if HitsWatchpoint(t, r) then t.wpt[ToSize(r.lsu.adr)]
    else if SetsReason(t, r) then t.bpt[ToSize(r.ifu.adr)]
    else earlier
  }

  /** Observing an entry raises a signal exactly when the entry matches, and is silent otherwise. */
  lemma ObserveSignalsMatches(t: Tables, r: Retired, s: Stop)
    ensures !Matches(t, r) ==> Observe(t, r, s) == s
    ensures Matches(t, r) ==> Observe(t, r, s) == Stop(SignalOf(t, r), ReasonOf(t, r, s.rsn))
  {
  }

  function ObserveAll(t: Tables, rs: seq<Retired>, s: Stop): Stop {
    if rs == [] then s else Observe(t, rs[|rs| - 1], ObserveAll(t, rs[..|rs| - 1], s))
  }

  /**
   The reason shown is that of the latest entry that hit a point: later entries that do not match, are illegal
   or are an EBREAK leave it in place.
   */
  lemma {:induction false} ReasonIsThatOfLastHit(t: Tables, rs: seq<Retired>, s: Stop, i: nat)
    requires i < |rs| && SetsReason(t, rs[i])
    requires forall j :: i < j < |rs| ==> !SetsReason(t, rs[j])
    ensures var rsn := ObserveAll(t, rs, s).rsn;
            if HitsWatchpoint(t, rs[i]) then Lookup(t, Watchpoints, ToSize(rs[i].lsu.adr)) == Some(rsn)
            else Lookup(t, Breakpoints, ToSize(rs[i].ifu.adr)) == Some(rsn)
  {
    var n := |rs| - 1;
    if i < n {
      ReasonIsThatOfLastHit(t, rs[..n], s, i);
    }
  }

  /** Recording an instruction changes nothing of what stops the debugger there, the fetched data aside. */
  lemma RecordingKeepsStops(mmap: seq<Block>, w: Cpu, r: Retired, t: Tables, s: Stop)
    requires w.pc == r.ifu.adr
    ensures var e := Record(mmap, w, r);
            Observe(t, e.(ifu := e.ifu.(rdt := r.ifu.rdt)), s) == Observe(t, r, s)
  {
  }

  // ---------- from packets to stops ----------

  /** The first bytes of an instruction, zeros after its end, spell EBREAK (0x00100073) or C.EBREAK (0x9002). */
  lemma EbreakIsEncoded(d: seq<Byte>)
    ensures var p: seq<int> := d + [0, 0, 0, 0];
            IsEbreak(d) <==>
              || p[0] + 0x100 * p[1] + 0x1_0000 * p[2] + 0x100_0000 * p[3] == 0x0010_0073
              || p[0] + 0x100 * p[1] == 0x9002
  {
  }

  /** Packet `i` is the last one for address `a` with a type from `lo` to `hi`; -1 if there is none. */
  ghost predicate IsLastPacket(es: seq<Edit>, a: Size, lo: nat, hi: nat, i: int) {
    && -1 <= i < |es|
    && (i >= 0 ==> es[i].addr == a && lo <= es[i].ptype <= hi)
    && forall j :: i < j < |es| ==> !(es[j].addr == a && lo <= es[j].ptype <= hi)
  }

  lemma PacketsDecideEntry(es: seq<Edit>, f: Family, a: Size, i: int)
    requires IsLastPacket(es, a, if f == Breakpoints then 0 else 2, if f == Breakpoints then 1 else 4, i)
    ensures Lookup(ApplyEdits(Tables(map[], map[]), es), f, a) ==
            if i >= 0 && es[i].Insert? then Some(Point(es[i].ptype, es[i].pkind)) else None
  {
    if i >= 0 {
      LastEditDecides(Tables(map[], map[]), es, f, a, i);
    } else {
      OtherEditsKeep(Tables(map[], map[]), es, f, a);
    }
  }

  /** A `Z1` is in force. */
  predicate BreakInForce(es: seq<Edit>, i: int)
    requires i < |es|
  {
    i >= 0 && es[i].Insert? && es[i].ptype == 1
  }

  /** A `Z2` is in force and the entry stores, a `Z3` is and it does not, or a `Z4` is. */
  predicate WatchInForce(es: seq<Edit>, j: int, r: Retired)
    requires j < |es|
  {
    && j >= 0 && es[j].Insert?
    && ((es[j].ptype == 2 && |r.lsu.wdt| > 0) || (es[j].ptype == 3 && |r.lsu.wdt| == 0) || es[j].ptype == 4)
  }

  /**
   What an entry does to signal and reason after any sequence of `Z` and `z` packets, from the packets alone. With
   `i` the last packet of type 0 or 1 for the fetch address and `j` the last of type 2 to 4 for the data address:
   a watchpoint gives SIGTRAP (5), else an illegal instruction SIGILL (4), else an EBREAK or a hardware
   breakpoint SIGTRAP; only points set the reason. Software breakpoints (type 0) do nothing.
   */
  lemma PacketsDecideStop(es: seq<Edit>, r: Retired, s: Stop, i: int, j: int)
    requires IsLastPacket(es, ToSize(r.ifu.adr), 0, 1, i)
    requires IsLastPacket(es, ToSize(r.lsu.adr), 2, 4, j)
    ensures Observe(ApplyEdits(Tables(map[], map[]), es), r, s) ==
            if WatchInForce(es, j, r) then Stop(5, Point(es[j].ptype, es[j].pkind))
            else if r.ifu.ill then Stop(4, s.rsn)
            else if IsEbreak(r.ifu.rdt) then Stop(5, s.rsn)
            else if BreakInForce(es, i) then Stop(5, Point(1, es[i].pkind))
            else s
  {
    PacketsDecideEntry(es, Breakpoints, ToSize(r.ifu.adr), i);
    PacketsDecideEntry(es, Watchpoints, ToSize(r.lsu.adr), j);
  }
}
