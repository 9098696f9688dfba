/**
 Exactness of one part of the shadow, with no hypothesis on the rest of it.

 A tracked run remembers the shadow at the first visit of each position. A part of the shadow is given by a
 view of it on which replay and revert act locally.
 */
module Visits {
  import opened TimeTravel
  import opened Exactness

  /** First arrival at a position: the shadow after replay alone, and the shadow the debugger was shown. */
  datatype Visit<S> = Visit(before: S, after: S)

  datatype Tracked<S, E> = Tracked(m: Machine<S, E>, visits: seq<Visit<S>>)

  function TrackTake<S, E>(g: Guard, ops: Ops<S, E>, t: Tracked<S, E>, s: Step): Tracked<S, E>
    requires t.m.Inv()
  {
    var r := Take(g, ops, t.m, s);
    Tracked(r, if |r.trc| > |t.m.trc| then t.visits + [Visit(Advance(ops, t.m), r.cpu)] else t.visits)
  }

  function Track<S, E>(g: Guard, ops: Ops<S, E>, m: Machine<S, E>, steps: seq<Step>): (t: Tracked<S, E>)
    requires IsStart(m)
    ensures t.m == Run(g, ops, m, steps) && |t.visits| == |t.m.trc|
    decreases |steps|
  {
    if steps == [] then Tracked(m, [])
    else TrackTake(g, ops, Track(g, ops, m, steps[..|steps| - 1]), steps[|steps| - 1])
  }

  /** Once the run has reached position `p` it stays at or above it. */
  ghost predicate StaysAbove<S, E>(g: Guard, ops: Ops<S, E>, m: Machine<S, E>, steps: seq<Step>, p: nat)
    requires m.Inv()
  {
    forall i :: 0 <= i <= |steps| && |Run(g, ops, m, steps[..i]).trc| > p ==> Run(g, ops, m, steps[..i]).cnt >= p
  }

  /** No first arrival above `p` changed the view beyond replaying. */
  ghost predicate ArrivalsKeep<S, E, V>(t: Tracked<S, E>, view: S -> V, p: nat) {
    forall k :: p < k < |t.visits| ==> view(t.visits[k].before) == view(t.visits[k].after)
  }

  /** Every entry from `p` on undoes itself in the view. */
  ghost predicate EntriesUndo<S, E, V>(ops: Ops<S, E>, t: Tracked<S, E>, view: S -> V, p: nat)
    requires |t.visits| == |t.m.trc|
  {
    forall k :: p <= k < |t.visits| ==>
      view(ops.revert(ops.replay(t.visits[k].after, t.m.trc[k]), t.m.trc[k])) == view(t.visits[k].after)
  }

  /** Updating from an entry above `p` changes nothing in the view at its own first visit. */
  ghost predicate EntriesSettle<S, E, V>(ops: Ops<S, E>, t: Tracked<S, E>, view: S -> V, p: nat)
    requires |t.visits| == |t.m.trc|
  {
    forall k :: p < k < |t.visits| ==> view(ops.update(t.visits[k].after, t.m.trc[k])) == view(t.visits[k].after)
  }

  /** Consecutive first visits differ, in the view, by the entry between them. */
  ghost predicate Linked<S, E, V>(ops: Ops<S, E>, t: Tracked<S, E>, view: S -> V, p: nat)
    requires |t.visits| == |t.m.trc|
  {
    forall k :: p < k < |t.visits| ==>
      view(ops.replay(t.visits[k - 1].after, t.m.trc[k - 1])) == view(t.visits[k].after)
  }

  ghost predicate ShowsFirstVisit<S, E, V>(t: Tracked<S, E>, view: S -> V)
    requires t.m.Inv() && |t.visits| == |t.m.trc| > 0
  {
    view(t.m.cpu) == view(t.visits[t.m.cnt].after)
  }

  /** The three ways a step moves a tracked run, stated on its fields. */
  ghost predicate Arrives<S, E>(ops: Ops<S, E>, t: Tracked<S, E>, r: Tracked<S, E>)
    requires t.m.Inv()
  {
    && t.m.cnt == |t.m.trc| - 1 && r.m.cnt == t.m.cnt + 1
    && |r.m.trc| == |t.m.trc| + 1 && t.m.trc <= r.m.trc
    && r.visits == t.visits + [Visit(Advance(ops, t.m), r.m.cpu)]
  }

  ghost predicate Replays<S, E>(g: Guard, ops: Ops<S, E>, t: Tracked<S, E>, r: Tracked<S, E>) {
    && 0 <= t.m.cnt < |t.m.trc| - 1 && r.m.cnt == t.m.cnt + 1
    && r.m.trc == t.m.trc && r.visits == t.visits
    && r.m.cpu == Reenter(g, ops, ops.replay(t.m.cpu, t.m.trc[t.m.cnt]), t.m.trc[t.m.cnt + 1])
  }

  ghost predicate Reverts<S, E>(ops: Ops<S, E>, t: Tracked<S, E>, r: Tracked<S, E>) {
    && 0 < t.m.cnt <= |t.m.trc| && r.m.cnt == t.m.cnt - 1
    && r.m.trc == t.m.trc && r.visits == t.visits
    && r.m.cpu == ops.revert(t.m.cpu, t.m.trc[t.m.cnt - 1])
  }

  lemma TrackMoves<S, E>(g: Guard, ops: Ops<S, E>, t: Tracked<S, E>, s: Step)
    requires t.m.Inv()
    ensures var r := TrackTake(g, ops, t, s);
            r == t || Arrives(ops, t, r) || Replays(g, ops, t, r) || Reverts(ops, t, r)
  {
  }

  ghost predicate Steady<S, E, V>(ops: Ops<S, E>, view: S -> V, t: Tracked<S, E>, p: nat) {
    && t.m.Inv() && |t.visits| == |t.m.trc|
    && (|t.m.trc| > p ==> t.m.cnt >= p && Linked(ops, t, view, p) && ShowsFirstVisit(t, view))
  }

  lemma RecordStaysSteady<S(!new), E(!new), V>(
      ops: Ops<S, E>, view: S -> V, t: Tracked<S, E>, r: Tracked<S, E>, p: nat)
    requires Local(ops, view) && Steady(ops, view, t, p)
    requires r.m.Inv() && Arrives(ops, t, r) && ArrivalsKeep(r, view, p)
    ensures Steady(ops, view, r, p)
  {
    if |t.m.trc| > p {
      var k := t.m.cnt;
      SelfAlike(ops, view, t.m.trc[k], t.m.cpu, t.visits[k].after);
      forall j | p < j < |r.visits|
        ensures view(ops.replay(r.visits[j - 1].after, r.m.trc[j - 1])) == view(r.visits[j].after)
      {
        assert r.visits[j - 1] == t.visits[j - 1] && r.m.trc[j - 1] == t.m.trc[j - 1];
      }
    }
  }

  lemma ReplayStaysSteady<S(!new), E(!new), V>(
      g: Guard, ops: Ops<S, E>, view: S -> V, t: Tracked<S, E>, r: Tracked<S, E>, p: nat)
    requires Local(ops, view) && Steady(ops, view, t, p)
    requires r.m.Inv() && Replays(g, ops, t, r)
    requires g == AsDocumented ==> EntriesSettle(ops, t, view, p)
    ensures Steady(ops, view, r, p)
  {
    if |t.m.trc| > p {
      var k := t.m.cnt;
      var a := ops.replay(t.m.cpu, t.m.trc[k]);
      SelfAlike(ops, view, t.m.trc[k], t.m.cpu, t.visits[k].after);
      assert view(ops.replay(t.visits[k + 1 - 1].after, t.m.trc[k + 1 - 1])) == view(t.visits[k + 1].after);
      SelfAlike(ops, view, t.m.trc[k + 1], a, t.visits[k + 1].after);
    }
  }

  lemma RevertStaysSteady<S(!new), E(!new), V>(
      ops: Ops<S, E>, view: S -> V, t: Tracked<S, E>, r: Tracked<S, E>, p: nat)
    requires Local(ops, view) && Steady(ops, view, t, p)
    requires r.m.Inv() && Reverts(ops, t, r) && EntriesUndo(ops, t, view, p)
    requires |t.m.trc| > p ==> r.m.cnt >= p
    ensures Steady(ops, view, r, p)
  {
    if |t.m.trc| > p {
      var k := t.m.cnt - 1;
      var e := t.m.trc[k];
      assert view(ops.replay(t.visits[k].after, e)) == view(t.visits[k + 1].after);
      SelfAlike(ops, view, e, t.m.cpu, ops.replay(t.visits[k].after, e));
    }
  }

  /**
   In any run that stays at or above `p` once there, a view that later arrivals leave alone and that entries
   undo shows, at each position the run comes back to, the value it had on the first visit.
   */
  lemma ViewIsExact<S(!new), E(!new), V>(
      g: Guard, ops: Ops<S, E>, view: S -> V, m: Machine<S, E>, steps: seq<Step>, p: nat)
    requires IsStart(m) && Local(ops, view)
    requires StaysAbove(g, ops, m, steps, p)
    requires ArrivalsKeep(Track(g, ops, m, steps), view, p)
    requires EntriesUndo(ops, Track(g, ops, m, steps), view, p)
    requires g == AsDocumented ==> EntriesSettle(ops, Track(g, ops, m, steps), view, p)
    ensures var t := Track(g, ops, m, steps);
            |t.m.trc| > p ==> t.m.cnt >= p && ShowsFirstVisit(t, view)
  {
    RunIsSteady(g, ops, view, m, steps, p);
  }

  lemma {:induction false} RunIsSteady<S(!new), E(!new), V>(
      g: Guard, ops: Ops<S, E>, view: S -> V, m: Machine<S, E>, steps: seq<Step>, p: nat)
    requires IsStart(m) && Local(ops, view)
    requires StaysAbove(g, ops, m, steps, p)
    requires ArrivalsKeep(Track(g, ops, m, steps), view, p)
    requires EntriesUndo(ops, Track(g, ops, m, steps), view, p)
    requires g == AsDocumented ==> EntriesSettle(ops, Track(g, ops, m, steps), view, p)
    ensures Steady(ops, view, Track(g, ops, m, steps), p)
    decreases |steps|
  {
    if steps != [] {
      var n := |steps| - 1;
      var t, r := Track(g, ops, m, steps[..n]), Track(g, ops, m, steps);
      assert r == TrackTake(g, ops, t, steps[n]);
      TrackMoves(g, ops, t, steps[n]);
      assert steps[..n + 1] == steps;
      assert forall i :: 0 <= i <= n ==> steps[..n][..i] == steps[..i];
      Earlier(ops, view, t, r, p);
      RunIsSteady(g, ops, view, m, steps[..n], p);
      if Arrives(ops, t, r) {
        RecordStaysSteady(ops, view, t, r, p);
      } else if Replays(g, ops, t, r) {
        ReplayStaysSteady(g, ops, view, t, r, p);
      } else if Reverts(ops, t, r) {
        RevertStaysSteady(ops, view, t, r, p);
      }
    }
  }

  /** What holds of all visits of a run holds of those made before its last step. */
  lemma Earlier<S, E, V>(ops: Ops<S, E>, view: S -> V, t: Tracked<S, E>, r: Tracked<S, E>, p: nat)
    requires |t.visits| == |t.m.trc| && |r.visits| == |r.m.trc|
    requires t.visits <= r.visits && t.m.trc <= r.m.trc
    requires ArrivalsKeep(r, view, p) && EntriesUndo(ops, r, view, p)
    ensures ArrivalsKeep(t, view, p) && EntriesUndo(ops, t, view, p)
    ensures EntriesSettle(ops, r, view, p) ==> EntriesSettle(ops, t, view, p)
  {
    assert forall k :: 0 <= k < |t.visits| ==> t.visits[k] == r.visits[k] && t.m.trc[k] == r.m.trc[k];
  }

  // ---------- when entries are recorded ----------

  /** Each position seen so far was updated and recorded from the DUT's instruction for it. */
  ghost predicate Recorded<S, E>(ops: Ops<S, E>, dut: seq<E>, t: Tracked<S, E>) {
    && |t.visits| == |t.m.trc| <= |dut| && t.m.dut == dut[|t.visits|..]
    && forall k :: 0 <= k < |t.visits| ==>
         && t.visits[k].after == ops.update(t.visits[k].before, dut[k])
         && t.m.trc[k] == ops.record(t.visits[k].after, dut[k])
  }

  lemma StepRecords<S, E>(g: Guard, ops: Ops<S, E>, dut: seq<E>, t: Tracked<S, E>, s: Step)
    requires t.m.Inv() && g != AsWritten && Recorded(ops, dut, t)
    ensures Recorded(ops, dut, TrackTake(g, ops, t, s))
  {
    if s == Forward && !t.m.Waits() {
      if t.m.cnt == |t.m.trc| - 1 {
        ArrivalStep(g, ops, t.m);
        assert dut[|t.visits|..][1..] == dut[|t.visits| + 1..];
      } else {
        ReplayStep(g, ops, t.m);
      }
    }
  }

  /** Each position is updated and recorded once, at its first visit, from the DUT's instruction for it. */
  lemma {:induction false} ArrivalsUpdateAndRecord<S, E>(g: Guard, ops: Ops<S, E>, m: Machine<S, E>, steps: seq<Step>)
    requires IsStart(m) && g != AsWritten
    ensures Recorded(ops, m.dut, Track(g, ops, m, steps))
    decreases |steps|
  {
    if steps != [] {
      var n := |steps| - 1;
      ArrivalsUpdateAndRecord(g, ops, m, steps[..n]);
      StepRecords(g, ops, m.dut, Track(g, ops, m, steps[..n]), steps[n]);
    }
  }

  /** An entry recorded on arrival undoes itself there and has nothing to update, as far as the view shows. */
  ghost predicate RecordingWorks<S(!new), E(!new), V>(ops: Ops<S, E>, view: S -> V) {
    forall s, d :: RecordingWorksAt(ops, view, s, d)
  }

  ghost predicate RecordingWorksAt<S, E, V>(ops: Ops<S, E>, view: S -> V, s: S, d: E) {
    var u := ops.update(s, d);
    var e := ops.record(u, d);
    view(ops.revert(ops.replay(u, e), e)) == view(u) && view(ops.update(u, e)) == view(u)
  }

  /** A view that updates above `p` leave alone shows its first-visit value at every revisited position. */
  lemma RecordedViewIsExact<S(!new), E(!new), V>(
      g: Guard, ops: Ops<S, E>, view: S -> V, m: Machine<S, E>, steps: seq<Step>, p: nat)
    requires IsStart(m) && g != AsWritten && Local(ops, view) && RecordingWorks(ops, view)
    requires StaysAbove(g, ops, m, steps, p)
    requires ArrivalsKeep(Track(g, ops, m, steps), view, p)
    ensures var t := Track(g, ops, m, steps);
            |t.m.trc| > p ==> t.m.cnt >= p && ShowsFirstVisit(t, view)
  {
    var t := Track(g, ops, m, steps);
    ArrivalsUpdateAndRecord(g, ops, m, steps);
    forall k | 0 <= k < |t.visits|
      ensures view(ops.revert(ops.replay(t.visits[k].after, t.m.trc[k]), t.m.trc[k])) == view(t.visits[k].after)
      ensures view(ops.update(t.visits[k].after, t.m.trc[k])) == view(t.visits[k].after)
    {
      assert RecordingWorksAt(ops, view, t.visits[k].before, m.dut[k]);
    }
    ViewIsExact(g, ops, view, m, steps, p);
  }
}
