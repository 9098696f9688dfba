/**
 When time travel is exact.

 Two promises are told apart: that stepping back shows what was shown going forward, and that every revisit of a
 position does, however it was reached. Both are stated for a view of the shadow, which may be a single location
 or the whole of it, and both come down to one condition per trace entry of the straight forward run.
 */
module Exactness {
  import opened TimeTravel

  /** After `n` forward and `j` backward steps the view is that of `n - j` forward steps. */
  ghost predicate BacksIn<S, E, V>(g: Guard, ops: Ops<S, E>, view: S -> V, m: Machine<S, E>)
    requires IsStart(m)
  {
    forall n: nat, j: nat :: j < n <= |m.dut| ==>
      view(Backed(ops, Straight(g, ops, m, n), j).cpu) == view(Straight(g, ops, m, n - j).cpu)
  }

  /** Any two runs over the same DUT stream that end at the same position agree in the view. */
  ghost predicate ExactIn<S, E, V>(g: Guard, ops: Ops<S, E>, view: S -> V, m: Machine<S, E>)
    requires IsStart(m)
  {
    forall a, b :: Run(g, ops, m, a).cnt == Run(g, ops, m, b).cnt ==>
                     view(Run(g, ops, m, a).cpu) == view(Run(g, ops, m, b).cpu)
  }

  /** Stepping back is exact on the whole shadow. */
  ghost predicate Backs<S, E>(g: Guard, ops: Ops<S, E>, m: Machine<S, E>)
    requires IsStart(m)
  {
    forall n: nat, j: nat :: j < n <= |m.dut| ==>
      Backed(ops, Straight(g, ops, m, n), j).cpu == Straight(g, ops, m, n - j).cpu
  }

  /** All runs agree on the whole shadow. */
  ghost predicate Exact<S, E>(g: Guard, ops: Ops<S, E>, m: Machine<S, E>)
    requires IsStart(m)
  {
    forall a, b :: Run(g, ops, m, a).cnt == Run(g, ops, m, b).cnt ==>
                     Run(g, ops, m, a).cpu == Run(g, ops, m, b).cpu
  }

  // ---------- views on which the operations act locally ----------

  /** Two entries that act alike on two shadows that agree in the view. */
  ghost predicate AlikeAt<S, E, V>(ops: Ops<S, E>, view: S -> V, e: E, f: E, x: S, y: S) {
    view(x) == view(y) ==>
      && view(ops.replay(x, e)) == view(ops.replay(y, f))
      && view(ops.revert(x, e)) == view(ops.revert(y, f))
      && view(ops.update(x, e)) == view(ops.update(y, f))
  }

  ghost predicate Alike<S(!new), E, V>(ops: Ops<S, E>, view: S -> V, e: E, f: E) {
    forall x, y :: AlikeAt(ops, view, e, f, x, y)
  }

  /** Recording one instruction on arrival at shadows that agree in the view gives entries that act alike. */
  ghost predicate RecordsAlikeAt<S(!new), E, V>(ops: Ops<S, E>, view: S -> V, s: S, t: S, d: E) {
    var u, v := ops.update(s, d), ops.update(t, d);
    view(u) == view(v) ==> Alike(ops, view, ops.record(u, d), ops.record(v, d))
  }

  ghost predicate Local<S(!new), E(!new), V>(ops: Ops<S, E>, view: S -> V) {
    && (forall e :: Alike(ops, view, e, e))
    && (forall s, t, d :: RecordsAlikeAt(ops, view, s, t, d))
  }

  lemma SelfAlike<S(!new), E(!new), V>(ops: Ops<S, E>, view: S -> V, e: E, x: S, y: S)
    requires Local(ops, view) && view(x) == view(y)
    ensures AlikeAt(ops, view, e, e, x, y)
  {
    assert Alike(ops, view, e, e);
  }

  // ---------- one forward step ----------

  /** Below the end of the trace a forward step replays, and updates if the guard says so. */
  lemma ReplayStep<S, E>(g: Guard, ops: Ops<S, E>, m: Machine<S, E>)
    requires m.Inv() && m.cnt < |m.trc| - 1
    ensures ForwardStep(g, ops, m) ==
            Machine(Reenter(g, ops, Advance(ops, m), m.trc[m.cnt + 1]), m.cnt + 1, m.trc, m.dut)
  {
  }

  /** At the end of the trace it takes the DUT's next instruction, updates from it and records it. */
  lemma ArrivalStep<S, E>(g: Guard, ops: Ops<S, E>, m: Machine<S, E>)
    requires m.Inv() && m.cnt == |m.trc| - 1 && |m.dut| > 0
    ensures var r := ForwardStep(g, ops, m);
            var a := Advance(ops, m);
            && r.cnt == m.cnt + 1 && r.dut == m.dut[1..]
            && r.cpu == (if g == AsWritten then a else ops.update(a, m.dut[0]))
            && r.trc == m.trc + [if g == AsWritten then m.dut[0] else ops.record(r.cpu, m.dut[0])]
  {
  }

  /** The entry at a position the straight run has passed. */
  lemma StraightEntry<S, E>(g: Guard, ops: Ops<S, E>, m: Machine<S, E>, k: nat, n: nat)
    requires IsStart(m) && k < n <= |m.dut|
    ensures |Straight(g, ops, m, k + 1).trc| == k + 1 && |Straight(g, ops, m, n).trc| == n
    ensures Straight(g, ops, m, k + 1).trc[k] == Straight(g, ops, m, n).trc[k]
    ensures Straight(g, ops, m, k + 1).cnt == k
  {
    StraightPosition(g, ops, m, n);
    StraightPosition(g, ops, m, k + 1);
    StraightTrace(g, ops, m, k + 1, n);
    PrefixAt(Straight(g, ops, m, k + 1).trc, Straight(g, ops, m, n).trc, k);
  }

  lemma PrefixAt<E>(a: seq<E>, b: seq<E>, k: nat)
    requires a <= b && k < |a|
    ensures a[k] == b[k]
  {
  }

  /** Entry `k` of the straight run is the DUT's instruction `k`, recorded unless the test is as written. */
  lemma StraightArrival<S, E>(g: Guard, ops: Ops<S, E>, m: Machine<S, E>, k: nat)
    requires IsStart(m) && k < |m.dut|
    ensures var v, w := Straight(g, ops, m, k), Straight(g, ops, m, k + 1);
            && v.cnt == k - 1 && w.cnt == k && |v.trc| == k && |w.trc| == k + 1
            && w.cpu == (if g == AsWritten then Advance(ops, v) else ops.update(Advance(ops, v), m.dut[k]))
            && w.trc == v.trc + [if g == AsWritten then m.dut[k] else ops.record(w.cpu, m.dut[k])]
  {
    StraightPosition(g, ops, m, k);
    StraightPosition(g, ops, m, k + 1);
    ArrivalStep(g, ops, Straight(g, ops, m, k));
  }

  // ---------- the conditions on the straight run ----------

  /** Reverting entry `k` from the next position shows position `k` again. */
  ghost predicate BackAt<S, E, V>(g: Guard, ops: Ops<S, E>, view: S -> V, m: Machine<S, E>, k: nat)
    requires IsStart(m) && k + 1 < |m.dut|
  {
    StraightPosition(g, ops, m, k + 1);
    var v := Straight(g, ops, m, k + 1);
    view(ops.revert(Straight(g, ops, m, k + 2).cpu, v.trc[k])) == view(v.cpu)
  }

  /** Replaying entry `k` shows position `k + 1` again. */
  ghost predicate AgainAt<S, E, V>(g: Guard, ops: Ops<S, E>, view: S -> V, m: Machine<S, E>, k: nat)
    requires IsStart(m) && k + 1 < |m.dut|
  {
    StraightPosition(g, ops, m, k + 1);
    StraightPosition(g, ops, m, k + 2);
    var v, w := Straight(g, ops, m, k + 1), Straight(g, ops, m, k + 2);
    view(Reenter(g, ops, Advance(ops, v), w.trc[k + 1])) == view(w.cpu)
  }

  // ---------- stepping back ----------

  lemma RevertAgrees<S(!new), E(!new), V>(ops: Ops<S, E>, view: S -> V, b: Machine<S, E>, x: S, e: E, f: E)
    requires b.Inv() && b.cnt > 0 && b.trc[b.cnt - 1] == e && view(b.cpu) == view(x)
    requires (Local(ops, view) && e == f) || Alike(ops, view, e, f)
    ensures view(BackwardStep(ops, b).cpu) == view(ops.revert(x, f))
  {
    assert Alike(ops, view, e, f);
    assert AlikeAt(ops, view, e, f, b.cpu, x);
  }

  lemma ReplayAgrees<S(!new), E(!new), V>(
      g: Guard, ops: Ops<S, E>, view: S -> V, r: Machine<S, E>, y: S, f: E)
    requires r.Inv() && r.cnt < |r.trc| - 1 && view(Advance(ops, r)) == view(y)
    requires Alike(ops, view, r.trc[r.cnt + 1], f)
    ensures view(ForwardStep(g, ops, r).cpu) == view(Reenter(g, ops, y, f))
  {
    ReplayStep(g, ops, r);
    assert AlikeAt(ops, view, r.trc[r.cnt + 1], f, Advance(ops, r), y);
  }

  /** Where `j` backward steps from the straight run's position `n - 1` lead. */
  lemma BackedFromStraight<S, E>(g: Guard, ops: Ops<S, E>, m: Machine<S, E>, n: nat, j: nat)
    requires IsStart(m) && j < n <= |m.dut|
    ensures var b, v := Backed(ops, Straight(g, ops, m, n), j), Straight(g, ops, m, n - j);
            b.cnt == n - j - 1 && |b.trc| == n && v.trc <= b.trc && |v.trc| == n - j
  {
    StraightPosition(g, ops, m, n);
    StraightPosition(g, ops, m, n - j);
    StraightTrace(g, ops, m, n - j, n);
    BackedPosition(ops, Straight(g, ops, m, n), j);
  }

  lemma {:induction false} BackAtSuffices<S(!new), E(!new), V>(
      g: Guard, ops: Ops<S, E>, view: S -> V, m: Machine<S, E>, n: nat, j: nat)
    requires IsStart(m) && Local(ops, view) && j < n <= |m.dut|
    requires forall k: nat :: k + 1 < |m.dut| ==> BackAt(g, ops, view, m, k)
    ensures view(Backed(ops, Straight(g, ops, m, n), j).cpu) == view(Straight(g, ops, m, n - j).cpu)
    decreases j
  {
    if j > 0 {
      BackAtSuffices(g, ops, view, m, n, j - 1);
      BackOneMore(g, ops, view, m, n, j - 1);
    }
  }

  lemma BackOneMore<S(!new), E(!new), V>(
      g: Guard, ops: Ops<S, E>, view: S -> V, m: Machine<S, E>, n: nat, j: nat)
    requires IsStart(m) && Local(ops, view) && j + 1 < n <= |m.dut| && BackAt(g, ops, view, m, n - j - 2)
    requires view(Backed(ops, Straight(g, ops, m, n), j).cpu) == view(Straight(g, ops, m, n - j).cpu)
    ensures view(Backed(ops, Straight(g, ops, m, n), j + 1).cpu) == view(Straight(g, ops, m, n - j - 1).cpu)
  {
    var b := Backed(ops, Straight(g, ops, m, n), j);
    var v, x := Straight(g, ops, m, n - j - 1), Straight(g, ops, m, n - j);
    BackedFromStraight(g, ops, m, n, j);
    StraightEntry(g, ops, m, n - j - 2, n - j);
    RevertAgrees(ops, view, b, x.cpu, v.trc[n - j - 2], v.trc[n - j - 2]);
  }

  lemma BacksGivesBackAt<S, E, V>(g: Guard, ops: Ops<S, E>, view: S -> V, m: Machine<S, E>, k: nat)
    requires IsStart(m) && k + 1 < |m.dut| && BacksIn(g, ops, view, m)
    ensures BackAt(g, ops, view, m, k)
  {
    var w := Straight(g, ops, m, k + 2);
    StraightEntry(g, ops, m, k, k + 2);
    StraightPosition(g, ops, m, k + 2);
    assert Backed(ops, w, 0) == w && Backed(ops, w, 1) == BackwardStep(ops, w);
    assert view(Backed(ops, w, 1).cpu) == view(Straight(g, ops, m, k + 2 - 1).cpu);
  }

  /** Stepping back is exact in a view exactly when reverting each entry undoes the step over it. */
  lemma BacksIff<S(!new), E(!new), V>(g: Guard, ops: Ops<S, E>, view: S -> V, m: Machine<S, E>)
    requires IsStart(m) && Local(ops, view)
    ensures BacksIn(g, ops, view, m) <==> forall k: nat :: k + 1 < |m.dut| ==> BackAt(g, ops, view, m, k)
  {
    if BacksIn(g, ops, view, m) {
      forall k: nat | k + 1 < |m.dut| ensures BackAt(g, ops, view, m, k) {
        BacksGivesBackAt(g, ops, view, m, k);
      }
    }
    if forall k: nat :: k + 1 < |m.dut| ==> BackAt(g, ops, view, m, k) {
      forall n: nat, j: nat | j < n <= |m.dut|
        ensures view(Backed(ops, Straight(g, ops, m, n), j).cpu) == view(Straight(g, ops, m, n - j).cpu)
      {
        BackAtSuffices(g, ops, view, m, n, j);
      }
    }
  }

  // ---------- all runs ----------

  ghost predicate Seamless<S, E, V>(g: Guard, ops: Ops<S, E>, view: S -> V, m: Machine<S, E>)
    requires IsStart(m)
  {
    forall k: nat :: k + 1 < |m.dut| ==> BackAt(g, ops, view, m, k) && AgainAt(g, ops, view, m, k)
  }

  /** A machine looks, in the view, like the straight run at its position, and its trace acts alike. */
  ghost predicate LooksStraight<S(!new), E, V>(
      g: Guard, ops: Ops<S, E>, view: S -> V, m: Machine<S, E>, r: Machine<S, E>)
    requires IsStart(m) && r.Inv()
  {
    var n := |r.trc|;
    var w := Straight(g, ops, m, n);
    && n <= |m.dut| && r.dut == m.dut[n..] && |w.trc| == n
    && view(r.cpu) == view(Straight(g, ops, m, r.cnt + 1).cpu)
    && forall k :: 0 <= k < n ==> Alike(ops, view, r.trc[k], w.trc[k])
  }

  lemma AdvanceLooksStraight<S(!new), E(!new), V>(
      g: Guard, ops: Ops<S, E>, view: S -> V, m: Machine<S, E>, r: Machine<S, E>)
    requires IsStart(m) && r.Inv() && LooksStraight(g, ops, view, m, r)
    ensures view(Advance(ops, r)) == view(Advance(ops, Straight(g, ops, m, r.cnt + 1)))
  {
    var k, w := r.cnt, Straight(g, ops, m, r.cnt + 1);
    if k == -1 {
      assert w == m;
    } else {
      StraightEntry(g, ops, m, k, |r.trc|);
      assert AlikeAt(ops, view, r.trc[k], w.trc[k], r.cpu, w.cpu);
    }
  }

  /** What a straight arrival and another arrival with the same instruction have in common. */
  lemma ArrivalsAlike<S(!new), E(!new), V>(g: Guard, ops: Ops<S, E>, view: S -> V, a: S, b: S, d: E)
    requires Local(ops, view) && view(a) == view(b)
    ensures g == AsWritten ==> Alike(ops, view, d, d)
    ensures var u, v := ops.update(a, d), ops.update(b, d);
            view(u) == view(v) && Alike(ops, view, ops.record(u, d), ops.record(v, d))
  {
    SelfAlike(ops, view, d, a, b);
    assert RecordsAlikeAt(ops, view, a, b, d);
  }

  lemma ArrivalLooksStraight<S(!new), E(!new), V>(
      g: Guard, ops: Ops<S, E>, view: S -> V, m: Machine<S, E>, r: Machine<S, E>)
    requires IsStart(m) && Local(ops, view) && r.Inv() && LooksStraight(g, ops, view, m, r)
    requires r.cnt == |r.trc| - 1 && |r.dut| > 0
    ensures LooksStraight(g, ops, view, m, ForwardStep(g, ops, r))
  {
    var n := |r.trc|;
    AdvanceLooksStraight(g, ops, view, m, r);
    ArrivalStep(g, ops, r);
    StraightArrival(g, ops, m, n);
    ArrivalsAlike(g, ops, view, Advance(ops, r), Advance(ops, Straight(g, ops, m, n)), m.dut[n]);
    assert m.dut[n..][1..] == m.dut[n + 1..];
  }

  lemma ReplayLooksStraight<S(!new), E(!new), V>(
      g: Guard, ops: Ops<S, E>, view: S -> V, m: Machine<S, E>, r: Machine<S, E>)
    requires IsStart(m) && Seamless(g, ops, view, m) && r.Inv() && LooksStraight(g, ops, view, m, r)
    requires r.cnt < |r.trc| - 1
    ensures LooksStraight(g, ops, view, m, ForwardStep(g, ops, r))
  {
    ReplayStep(g, ops, r);
    ReplayShowsNext(g, ops, view, m, r);
  }

  lemma ReplayShowsNext<S(!new), E(!new), V>(
      g: Guard, ops: Ops<S, E>, view: S -> V, m: Machine<S, E>, r: Machine<S, E>)
    requires IsStart(m) && Seamless(g, ops, view, m) && r.Inv() && LooksStraight(g, ops, view, m, r)
    requires r.cnt < |r.trc| - 1
    ensures view(ForwardStep(g, ops, r).cpu) == view(Straight(g, ops, m, r.cnt + 2).cpu)
  {
    var k, n := r.cnt, |r.trc|;
    StraightEntry(g, ops, m, k + 1, n);
    AdvanceLooksStraight(g, ops, view, m, r);
    ReplayAgrees(g, ops, view, r, Advance(ops, Straight(g, ops, m, k + 1)), Straight(g, ops, m, k + 2).trc[k + 1]);
    assert AgainAt(g, ops, view, m, k);
  }

  lemma BackwardLooksStraight<S(!new), E(!new), V>(
      g: Guard, ops: Ops<S, E>, view: S -> V, m: Machine<S, E>, r: Machine<S, E>)
    requires IsStart(m) && Seamless(g, ops, view, m) && r.Inv() && LooksStraight(g, ops, view, m, r)
    requires r.cnt > 0
    ensures LooksStraight(g, ops, view, m, BackwardStep(ops, r))
  {
    var k, n := r.cnt - 1, |r.trc|;
    var b := BackwardStep(ops, r);
    assert b.cnt == k && b.trc == r.trc && b.dut == r.dut;
    assert view(b.cpu) == view(Straight(g, ops, m, k + 1).cpu) by {
      var v, w := Straight(g, ops, m, k + 1), Straight(g, ops, m, k + 2);
      StraightEntry(g, ops, m, k, n);
      RevertAgrees(ops, view, r, w.cpu, r.trc[k], v.trc[k]);
      assert BackAt(g, ops, view, m, k);
    }
  }

  lemma {:induction false} RunLooksStraight<S(!new), E(!new), V>(
      g: Guard, ops: Ops<S, E>, view: S -> V, m: Machine<S, E>, steps: seq<Step>)
    requires IsStart(m) && Local(ops, view) && Seamless(g, ops, view, m)
    ensures LooksStraight(g, ops, view, m, Run(g, ops, m, steps))
    decreases |steps|
  {
    if steps != [] {
      var n := |steps| - 1;
      RunLooksStraight(g, ops, view, m, steps[..n]);
      var p := Run(g, ops, m, steps[..n]);
      if steps[n] == Forward && !p.Waits() {
        if p.cnt == |p.trc| - 1 {
          ArrivalLooksStraight(g, ops, view, m, p);
        } else {
          ReplayLooksStraight(g, ops, view, m, p);
        }
      } else if steps[n] == Backward && p.cnt > 0 {
        BackwardLooksStraight(g, ops, view, m, p);
      }
    }
  }

  lemma ThereAndBack<S, E>(g: Guard, ops: Ops<S, E>, m: Machine<S, E>, there: seq<Step>)
    requires m.Inv()
    ensures var w := Run(g, ops, m, there);
            && Run(g, ops, m, there + [Backward]) == BackwardStep(ops, w)
            && Run(g, ops, m, there + [Backward, Forward]) == ForwardStep(g, ops, BackwardStep(ops, w))
  {
    var back, again := there + [Backward], there + [Backward, Forward];
    assert back[..|back| - 1] == there;
    assert again[..|again| - 1] == back;
  }

  lemma BackAndForth<S, E>(g: Guard, ops: Ops<S, E>, m: Machine<S, E>)
    requires m.Inv() && m.cnt > 0
    ensures var b := BackwardStep(ops, m);
            && b.cnt == m.cnt - 1 && b.trc == m.trc
            && ForwardStep(g, ops, b) == Machine(Reenter(g, ops, Advance(ops, b), m.trc[m.cnt]), m.cnt, m.trc, m.dut)
  {
    ReplayStep(g, ops, BackwardStep(ops, m));
  }

  /** In an exact machine, two runs to one position agree in the view. */
  lemma ExactAgrees<S, E, V>(
      g: Guard, ops: Ops<S, E>, view: S -> V, m: Machine<S, E>, a: seq<Step>, b: seq<Step>)
    requires IsStart(m) && ExactIn(g, ops, view, m)
    requires Run(g, ops, m, a).cnt == Run(g, ops, m, b).cnt
    ensures view(Run(g, ops, m, a).cpu) == view(Run(g, ops, m, b).cpu)
  {
  }

  /** Where all runs agree in a view, each shows what the straight run shows at its position. */
  lemma ExactIsStraight<S, E, V>(g: Guard, ops: Ops<S, E>, view: S -> V, m: Machine<S, E>, steps: seq<Step>)
    requires IsStart(m) && ExactIn(g, ops, view, m)
    ensures var r := Run(g, ops, m, steps);
            r.cnt >= 0 ==> r.cnt < |m.dut| && view(r.cpu) == view(Straight(g, ops, m, r.cnt + 1).cpu)
  {
    var n := Run(g, ops, m, steps).cnt;
    TraceOnlyGrows(g, ops, m, steps);
    if n >= 0 {
      StraightAtPosition(g, ops, m, n, seq(n + 1, _ => Forward));
      ExactAgrees(g, ops, view, m, steps, seq(n + 1, _ => Forward));
    }
  }

  lemma StraightAtPosition<S, E>(g: Guard, ops: Ops<S, E>, m: Machine<S, E>, n: nat, steps: seq<Step>)
    requires IsStart(m) && n < |m.dut| && steps == seq(n + 1, _ => Forward)
    ensures Run(g, ops, m, steps) == Straight(g, ops, m, n + 1) && Run(g, ops, m, steps).cnt == n
  {
    StraightIsRun(g, ops, m, n + 1);
    StraightPosition(g, ops, m, n + 1);
  }

  lemma ExactBack<S, E, V>(g: Guard, ops: Ops<S, E>, view: S -> V, m: Machine<S, E>, k: nat)
    requires IsStart(m) && ExactIn(g, ops, view, m) && k + 1 < |m.dut|
    ensures var v, w := Straight(g, ops, m, k + 1), Straight(g, ops, m, k + 2);
            && view(BackwardStep(ops, w).cpu) == view(v.cpu)
            && view(ForwardStep(g, ops, BackwardStep(ops, w)).cpu) == view(w.cpu)
  {
    var one, two := seq(k + 1, _ => Forward), seq(k + 2, _ => Forward);
    StraightIsRun(g, ops, m, k + 1);
    StraightIsRun(g, ops, m, k + 2);
    StraightEntry(g, ops, m, k, k + 2);
    StraightPosition(g, ops, m, k + 2);
    ThereAndBack(g, ops, m, two);
    BackAndForth(g, ops, Straight(g, ops, m, k + 2));
    ExactAgrees(g, ops, view, m, two + [Backward], one);
    ExactAgrees(g, ops, view, m, two + [Backward, Forward], two);
  }

  /** Stepping `j` back after `n` steps and making `n - j` steps are two ways to one position. */
  lemma TwoWays<S, E>(g: Guard, ops: Ops<S, E>, m: Machine<S, E>, n: nat, j: nat, long: seq<Step>, short: seq<Step>)
    requires IsStart(m) && j < n <= |m.dut|
    requires long == seq(n, _ => Forward) + seq(j, _ => Backward) && short == seq(n - j, _ => Forward)
    ensures Run(g, ops, m, long) == Backed(ops, Straight(g, ops, m, n), j)
    ensures Run(g, ops, m, short) == Straight(g, ops, m, n - j)
    ensures Run(g, ops, m, long).cnt == Run(g, ops, m, short).cnt
  {
    StraightIsRun(g, ops, m, n);
    BackedIsRun(g, ops, Straight(g, ops, m, n), j);
    RunConcat(g, ops, m, seq(n, _ => Forward), seq(j, _ => Backward));
    StraightPosition(g, ops, m, n);
    BackedPosition(ops, Straight(g, ops, m, n), j);
    StraightIsRun(g, ops, m, n - j);
    StraightPosition(g, ops, m, n - j);
  }

  lemma ExactBacked<S, E, V>(g: Guard, ops: Ops<S, E>, view: S -> V, m: Machine<S, E>, n: nat, j: nat)
    requires IsStart(m) && ExactIn(g, ops, view, m) && j < n <= |m.dut|
    ensures view(Backed(ops, Straight(g, ops, m, n), j).cpu) == view(Straight(g, ops, m, n - j).cpu)
  {
    var long, short := seq(n, _ => Forward) + seq(j, _ => Backward), seq(n - j, _ => Forward);
    TwoWays(g, ops, m, n, j, long, short);
    ExactAgrees(g, ops, view, m, long, short);
  }

  /** Agreement of all runs is the stronger promise: stepping back is one of the ways to revisit a position. */
  lemma ExactImpliesBacks<S, E, V>(g: Guard, ops: Ops<S, E>, view: S -> V, m: Machine<S, E>)
    requires IsStart(m) && ExactIn(g, ops, view, m)
    ensures BacksIn(g, ops, view, m)
  {
    forall n: nat, j: nat | j < n <= |m.dut|
      ensures view(Backed(ops, Straight(g, ops, m, n), j).cpu) == view(Straight(g, ops, m, n - j).cpu)
    {
      ExactBacked(g, ops, view, m, n, j);
    }
  }

  /** One step back and one step forward from position `k + 1` already show both conditions for entry `k`. */
  lemma ExactIsSeamlessAt<S(!new), E(!new), V>(g: Guard, ops: Ops<S, E>, view: S -> V, m: Machine<S, E>, k: nat)
    requires IsStart(m) && Local(ops, view) && ExactIn(g, ops, view, m) && k + 1 < |m.dut|
    ensures BackAt(g, ops, view, m, k) && AgainAt(g, ops, view, m, k)
  {
    var v, w := Straight(g, ops, m, k + 1), Straight(g, ops, m, k + 2);
    ExactBack(g, ops, view, m, k);
    StraightEntry(g, ops, m, k, k + 2);
    StraightPosition(g, ops, m, k + 2);
    BackAndForth(g, ops, w);
    var b := BackwardStep(ops, w);
    SelfAlike(ops, view, v.trc[k], b.cpu, v.cpu);
    SelfAlike(ops, view, w.trc[k + 1], Advance(ops, b), Advance(ops, v));
  }

  /** All runs agree in a view exactly when the straight run can be walked both ways in it, entry by entry. */
  lemma ExactIff<S(!new), E(!new), V>(g: Guard, ops: Ops<S, E>, view: S -> V, m: Machine<S, E>)
    requires IsStart(m) && Local(ops, view)
    ensures ExactIn(g, ops, view, m) <==> Seamless(g, ops, view, m)
  {
    if ExactIn(g, ops, view, m) {
      forall k: nat | k + 1 < |m.dut| ensures BackAt(g, ops, view, m, k) && AgainAt(g, ops, view, m, k) {
        ExactIsSeamlessAt(g, ops, view, m, k);
      }
    }
    if Seamless(g, ops, view, m) {
      forall a, b | Run(g, ops, m, a).cnt == Run(g, ops, m, b).cnt
        ensures view(Run(g, ops, m, a).cpu) == view(Run(g, ops, m, b).cpu)
      {
        RunLooksStraight(g, ops, view, m, a);
        RunLooksStraight(g, ops, view, m, b);
      }
    }
  }

  // ---------- the straight run in terms of the DUT stream ----------

  /** Recording keeps what an entry replays. */
  ghost predicate ReplaysFaithfully<S(!new), E(!new)>(ops: Ops<S, E>) {
    forall s, d, t :: ops.replay(t, ops.record(s, d)) == ops.replay(t, d)
  }

  /** What arriving with instruction `d` makes of the shadow. */
  function Arrive<S, E>(g: Guard, ops: Ops<S, E>, s: S, d: E): S {
    if g == AsWritten then s else ops.update(s, d)
  }

  /** The shadow first shown at position `k` when the DUT retires `d` from shadow `s`. */
  function Visited<S, E>(g: Guard, ops: Ops<S, E>, s: S, d: seq<E>, k: nat): S
    requires k < |d|
  {
    if k == 0 then Arrive(g, ops, s, d[0])
    else Arrive(g, ops, ops.replay(Visited(g, ops, s, d, k - 1), d[k - 1]), d[k])
  }

  /** The trace entry made at position `k`. */
  function Entry<S, E>(g: Guard, ops: Ops<S, E>, s: S, d: seq<E>, k: nat): E
    requires k < |d|
  {
    if g == AsWritten then d[k] else ops.record(Visited(g, ops, s, d, k), d[k])
  }

  lemma {:induction false} StraightIsVisited<S(!new), E(!new)>(g: Guard, ops: Ops<S, E>, m: Machine<S, E>, k: nat)
    requires IsStart(m) && ReplaysFaithfully(ops) && k < |m.dut|
    ensures var w := Straight(g, ops, m, k + 1);
            && w.cnt == k && |w.trc| == k + 1
            && w.cpu == Visited(g, ops, m.cpu, m.dut, k) && w.trc[k] == Entry(g, ops, m.cpu, m.dut, k)
            && Advance(ops, w) == ops.replay(w.cpu, m.dut[k])
  {
    StraightArrival(g, ops, m, k);
    if k == 0 {
      assert Straight(g, ops, m, 0) == m;
    } else {
      StraightIsVisited(g, ops, m, k - 1);
    }
  }

  /** Reverting the entry of position `k` from what was shown next shows position `k` again. */
  ghost predicate RevertShows<S, E, V>(g: Guard, ops: Ops<S, E>, view: S -> V, s: S, d: seq<E>, k: nat)
    requires k + 1 < |d|
  {
    view(ops.revert(Visited(g, ops, s, d, k + 1), Entry(g, ops, s, d, k))) == view(Visited(g, ops, s, d, k))
  }

  /** Replaying instruction `k` shows position `k + 1` again. */
  ghost predicate ReplayShows<S, E, V>(g: Guard, ops: Ops<S, E>, view: S -> V, s: S, d: seq<E>, k: nat)
    requires k + 1 < |d|
  {
    var a := ops.replay(Visited(g, ops, s, d, k), d[k]);
    view(Reenter(g, ops, a, Entry(g, ops, s, d, k + 1))) == view(Visited(g, ops, s, d, k + 1))
  }

  lemma ConditionsOnStream<S(!new), E(!new), V>(g: Guard, ops: Ops<S, E>, view: S -> V, m: Machine<S, E>, k: nat)
    requires IsStart(m) && ReplaysFaithfully(ops) && k + 1 < |m.dut|
    ensures BackAt(g, ops, view, m, k) <==> RevertShows(g, ops, view, m.cpu, m.dut, k)
    ensures AgainAt(g, ops, view, m, k) <==> ReplayShows(g, ops, view, m.cpu, m.dut, k)
  {
    StraightIsVisited(g, ops, m, k);
    StraightIsVisited(g, ops, m, k + 1);
  }

  /** Stepping back is exact in a view exactly when reverting shows each position again. */
  lemma BacksIffOnStream<S(!new), E(!new), V>(g: Guard, ops: Ops<S, E>, view: S -> V, m: Machine<S, E>)
    requires IsStart(m) && Local(ops, view) && ReplaysFaithfully(ops)
    ensures BacksIn(g, ops, view, m) <==>
            forall k: nat :: k + 1 < |m.dut| ==> RevertShows(g, ops, view, m.cpu, m.dut, k)
  {
    BacksIff(g, ops, view, m);
    forall k: nat | k + 1 < |m.dut|
      ensures BackAt(g, ops, view, m, k) <==> RevertShows(g, ops, view, m.cpu, m.dut, k)
    {
      ConditionsOnStream(g, ops, view, m, k);
    }
  }

  /** All runs agree in a view exactly when reverting and replaying show each position again. */
  lemma ExactIffOnStream<S(!new), E(!new), V>(g: Guard, ops: Ops<S, E>, view: S -> V, m: Machine<S, E>)
    requires IsStart(m) && Local(ops, view) && ReplaysFaithfully(ops)
    ensures ExactIn(g, ops, view, m) <==>
            forall k: nat :: k + 1 < |m.dut| ==>
              RevertShows(g, ops, view, m.cpu, m.dut, k) && ReplayShows(g, ops, view, m.cpu, m.dut, k)
  {
    ExactIff(g, ops, view, m);
    forall k: nat | k + 1 < |m.dut|
      ensures BackAt(g, ops, view, m, k) <==> RevertShows(g, ops, view, m.cpu, m.dut, k)
      ensures AgainAt(g, ops, view, m, k) <==> ReplayShows(g, ops, view, m.cpu, m.dut, k)
    {
      ConditionsOnStream(g, ops, view, m, k);
    }
  }

  // ---------- the whole shadow ----------

  lemma WholeIsLocal<S(!new), E(!new)>(ops: Ops<S, E>, whole: S -> S)
    requires forall s :: whole(s) == s
    ensures Local(ops, whole)
  {
    forall e ensures Alike(ops, whole, e, e) {
      assert forall x, y :: AlikeAt(ops, whole, e, e, x, y);
    }
    assert forall s, t, d :: RecordsAlikeAt(ops, whole, s, t, d);
  }

  lemma WholeBacksIff<S(!new), E(!new)>(g: Guard, ops: Ops<S, E>, whole: S -> S, m: Machine<S, E>)
    requires IsStart(m) && ReplaysFaithfully(ops) && forall s :: whole(s) == s
    ensures Backs(g, ops, m) <==>
            forall k: nat :: k + 1 < |m.dut| ==> RevertShows(g, ops, whole, m.cpu, m.dut, k)
  {
    WholeIsLocal(ops, whole);
    BacksIffOnStream(g, ops, whole, m);
  }

  lemma WholeExactIff<S(!new), E(!new)>(g: Guard, ops: Ops<S, E>, whole: S -> S, m: Machine<S, E>)
    requires IsStart(m) && ReplaysFaithfully(ops) && forall s :: whole(s) == s
    ensures Exact(g, ops, m) <==>
            forall k: nat :: k + 1 < |m.dut| ==>
              RevertShows(g, ops, whole, m.cpu, m.dut, k) && ReplayShows(g, ops, whole, m.cpu, m.dut, k)
  {
    WholeIsLocal(ops, whole);
    ExactIffOnStream(g, ops, whole, m);
  }

  // ---------- exact time travel as a fold of replay ----------

  /** The simple form of forward execution: replay alone, entry after entry. */
  function Fold<S, E>(ops: Ops<S, E>, s: S, rs: seq<E>): S {
    if |rs| == 0 then s else ops.replay(Fold(ops, s, rs[..|rs| - 1]), rs[|rs| - 1])
  }

  lemma FoldExtends<S, E>(ops: Ops<S, E>, s: S, rs: seq<E>, k: nat)
    requires k < |rs|
    ensures Fold(ops, s, rs[..k + 1]) == ops.replay(Fold(ops, s, rs[..k]), rs[k])
  {
    assert rs[..k + 1][..k] == rs[..k];
  }

  /** The trace holds entries that replay as the DUT's instructions do. */
  ghost predicate ReplaysStream<S(!new), E>(ops: Ops<S, E>, dut: seq<E>, m: Machine<S, E>) {
    && |m.trc| <= |dut| && m.dut == dut[|m.trc|..]
    && forall k, t :: 0 <= k < |m.trc| ==> ops.replay(t, m.trc[k]) == ops.replay(t, dut[k])
  }

  lemma StepReplaysStream<S(!new), E(!new)>(g: Guard, ops: Ops<S, E>, dut: seq<E>, m: Machine<S, E>, s: Step)
    requires m.Inv() && ReplaysFaithfully(ops) && ReplaysStream(ops, dut, m)
    ensures ReplaysStream(ops, dut, Take(g, ops, m, s))
  {
    if s == Forward && !m.Waits() {
      if m.cnt == |m.trc| - 1 {
        ArrivalStep(g, ops, m);
        assert dut[|m.trc|..][1..] == dut[|m.trc| + 1..];
      } else {
        ReplayStep(g, ops, m);
      }
    }
  }

  lemma {:induction false} TraceReplaysDut<S(!new), E(!new)>(
      g: Guard, ops: Ops<S, E>, m: Machine<S, E>, steps: seq<Step>)
    requires IsStart(m) && ReplaysFaithfully(ops)
    ensures ReplaysStream(ops, m.dut, Run(g, ops, m, steps))
    decreases |steps|
  {
    if steps != [] {
      var n := |steps| - 1;
      TraceReplaysDut(g, ops, m, steps[..n]);
      StepReplaysStream(g, ops, m.dut, Run(g, ops, m, steps[..n]), steps[n]);
    }
  }

  /** In an exact machine whose replay branch does not update, each position is the replay of the one before. */
  lemma ExactReplays<S(!new), E(!new)>(g: Guard, ops: Ops<S, E>, m: Machine<S, E>, k: nat)
    requires IsStart(m) && ReplaysFaithfully(ops) && Exact(g, ops, m) && g != AsDocumented && k + 1 < |m.dut|
    ensures Visited(g, ops, m.cpu, m.dut, k + 1) == ops.replay(Visited(g, ops, m.cpu, m.dut, k), m.dut[k])
  {
    var whole := (s: S) => s;
    WholeExactIff(g, ops, whole, m);
    assert ReplayShows(g, ops, whole, m.cpu, m.dut, k);
  }

  lemma {:induction false} VisitedIsFold<S(!new), E(!new)>(
      g: Guard, ops: Ops<S, E>, m: Machine<S, E>, rs: seq<E>, k: nat)
    requires IsStart(m) && ReplaysFaithfully(ops) && Exact(g, ops, m) && g != AsDocumented
    requires k < |m.dut| && k <= |rs|
    requires forall i, t :: 0 <= i < k ==> ops.replay(t, rs[i]) == ops.replay(t, m.dut[i])
    ensures Visited(g, ops, m.cpu, m.dut, k) == Fold(ops, Visited(g, ops, m.cpu, m.dut, 0), rs[..k])
  {
    if k > 0 {
      VisitedIsFold(g, ops, m, rs, k - 1);
      ExactReplays(g, ops, m, k - 1);
      FoldExtends(ops, Visited(g, ops, m.cpu, m.dut, 0), rs, k - 1);
    }
  }

  /** Where time travel is exact, the shadow at every position of every run is the fold of replay over the trace. */
  lemma ExactIsFold<S(!new), E(!new)>(g: Guard, ops: Ops<S, E>, m: Machine<S, E>, steps: seq<Step>)
    requires IsStart(m) && ReplaysFaithfully(ops) && Exact(g, ops, m) && g != AsDocumented
    ensures var r := Run(g, ops, m, steps);
            r.cnt >= 0 ==>
              |m.dut| > 0 && r.cpu == Fold(ops, Visited(g, ops, m.cpu, m.dut, 0), r.trc[..r.cnt])
  {
    var r := Run(g, ops, m, steps);
    TraceReplaysDut(g, ops, m, steps);
    ExactIsVisited(g, ops, m, steps);
    if r.cnt >= 0 {
      VisitedIsFold(g, ops, m, r.trc, r.cnt);
    }
  }

  lemma ExactIsVisited<S(!new), E(!new)>(g: Guard, ops: Ops<S, E>, m: Machine<S, E>, steps: seq<Step>)
    requires IsStart(m) && ReplaysFaithfully(ops) && Exact(g, ops, m)
    ensures var r := Run(g, ops, m, steps);
            r.cnt >= 0 ==> r.cnt < |m.dut| && r.cpu == Visited(g, ops, m.cpu, m.dut, r.cnt)
  {
    var n := Run(g, ops, m, steps).cnt;
    TraceOnlyGrows(g, ops, m, steps);
    if n >= 0 {
      StraightAtPosition(g, ops, m, n, seq(n + 1, _ => Forward));
      StraightIsVisited(g, ops, m, n);
      assert Run(g, ops, m, seq(n + 1, _ => Forward)).cnt == n;
    }
  }
}
