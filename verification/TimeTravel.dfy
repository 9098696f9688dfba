/**
 Record, replay and undo: the stepping machine and what every run of it keeps.

 The machine couples the shadow with the trace, the position in it and the instructions the DUT has yet
 to retire. A run is any sequence of forward and backward steps.
 */
module TimeTravel {

  /** What a retired instruction of type `E` does to a shadow of type `S`. */
  datatype Ops<!S, !E> = Ops(
    update: (S, E) -> S,
    record: (S, E) -> E,
    replay: (S, E) -> S,
    revert: (S, E) -> S)

  /**
   Three readings of when `forward` updates the shadow and records the entry it reaches.
   `AsWritten`: the test `cnt == trc.size()` of the source, made after the increment.
   `OnAppend`: the same code with the test the documentation describes, "the entry was just appended".
   `AsDocumented`: `OnAppend`, and an update from the entry when it is only replayed, as the step lists say.
   */
  datatype Guard = AsWritten | OnAppend | AsDocumented

  predicate Records(g: Guard, cnt: int, size: nat, appended: bool) {
    match g
    case AsWritten => cnt == size
    case OnAppend => appended
    case AsDocumented => appended
  }

  /** What replaying up to the entry `e` adds to the replay of the entry before it. */
  function Reenter<S, E>(g: Guard, ops: Ops<S, E>, s: S, e: E): S {
    if g == AsDocumented then ops.update(s, e) else s
  }

  datatype Machine<S, E> = Machine(cpu: S, cnt: int, trc: seq<E>, dut: seq<E>) {
    /** The position is inside the trace, and before it exactly when the trace is empty. */
    predicate Inv() {
      -1 <= cnt < |trc| && (cnt == -1 <==> |trc| == 0)
    }

    /** A forward step needs the DUT, and the DUT retires nothing more. */
    predicate Waits() {
      cnt == |trc| - 1 && |dut| == 0
    }
  }

  predicate IsStart<S, E>(m: Machine<S, E>) {
    m.cnt == -1 && |m.trc| == 0
  }

  // ---------- steps ----------

  /** The shadow after the entry at the current position took effect. */
  function Advance<S, E>(ops: Ops<S, E>, m: Machine<S, E>): S
    requires m.Inv()
  {
    if m.cnt == -1 then m.cpu else ops.replay(m.cpu, m.trc[m.cnt])
  }

  function ForwardStep<S, E>(g: Guard, ops: Ops<S, E>, m: Machine<S, E>): (r: Machine<S, E>)
    requires m.Inv()
    ensures r.Inv()
  {
    if m.Waits() then m
    else
      var appended := m.cnt == |m.trc| - 1;
      var trc := if appended then m.trc + [m.dut[0]] else m.trc;
      var dut := if appended then m.dut[1..] else m.dut;
      var cpu := Advance(ops, m);
      var cnt := m.cnt + 1;
      if Records(g, cnt, |trc|, appended) then
        var s := ops.update(cpu, trc[cnt]);
        Machine(s, cnt, trc[cnt := ops.record(s, trc[cnt])], dut)
      else
        Machine(Reenter(g, ops, cpu, trc[cnt]), cnt, trc, dut)
  }

  function BackwardStep<S, E>(ops: Ops<S, E>, m: Machine<S, E>): (r: Machine<S, E>)
    requires m.Inv()
    ensures r.Inv()
  {
    if m.cnt <= 0 then m
    else Machine(ops.revert(m.cpu, m.trc[m.cnt - 1]), m.cnt - 1, m.trc, m.dut)
  }

  datatype Step = Forward | Backward

  function Take<S, E>(g: Guard, ops: Ops<S, E>, m: Machine<S, E>, s: Step): (r: Machine<S, E>)
    requires m.Inv()
    ensures r.Inv()
  {
    match s
    case Forward => ForwardStep(g, ops, m)
    case Backward => BackwardStep(ops, m)
  }

  function Run<S, E>(g: Guard, ops: Ops<S, E>, m: Machine<S, E>, steps: seq<Step>): (r: Machine<S, E>)
    requires m.Inv()
    ensures r.Inv()
    decreases |steps|
  {
    if steps == [] then m
    else Take(g, ops, Run(g, ops, m, steps[..|steps| - 1]), steps[|steps| - 1])
  }

  lemma {:induction false} RunConcat<S, E>(g: Guard, ops: Ops<S, E>, m: Machine<S, E>, a: seq<Step>, b: seq<Step>)
    requires m.Inv()
    ensures Run(g, ops, m, a + b) == Run(g, ops, Run(g, ops, m, a), b)
    decreases |b|
  {
    if b == [] {
      assert a + b == a;
    } else {
      assert (a + b)[..|a + b| - 1] == a + b[..|b| - 1];
      RunConcat(g, ops, m, a, b[..|b| - 1]);
    }
  }

  // ---------- the trace and the position over whole runs ----------

  lemma StepGrows<S, E>(g: Guard, ops: Ops<S, E>, m: Machine<S, E>, s: Step)
    requires m.Inv()
    ensures var r := Take(g, ops, m, s);
            || (r.trc == m.trc && r.dut == m.dut)
            || (|r.trc| == |m.trc| + 1 && m.trc <= r.trc && |m.dut| > 0 && r.dut == m.dut[1..])
  {
    if s == Forward && !m.Waits() {
      ForwardShape(g, ops, m);
    }
  }

  /** Recorded entries are never altered again: the trace only grows at its end, fed in order by the DUT. */
  lemma {:induction false} TraceOnlyGrows<S, E>(g: Guard, ops: Ops<S, E>, m: Machine<S, E>, steps: seq<Step>)
    requires m.Inv()
    ensures var r := Run(g, ops, m, steps);
            && m.trc <= r.trc
            && |r.trc| - |m.trc| <= |m.dut|
            && r.dut == m.dut[|r.trc| - |m.trc|..]
    decreases |steps|
  {
    if steps != [] {
      var p := Run(g, ops, m, steps[..|steps| - 1]);
      TraceOnlyGrows(g, ops, m, steps[..|steps| - 1]);
      StepGrows(g, ops, p, steps[|steps| - 1]);
      var k := |p.trc| - |m.trc|;
      assert |p.dut| > 0 ==> m.dut[k..][1..] == m.dut[k + 1..];
    }
  }

  /** After the push of a forward step and the increment, the test as written can no longer succeed. */
  lemma WrittenGuardNeverHolds<S, E>(ops: Ops<S, E>, m: Machine<S, E>, steps: seq<Step>)
    requires IsStart(m)
    ensures var r := Run(AsWritten, ops, m, steps);
            var appended := r.cnt == |r.trc| - 1;
            !r.Waits() ==> !Records(AsWritten, r.cnt + 1, |r.trc| + (if appended then 1 else 0), appended)
    ensures Run(AsWritten, ops, m, steps).trc <= m.dut
  {
    WrittenTraceIsTheDutStream(ops, m, steps);
  }

  lemma {:induction false} WrittenTraceIsTheDutStream<S, E>(ops: Ops<S, E>, m: Machine<S, E>, steps: seq<Step>)
    requires IsStart(m)
    ensures var r := Run(AsWritten, ops, m, steps); r.trc + r.dut == m.dut
    decreases |steps|
  {
    if steps != [] {
      WrittenTraceIsTheDutStream(ops, m, steps[..|steps| - 1]);
    }
  }

  /** Counters over a run: steps that moved, DUT steps, recordings, and the furthest position. */
  datatype Tally = Tally(forward: nat, backward: nat, dutSteps: nat, recorded: nat, furthest: int)

  function Count<S, E>(g: Guard, ops: Ops<S, E>, m: Machine<S, E>, steps: seq<Step>): Tally
    requires m.Inv()
    decreases |steps|
  {
    if steps == [] then Tally(0, 0, 0, 0, m.cnt)
    else
      var p := Run(g, ops, m, steps[..|steps| - 1]);
      var t := Count(g, ops, m, steps[..|steps| - 1]);
      var r := Take(g, ops, p, steps[|steps| - 1]);
      var pulls := steps[|steps| - 1] == Forward && p.cnt == |p.trc| - 1 && |p.dut| > 0;
      Tally(
        t.forward + (if steps[|steps| - 1] == Forward && !p.Waits() then 1 else 0),
        t.backward + (if steps[|steps| - 1] == Backward && p.cnt > 0 then 1 else 0),
        t.dutSteps + (if pulls then 1 else 0),
        t.recorded + (if steps[|steps| - 1] == Forward && !p.Waits()
                         && Records(g, p.cnt + 1, |p.trc| + (if pulls then 1 else 0), pulls) then 1 else 0),
        if r.cnt > t.furthest then r.cnt else t.furthest)
  }

  /**
   In every run from reset: the end of the trace is the furthest position ever reached, the position counts
   forward moves less backward moves, and each trace entry cost one DUT step and exactly one recording (none
   with the test as written).
   */
  lemma {:induction false} HighWaterMark<S, E>(g: Guard, ops: Ops<S, E>, m: Machine<S, E>, steps: seq<Step>)
    requires IsStart(m)
    ensures var r := Run(g, ops, m, steps);
            var t := Count(g, ops, m, steps);
            && |r.trc| - 1 == t.furthest
            && r.cnt + 1 == t.forward - t.backward
            && |r.trc| == t.dutSteps
            && t.recorded == (if g == AsWritten then 0 else |r.trc|)
    decreases |steps|
  {
    if steps != [] {
      HighWaterMark(g, ops, m, steps[..|steps| - 1]);
    }
  }

  // ---------- the straight run ----------

  lemma ForwardShape<S, E>(g: Guard, ops: Ops<S, E>, m: Machine<S, E>)
    requires m.Inv() && !m.Waits()
    ensures var r := ForwardStep(g, ops, m);
            && r.cnt == m.cnt + 1
            && m.trc <= r.trc
            && (if m.cnt == |m.trc| - 1 then |r.trc| == |m.trc| + 1 && r.dut == m.dut[1..]
                else r.trc == m.trc && r.dut == m.dut)
  {
  }

  /** `n` forward steps. */
  function Straight<S, E>(g: Guard, ops: Ops<S, E>, m: Machine<S, E>, n: nat): (r: Machine<S, E>)
    requires m.Inv()
    ensures r.Inv()
  {
    if n == 0 then m else ForwardStep(g, ops, Straight(g, ops, m, n - 1))
  }

  lemma {:induction false} StraightIsRun<S, E>(g: Guard, ops: Ops<S, E>, m: Machine<S, E>, n: nat)
    requires m.Inv()
    ensures Run(g, ops, m, seq(n, _ => Forward)) == Straight(g, ops, m, n)
  {
    if n > 0 {
      StraightIsRun(g, ops, m, n - 1);
      assert seq(n, _ => Forward)[..n - 1] == seq(n - 1, _ => Forward);
    }
  }

  lemma {:induction false} StraightPosition<S, E>(g: Guard, ops: Ops<S, E>, m: Machine<S, E>, n: nat)
    requires IsStart(m) && n <= |m.dut|
    ensures var r := Straight(g, ops, m, n); r.cnt == n - 1 && |r.trc| == n && r.dut == m.dut[n..]
  {
    if n > 0 {
      StraightPosition(g, ops, m, n - 1);
      ForwardShape(g, ops, Straight(g, ops, m, n - 1));
      assert m.dut[n - 1..][1..] == m.dut[n..];
    }
  }

  lemma {:induction false} StraightTrace<S, E>(g: Guard, ops: Ops<S, E>, m: Machine<S, E>, k: nat, n: nat)
    requires IsStart(m) && k <= n <= |m.dut|
    ensures Straight(g, ops, m, k).trc <= Straight(g, ops, m, n).trc
    decreases n
  {
    if k < n {
      StraightPosition(g, ops, m, n - 1);
      StraightTrace(g, ops, m, k, n - 1);
      ForwardShape(g, ops, Straight(g, ops, m, n - 1));
    }
  }

  // ---------- stretches of backward steps ----------

  /** `j` backward steps. */
  function Backed<S, E>(ops: Ops<S, E>, m: Machine<S, E>, j: nat): (r: Machine<S, E>)
    requires m.Inv()
    ensures r.Inv()
  {
    if j == 0 then m else BackwardStep(ops, Backed(ops, m, j - 1))
  }

  lemma {:induction false} BackedIsRun<S, E>(g: Guard, ops: Ops<S, E>, m: Machine<S, E>, j: nat)
    requires m.Inv()
    ensures Run(g, ops, m, seq(j, _ => Backward)) == Backed(ops, m, j)
  {
    if j > 0 {
      BackedIsRun(g, ops, m, j - 1);
      assert seq(j, _ => Backward)[..j - 1] == seq(j - 1, _ => Backward);
    }
  }

  lemma {:induction false} BackedPosition<S, E>(ops: Ops<S, E>, m: Machine<S, E>, j: nat)
    requires m.Inv() && (j == 0 || j <= m.cnt)
    ensures var r := Backed(ops, m, j); r.cnt == m.cnt - j && r.trc == m.trc && r.dut == m.dut
  {
    if j > 0 {
      BackedPosition(ops, m, j - 1);
    }
  }
}
