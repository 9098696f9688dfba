/**
 Continue and reverse-continue: where the two loops stop, and that one undoes the other.

 `hit` says whether an entry matches a point; it does not change while a loop runs.
 */
module Continue {
  import opened TimeTravel
  import opened Exactness

  /** No entry strictly between two positions matches. */
  ghost predicate Clear<E>(hit: E -> bool, trc: seq<E>, lo: int, hi: int) {
    forall p :: 0 <= p < |trc| && lo < p < hi ==> !hit(trc[p])
  }

  /** Reverse-continue without interruption: step back at least once, until an entry matches or the start. */
  function ReverseRun<S, E>(ops: Ops<S, E>, hit: E -> bool, m: Machine<S, E>): (r: Machine<S, E>)
    requires m.Inv()
    ensures r.Inv()
    decreases m.cnt + 1
  {
    if m.cnt <= 0 then m
    else
      var b := BackwardStep(ops, m);
      if hit(b.trc[b.cnt]) then b else ReverseRun(ops, hit, b)
  }

  /** Continue without interruption: step forward at least once, until an entry matches or the DUT is idle. */
  function ContinueRun<S, E>(g: Guard, ops: Ops<S, E>, hit: E -> bool, m: Machine<S, E>): (r: Machine<S, E>)
    requires m.Inv()
    ensures r.Inv()
    decreases |m.dut| + |m.trc| - m.cnt
  {
    if m.Waits() then m
    else
      var f := ForwardStep(g, ops, m);
      if hit(f.trc[f.cnt]) then f else ContinueRun(g, ops, hit, f)
  }

  /** The loop of reverse-continue started at `start` goes on from `m`. */
  ghost predicate Reversing<S, E>(ops: Ops<S, E>, hit: E -> bool, start: Machine<S, E>, m: Machine<S, E>)
    requires start.Inv() && m.Inv()
  {
    && m.trc == start.trc && m.dut == start.dut && m.cnt <= start.cnt
    && Clear(hit, start.trc, m.cnt - 1, start.cnt)
    && ReverseRun(ops, hit, m) == ReverseRun(ops, hit, start)
    && SteppedBack(ops, start, m)
  }

  /** `m` is `start` after as many backward steps as lie between their positions. */
  ghost predicate SteppedBack<S, E>(ops: Ops<S, E>, start: Machine<S, E>, m: Machine<S, E>)
    requires start.Inv()
  {
    m.cnt <= start.cnt && m == Backed(ops, start, start.cnt - m.cnt)
  }

  lemma SteppedBackOnce<S, E>(ops: Ops<S, E>, start: Machine<S, E>, m: Machine<S, E>, j: nat)
    requires start.Inv() && m.Inv() && j == start.cnt - m.cnt && m == Backed(ops, start, j) && m.cnt > 0
    ensures SteppedBack(ops, start, BackwardStep(ops, m))
  {
    var b := BackwardStep(ops, m);
    assert b.cnt == m.cnt - 1;
    assert Backed(ops, start, j + 1) == b;
  }

  /** What a pass of the loop from `m` to `b` does: the loop stops there, or goes on. */
  ghost predicate Rearward<S, E>(
      ops: Ops<S, E>, hit: E -> bool, start: Machine<S, E>, m: Machine<S, E>, b: Machine<S, E>)
    requires start.Inv() && m.Inv() && b.Inv()
  {
    && b.trc == start.trc && b.dut == start.dut && b.cnt <= start.cnt
    && b.cnt == (if m.cnt <= 0 then m.cnt else m.cnt - 1)
    && Clear(hit, start.trc, b.cnt, start.cnt)
    && SteppedBack(ops, start, b)
    && if m.cnt <= 0 || hit(b.trc[b.cnt]) then b == ReverseRun(ops, hit, start)
       else Reversing(ops, hit, start, b)
  }

  lemma ReversePasses<S, E>(
      ops: Ops<S, E>, hit: E -> bool, start: Machine<S, E>, m: Machine<S, E>, b: Machine<S, E>)
    requires start.Inv() && m.Inv() && b.Inv() && Reversing(ops, hit, start, m) && SteppedBack(ops, start, b)
    requires b.trc == m.trc && b.dut == m.dut && b.cnt == if m.cnt <= 0 then m.cnt else m.cnt - 1
    requires ReverseRun(ops, hit, m) == if m.cnt <= 0 || hit(b.trc[b.cnt]) then b else ReverseRun(ops, hit, b)
    ensures Rearward(ops, hit, start, m, b)
  {
    if m.cnt > 0 && !hit(b.trc[b.cnt]) {
      ClearExtends(hit, start.trc, b.cnt, start.cnt);
    }
  }

  lemma ClearExtends<E>(hit: E -> bool, trc: seq<E>, lo: nat, hi: int)
    requires lo < |trc| && Clear(hit, trc, lo, hi) && !hit(trc[lo])
    ensures Clear(hit, trc, lo - 1, hi)
  {
  }

  lemma ReverseIteration<S, E>(ops: Ops<S, E>, hit: E -> bool, start: Machine<S, E>, m: Machine<S, E>)
    requires start.Inv() && m.Inv() && Reversing(ops, hit, start, m)
    ensures Rearward(ops, hit, start, m, BackwardStep(ops, m))
  {
    ReverseFollows(ops, hit, m);
    if m.cnt > 0 {
      SteppedBackOnce(ops, start, m, start.cnt - m.cnt);
    }
    ReversePasses(ops, hit, start, m, BackwardStep(ops, m));
  }

  lemma ReverseFollows<S, E>(ops: Ops<S, E>, hit: E -> bool, m: Machine<S, E>)
    requires m.Inv()
    ensures var b := BackwardStep(ops, m);
            && b.trc == m.trc && b.dut == m.dut && b.cnt == (if m.cnt <= 0 then m.cnt else m.cnt - 1)
            && ReverseRun(ops, hit, m) ==
               if m.cnt <= 0 || hit(b.trc[b.cnt]) then b else ReverseRun(ops, hit, b)
  {
  }

  /** The loop of continue started at `start` goes on from `m`. */
  ghost predicate Continuing<S, E>(g: Guard, ops: Ops<S, E>, hit: E -> bool, start: Machine<S, E>, m: Machine<S, E>)
    requires start.Inv() && m.Inv()
  {
    && start.trc <= m.trc && start.cnt <= m.cnt
    && Clear(hit, m.trc, start.cnt, m.cnt + 1)
    && ContinueRun(g, ops, hit, m) == ContinueRun(g, ops, hit, start)
    && SteppedOn(g, ops, start, m)
  }

  /** `m` is `start` after as many forward steps as lie between their positions. */
  ghost predicate SteppedOn<S, E>(g: Guard, ops: Ops<S, E>, start: Machine<S, E>, m: Machine<S, E>)
    requires start.Inv()
  {
    start.cnt <= m.cnt && m == Straight(g, ops, start, m.cnt - start.cnt)
  }

  /** What a pass of the loop from `m` to `f` does: the machine moves on, and the loop stops at a match. */
  ghost predicate Onward<S, E>(
      g: Guard, ops: Ops<S, E>, hit: E -> bool, start: Machine<S, E>, m: Machine<S, E>, f: Machine<S, E>)
    requires start.Inv() && m.Inv() && f.Inv()
  {
    && start.trc <= f.trc && start.cnt < f.cnt == m.cnt + 1
    && |f.dut| + |f.trc| - f.cnt == |m.dut| + |m.trc| - m.cnt - 1
    && Clear(hit, f.trc, start.cnt, f.cnt)
    && SteppedOn(g, ops, start, f)
    && ContinueRun(g, ops, hit, start) == if hit(f.trc[f.cnt]) then f else ContinueRun(g, ops, hit, f)
  }

  lemma ClearGrows<E>(hit: E -> bool, trc: seq<E>, more: seq<E>, lo: int, hi: nat)
    requires trc <= more && hi <= |trc| && Clear(hit, trc, lo, hi)
    ensures Clear(hit, more, lo, hi)
  {
    assert forall p :: 0 <= p < |trc| ==> more[p] == trc[p];
  }

  lemma ContinueFollows<S, E>(g: Guard, ops: Ops<S, E>, hit: E -> bool, m: Machine<S, E>)
    requires m.Inv()
    ensures m.Waits() ==> ForwardStep(g, ops, m) == m == ContinueRun(g, ops, hit, m)
    ensures var f := ForwardStep(g, ops, m);
            !m.Waits() ==>
              && f.cnt == m.cnt + 1 && m.trc <= f.trc && |f.dut| + |f.trc| == |m.dut| + |m.trc|
              && ContinueRun(g, ops, hit, m) == if hit(f.trc[f.cnt]) then f else ContinueRun(g, ops, hit, f)
  {
    if !m.Waits() {
      ForwardShape(g, ops, m);
    }
  }

  lemma SteppedOnce<S, E>(g: Guard, ops: Ops<S, E>, start: Machine<S, E>, m: Machine<S, E>, n: nat)
    requires start.Inv() && m.Inv() && n == m.cnt - start.cnt && m == Straight(g, ops, start, n) && !m.Waits()
    ensures SteppedOn(g, ops, start, ForwardStep(g, ops, m))
  {
    ForwardShape(g, ops, m);
    var f := ForwardStep(g, ops, m);
    assert Straight(g, ops, start, n + 1) == f;
  }

  lemma ContinuePasses<S, E>(
      g: Guard, ops: Ops<S, E>, hit: E -> bool, start: Machine<S, E>, m: Machine<S, E>, f: Machine<S, E>)
    requires start.Inv() && m.Inv() && f.Inv() && Continuing(g, ops, hit, start, m) && SteppedOn(g, ops, start, f)
    requires f.cnt == m.cnt + 1 && m.trc <= f.trc && |f.dut| + |f.trc| == |m.dut| + |m.trc|
    requires ContinueRun(g, ops, hit, m) == if hit(f.trc[f.cnt]) then f else ContinueRun(g, ops, hit, f)
    ensures Onward(g, ops, hit, start, m, f)
  {
    ClearGrows(hit, m.trc, f.trc, start.cnt, m.cnt + 1);
  }

  lemma ContinueIteration<S, E>(g: Guard, ops: Ops<S, E>, hit: E -> bool, start: Machine<S, E>, m: Machine<S, E>)
    requires start.Inv() && m.Inv() && Continuing(g, ops, hit, start, m) && !m.Waits()
    ensures Onward(g, ops, hit, start, m, ForwardStep(g, ops, m))
  {
    ContinueFollows(g, ops, hit, m);
    SteppedOnce(g, ops, start, m, m.cnt - start.cnt);
    ContinuePasses(g, ops, hit, start, m, ForwardStep(g, ops, m));
  }

  /** Reverse-continue stops at the greatest earlier position whose entry matches, or at 0 if none does. */
  lemma {:induction false} ReverseStopsAtGreatestMatch<S, E>(ops: Ops<S, E>, hit: E -> bool, m: Machine<S, E>)
    requires m.Inv()
    ensures var r := ReverseRun(ops, hit, m);
            && r.trc == m.trc && r.dut == m.dut
            && (if m.cnt <= 0 then r == m else 0 <= r.cnt < m.cnt && (r.cnt == 0 || hit(m.trc[r.cnt])))
            && Clear(hit, m.trc, r.cnt, m.cnt)
    decreases m.cnt + 1
  {
    if m.cnt > 0 {
      var b := BackwardStep(ops, m);
      if !hit(b.trc[b.cnt]) {
        ReverseStopsAtGreatestMatch(ops, hit, b);
      }
    }
  }

  /**
   Continue stops at the least later position whose entry matches, over replayed and newly recorded entries
   alike; it asks the DUT for no more than it needs, and waits only when no entry at all matches.
   */
  lemma {:induction false} ContinueStopsAtLeastMatch<S, E>(g: Guard, ops: Ops<S, E>, hit: E -> bool, m: Machine<S, E>)
    requires m.Inv()
    ensures var r := ContinueRun(g, ops, hit, m);
            && m.trc <= r.trc && |r.trc| == (if r.cnt < |m.trc| then |m.trc| else r.cnt + 1)
            && (|r.trc| == |m.trc| ==> r.dut == m.dut)
            && m.cnt <= r.cnt
            && Clear(hit, r.trc, m.cnt, r.cnt)
            && ((m.cnt < r.cnt && hit(r.trc[r.cnt])) || (r.Waits() && (m.cnt < r.cnt ==> !hit(r.trc[r.cnt]))))
    decreases |m.dut| + |m.trc| - m.cnt
  {
    if !m.Waits() {
      var f := ForwardStep(g, ops, m);
      ForwardShape(g, ops, m);
      if !hit(f.trc[f.cnt]) {
        ContinueStopsAtLeastMatch(g, ops, hit, f);
        var r := ContinueRun(g, ops, hit, f);
        assert r.trc[f.cnt] == f.trc[f.cnt];
      }
    }
  }

  lemma {:induction false} ReverseIsRun<S, E>(g: Guard, ops: Ops<S, E>, hit: E -> bool, m: Machine<S, E>)
    returns (steps: seq<Step>)
    requires m.Inv()
    ensures ReverseRun(ops, hit, m) == Run(g, ops, m, steps)
    decreases m.cnt + 1
  {
    steps := [];
    if m.cnt > 0 {
      var b := BackwardStep(ops, m);
      assert Run(g, ops, m, [Backward]) == b;
      steps := [Backward];
      if !hit(b.trc[b.cnt]) {
        var rest := ReverseIsRun(g, ops, hit, b);
        RunConcat(g, ops, m, [Backward], rest);
        steps := [Backward] + rest;
      }
    }
  }

  lemma {:induction false} ContinueIsRun<S, E>(g: Guard, ops: Ops<S, E>, hit: E -> bool, m: Machine<S, E>)
    returns (steps: seq<Step>)
    requires m.Inv()
    ensures ContinueRun(g, ops, hit, m) == Run(g, ops, m, steps)
    decreases |m.dut| + |m.trc| - m.cnt
  {
    steps := [];
    if !m.Waits() {
      var f := ForwardStep(g, ops, m);
      assert Run(g, ops, m, [Forward]) == f;
      steps := [Forward];
      if !hit(f.trc[f.cnt]) {
        var rest := ContinueIsRun(g, ops, hit, f);
        RunConcat(g, ops, m, [Forward], rest);
        steps := [Forward] + rest;
      }
    }
  }

  /** From a matching position, continue brings back the position a reverse-continue left, with no DUT step. */
  lemma ContinueReturns<S, E>(g: Guard, ops: Ops<S, E>, hit: E -> bool, m: Machine<S, E>)
    requires m.Inv() && m.cnt > 0 && hit(m.trc[m.cnt])
    ensures var r := ReverseRun(ops, hit, m);
            var f := ContinueRun(g, ops, hit, r);
            r.cnt < m.cnt && f.cnt == m.cnt && f.trc == m.trc && f.dut == m.dut
  {
    var r := ReverseRun(ops, hit, m);
    var f := ContinueRun(g, ops, hit, r);
    ReverseStopsAtGreatestMatch(ops, hit, m);
    ContinueStopsAtLeastMatch(g, ops, hit, r);
  }

  /** Where time travel is exact, continue undoes reverse-continue on the whole machine, shadow included. */
  lemma ContinueUndoesReverse<S, E>(
      g: Guard, ops: Ops<S, E>, hit: E -> bool, start: Machine<S, E>, steps: seq<Step>)
    requires IsStart(start) && Exact(g, ops, start)
    requires var m := Run(g, ops, start, steps); m.cnt > 0 && hit(m.trc[m.cnt])
    ensures var m := Run(g, ops, start, steps);
            ContinueRun(g, ops, hit, ReverseRun(ops, hit, m)) == m
  {
    var m := Run(g, ops, start, steps);
    var r := ReverseRun(ops, hit, m);
    ContinueReturns(g, ops, hit, m);
    var back := ReverseIsRun(g, ops, hit, m);
    var again := ContinueIsRun(g, ops, hit, r);
    RunConcat(g, ops, start, steps, back);
    RunConcat(g, ops, start, steps + back, again);
    assert Run(g, ops, start, steps + back + again).cnt == m.cnt;
  }
}
