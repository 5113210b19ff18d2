/** Loops that look at the tick counter until it is over a deadline: which of them may look for ever.
    A look is told by its true time, or by the time since the loop started; the code compares it
    modulo 2^32. */
module Polling {
  import opened Basics

  /** Longest time from one look to the next: the delay, which may overrun, and two more calls. */
  function LookSpan(latency: nat, waitStep: u32): nat {
    waitStep + 3 * latency
  }

  /** Looks that a loop may take. */
  predicate Paced(latency: nat, waitStep: u32, looks: seq<nat>) {
    forall i :: 0 < i < |looks| ==> looks[i - 1] + waitStep <= looks[i] <= looks[i - 1] + LookSpan(latency, waitStep)
  }

  /** None of the looks finds the deadline passed. */
  predicate NoneOver(deadline: u32, looks: seq<nat>) {
    forall i :: 0 <= i < |looks| ==> Wrap32(looks[i]) <= deadline
  }

  /** A loop may look n times, first between `lo` and `hi`, without finding the deadline passed. */
  ghost predicate MayLook(latency: nat, waitStep: u32, deadline: u32, lo: nat, hi: nat, n: nat) {
    exists looks: seq<nat> ::
      |looks| == n && (n > 0 ==> lo <= looks[0] <= hi) && Paced(latency, waitStep, looks) && NoneOver(deadline, looks)
  }

  ghost predicate MayLookForEver(latency: nat, waitStep: u32, deadline: u32, lo: nat, hi: nat) {
    forall n :: MayLook(latency, waitStep, deadline, lo, hi, n)
  }

  /** The loop does not advance, or may step over every tick above the deadline. */
  predicate Missable(latency: nat, waitStep: u32, deadline: u32) {
    waitStep == 0 || deadline + LookSpan(latency, waitStep) >= 0x1_0000_0000
  }

  /** From one look that is not over to the next, the tick advances with the true time, unless the
      deadline can be missed. */
  lemma TickAdvances(latency: nat, waitStep: u32, deadline: u32, t: nat, u: nat)
    requires !Missable(latency, waitStep, deadline) && Wrap32(t) <= deadline
    requires t + waitStep <= u <= t + LookSpan(latency, waitStep)
    ensures Wrap32(u) == Wrap32(t) + (u - t) > Wrap32(t)
  {
  }

  lemma {:induction false} LooksClimb(latency: nat, waitStep: u32, deadline: u32, looks: seq<nat>, i: nat)
    requires !Missable(latency, waitStep, deadline) && i < |looks|
    requires Paced(latency, waitStep, looks) && NoneOver(deadline, looks)
    ensures Wrap32(looks[i]) >= i
  {
    if i > 0 {
      hide Wrap32, Missable, LookSpan;
      LooksClimb(latency, waitStep, deadline, looks, i - 1);
      TickAdvances(latency, waitStep, deadline, looks[i - 1], looks[i]);
    }
  }

  /** A deadline that cannot be missed ends the loop: there are no more looks than ticks up to it. */
  lemma LooksEnd(latency: nat, waitStep: u32, deadline: u32, looks: seq<nat>)
    requires !Missable(latency, waitStep, deadline)
    requires Paced(latency, waitStep, looks) && NoneOver(deadline, looks)
    ensures |looks| <= deadline + 1
  {
    if looks != [] {
      LooksClimb(latency, waitStep, deadline, looks, |looks| - 1);
    }
  }

  // ---------------------------------------------------------------- missing a deadline

  lemma Multiples(i: nat, j: nat, w: nat)
    requires i <= j
    ensures i * w <= j * w
    ensures j == i + 1 ==> j * w == i * w + w
  {
    assert j * w == i * w + (j - i) * w;
    assert (j - i) * w >= 0;
  }

  /** No tick is over the last tick. */
  lemma LastTickIsNeverPassed(latency: nat, waitStep: u32, lo: nat, hi: nat, n: nat)
    requires lo <= hi
    ensures MayLook(latency, waitStep, 0xffff_ffff, lo, hi, n)
  {
    var looks := seq(n, i requires 0 <= i < n => lo + i * waitStep);
    forall i | 0 < i < n ensures looks[i] == looks[i - 1] + waitStep {
      Multiples(i - 1, i, waitStep);
    }
    assert n > 0 ==> looks[0] == lo;
    assert Paced(latency, waitStep, looks) && NoneOver(0xffff_ffff, looks);
  }

  lemma LastTickForEver(latency: nat, waitStep: u32, lo: nat, hi: nat)
    requires lo <= hi
    ensures MayLookForEver(latency, waitStep, 0xffff_ffff, lo, hi)
  {
    forall n ensures MayLook(latency, waitStep, 0xffff_ffff, lo, hi, n) {
      LastTickIsNeverPassed(latency, waitStep, lo, hi, n);
    }
  }

  /** The i-th look of a climb: the first r steps are one tick longer than the wait step. */
  function Rung(p: nat, waitStep: u32, r: nat, i: nat): nat {
    p + i * waitStep + if i < r then i else r
  }

  lemma RungsAscend(p: nat, waitStep: u32, r: nat, i: nat, j: nat)
    requires i <= j
    ensures Rung(p, waitStep, r, i) <= Rung(p, waitStep, r, j)
    ensures j == i + 1 ==> Rung(p, waitStep, r, i) + waitStep <= Rung(p, waitStep, r, j) <= Rung(p, waitStep, r, i) + waitStep + 1
  {
    Multiples(i, j, waitStep);
  }

  /** With latency to choose from, a climb of at least waitStep^2 ticks can end on any tick. */
  lemma ClimbTo(latency: nat, waitStep: u32, deadline: u32, p: nat) returns (looks: seq<nat>)
    requires latency >= 1 && waitStep >= 1 && Wrap32(p) + waitStep * waitStep <= deadline
    ensures looks != [] && looks[0] == p && looks[|looks| - 1] == p - Wrap32(p) + deadline
    ensures Paced(latency, waitStep, looks) && NoneOver(deadline, looks)
  {
    var d := deadline - Wrap32(p);
    var k, r := d / waitStep, d % waitStep;
    QuotientIsLarge(d, waitStep, k, r);
    looks := seq(k + 1, i requires 0 <= i <= k => Rung(p, waitStep, r, i));
    assert Rung(p, waitStep, r, k) == p + k * waitStep + r == p + d;
    assert looks[0] == Rung(p, waitStep, r, 0) == p;
    forall i | 0 <= i < |looks| ensures Wrap32(looks[i]) <= deadline {
      RungsAscend(p, waitStep, r, 0, i);
      RungsAscend(p, waitStep, r, i, k);
      SameLap(p, looks[i], deadline);
    }
    forall i | 0 < i < |looks|
      ensures looks[i - 1] + waitStep <= looks[i] <= looks[i - 1] + LookSpan(latency, waitStep)
    {
      RungsAscend(p, waitStep, r, i - 1, i);
    }
  }

  lemma QuotientIsLarge(d: nat, w: nat, k: nat, r: nat)
    requires d == k * w + r && r < w && w * w <= d
    ensures w <= k
  {
    Multiples(k, k + 1, w);
    Multiples(if k < w then k + 1 else w, w, w);
  }

  lemma SameLap(p: nat, t: nat, deadline: u32)
    requires p <= t <= p - Wrap32(p) + deadline
    ensures Wrap32(t) <= deadline
  {
  }

  /** From a look on the deadline the next one may be early in the next lap. */
  lemma StepOver(latency: nat, waitStep: u32, deadline: u32, t: nat) returns (u: nat)
    requires latency >= 1 && waitStep >= 1 && Missable(latency, waitStep, deadline)
    requires Wrap32(t) == deadline
    ensures t + waitStep <= u <= t + LookSpan(latency, waitStep)
    ensures Wrap32(u) < waitStep
  {
    var gap := 0x1_0000_0000 - deadline;
    u := t + if gap < waitStep then waitStep else gap;
  }

  /** Lap by lap, any number of looks can miss the deadline. */
  lemma {:induction false} MissForEver(latency: nat, waitStep: u32, deadline: u32, p: nat, n: nat) returns (looks: seq<nat>)
    requires latency >= 1 && waitStep >= 1 && Missable(latency, waitStep, deadline)
    requires waitStep * (waitStep + 1) <= deadline && Wrap32(p) + waitStep * waitStep <= deadline
    ensures |looks| >= n && looks != [] && looks[0] == p
    ensures Paced(latency, waitStep, looks) && NoneOver(deadline, looks)
    decreases n
  {
    hide Wrap32, LookSpan, Missable;
    looks := ClimbTo(latency, waitStep, deadline, p);
    if |looks| < n {
      var t := looks[|looks| - 1];
      OnDeadline(p, t, deadline);
      var u := StepOver(latency, waitStep, deadline, t);
      assert Wrap32(u) + waitStep * waitStep <= waitStep * (waitStep + 1);
      var more := MissForEver(latency, waitStep, deadline, u, n - |looks|);
      looks := looks + more;
    }
  }

  lemma OnDeadline(p: nat, t: nat, deadline: u32)
    requires t == p - Wrap32(p) + deadline
    ensures Wrap32(t) == deadline
  {
  }

  /** Exactly when a loop can go on for ever. The deadline has to be far enough ahead for the looks to
      meet it, and calls must take some time. */
  lemma MissedIff(latency: nat, waitStep: u32, deadline: u32, lo: nat, hi: nat)
    requires latency >= 1 && lo <= hi && Wrap32(lo) + waitStep * (waitStep + 1) <= deadline
    ensures MayLookForEver(latency, waitStep, deadline, lo, hi) <==> Missable(latency, waitStep, deadline)
  {
    if Missable(latency, waitStep, deadline) {
      forall n ensures MayLook(latency, waitStep, deadline, lo, hi, n) {
        Misses(latency, waitStep, deadline, lo, hi, n);
      }
    } else {
      var n := deadline + 2;
      if MayLook(latency, waitStep, deadline, lo, hi, n) {
        var looks: seq<nat> :| |looks| == n && Paced(latency, waitStep, looks) && NoneOver(deadline, looks);
        LooksEnd(latency, waitStep, deadline, looks);
      }
    }
  }

  lemma Misses(latency: nat, waitStep: u32, deadline: u32, lo: nat, hi: nat, n: nat)
    requires latency >= 1 && lo <= hi && Wrap32(lo) + waitStep * (waitStep + 1) <= deadline
    requires Missable(latency, waitStep, deadline)
    ensures MayLook(latency, waitStep, deadline, lo, hi, n)
  {
    hide Wrap32, LookSpan, Missable;
    var looks: seq<nat>;
    if waitStep == 0 {
      looks := seq(n, i requires 0 <= i < n => lo);
      assert Paced(latency, waitStep, looks) by { Still(latency, looks, lo); }
      assert NoneOver(deadline, looks);
    } else {
      assert waitStep * (waitStep + 1) == waitStep * waitStep + waitStep;
      looks := MissForEver(latency, waitStep, deadline, lo, n);
      looks := looks[..n];
    }
  }

  lemma Still(latency: nat, looks: seq<nat>, t: nat)
    requires forall i :: 0 <= i < |looks| ==> looks[i] == t
    ensures Paced(latency, 0, looks)
  {
  }

  /** The premise on latency is needed: calls that take no time at all leave the looks in step. Here they
      come over a deadline one lap late that they stepped over in the first. */
  lemma NotMissedInStep(n: nat)
    requires n >= 42_524_430
    ensures Missable(0, 101, 0xffff_ff9b) && !MayLook(0, 101, 0xffff_ff9b, 0xffff_ff9b, 0xffff_ff9b, n)
  {
    if MayLook(0, 101, 0xffff_ff9b, 0xffff_ff9b, 0xffff_ff9b, n) {
      var looks: seq<nat> :| |looks| == n && looks[0] == 0xffff_ff9b && Paced(0, 101, looks) && NoneOver(0xffff_ff9b, looks);
      InStep(101, looks, 42_524_429);
    }
  }

  lemma {:induction false} InStep(waitStep: u32, looks: seq<nat>, i: nat)
    requires Paced(0, waitStep, looks) && i < |looks|
    ensures looks[i] == looks[0] + i * waitStep
    decreases i
  {
    if i > 0 {
      InStep(waitStep, looks, i - 1);
      Multiples(i - 1, i, waitStep);
    }
  }

  // ---------------------------------------------------------------- the looks of one loop

  /** The looks of a loop so far: only the last may have found the deadline passed, and then the loop
      is over. */
  predicate Looked(latency: nat, waitStep: u32, deadline: u32, lo: nat, hi: nat, looks: seq<nat>, over: bool) {
    && Paced(latency, waitStep, looks) && (looks != [] ==> lo <= looks[0] <= hi)
    && (over ==> looks != [] && Wrap32(looks[|looks| - 1]) > deadline)
    && NoneOver(deadline, if over then looks[..|looks| - 1] else looks)
  }

  /** Looks that did not find the deadline passed are looks that a loop may take. */
  lemma LookedMayLook(latency: nat, waitStep: u32, deadline: u32, lo: nat, hi: nat, looks: seq<nat>)
    requires Looked(latency, waitStep, deadline, lo, hi, looks, false)
    ensures MayLook(latency, waitStep, deadline, lo, hi, |looks|)
  {
  }

  lemma NoLooks(latency: nat, waitStep: u32, deadline: u32, lo: nat, hi: nat)
    ensures Looked(latency, waitStep, deadline, lo, hi, [], false)
  {
  }

  lemma OneMoreLook(latency: nat, waitStep: u32, deadline: u32, lo: nat, hi: nat, looks: seq<nat>, t: nat)
    requires Looked(latency, waitStep, deadline, lo, hi, looks, false)
    requires if looks == [] then lo <= t <= hi
             else looks[|looks| - 1] + waitStep <= t <= looks[|looks| - 1] + LookSpan(latency, waitStep)
    ensures Looked(latency, waitStep, deadline, lo, hi, looks + [t], Wrap32(t) > deadline)
  {
    hide Wrap32, LookSpan;
    assert (looks + [t])[..|looks|] == looks;
  }
}
