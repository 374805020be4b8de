/** The kernel function collatz_iterations on 32-bit words, against the integer trajectory. */
module Collatz {
  import opened Bytes

  const MAX_U32 := 0xffff_ffff
  const SENTINEL: u32 := 4294967295

  /** The integer recurrence, with no width. */
  function Successor(n: nat): nat {
    if n % 2 == 0 then n / 2 else 3 * n + 1
  }

  function Orbit(n: nat, k: nat): nat {
    if k == 0 then n else Successor(Orbit(n, k - 1))
  }

  /** The trajectory has reached 1 (or 0), or has left the 32-bit words. */
  predicate Exits(n: nat, k: nat) {
    Orbit(n, k) <= 1 || Orbit(n, k) > MAX_U32
  }

  ghost predicate FirstExit(n: nat, k: nat) {
    Exits(n, k) && forall i :: 0 <= i < k ==> !Exits(n, i)
  }

  /**
   `s` is the integer trajectory from `n`, halved when even and tripled plus one when odd, as long
   as it stays above 1 and inside the 32-bit words; its last value is the first that does not.
   */
  predicate Trajectory(n: nat, s: seq<nat>) {
    && s != [] && s[0] == n
    && (forall i :: 0 <= i < |s| - 1 ==> 2 <= s[i] <= 0xffff_ffff && Follows(s[i], s[i + 1]))
    && (s[|s| - 1] <= 1 || s[|s| - 1] > 0xffff_ffff)
  }

  predicate Follows(x: nat, y: nat) {
    if x % 2 == 0 then 2 * y == x else y == 3 * x + 1
  }

  ghost predicate Terminates(n: nat) {
    exists s :: Trajectory(n, s)
  }

  /** The integers exceed the 32-bit words before they reach 1. */
  ghost predicate LeavesFirst(n: nat) {
    exists j: nat :: Orbit(n, j) > MAX_U32 && forall i: nat :: i < j ==> Orbit(n, i) > 1
  }

  lemma {:induction false} FirstExitExists(n: nat, k: nat) returns (m: nat)
    requires Exits(n, k)
    ensures m <= k && FirstExit(n, m)
    decreases k
  {
    if j :| 0 <= j < k && Exits(n, j) {
      m := FirstExitExists(n, j);
    } else {
      m := k;
    }
  }

  /** A trajectory is the orbit up to its first exit. */
  lemma TrajectoryIsOrbit(n: nat, s: seq<nat>)
    requires Trajectory(n, s)
    ensures forall i :: 0 <= i < |s| ==> s[i] == Orbit(n, i)
    ensures FirstExit(n, |s| - 1)
  {
    TrajectoryValues(n, s, |s| - 1);
    forall i | 0 <= i < |s| - 1 ensures !Exits(n, i) {
      assert s[i] == Orbit(n, i);
    }
  }

  lemma {:induction false} TrajectoryValues(n: nat, s: seq<nat>, m: nat)
    requires Trajectory(n, s) && m < |s|
    ensures forall i :: 0 <= i <= m ==> s[i] == Orbit(n, i)
    decreases m
  {
    if m > 0 {
      TrajectoryValues(n, s, m - 1);
      assert Follows(s[m - 1], s[m - 1 + 1]);
      assert Orbit(n, m) == Successor(Orbit(n, m - 1));
    }
  }

  /** And the orbit up to its first exit is a trajectory. */
  lemma OrbitIsTrajectory(n: nat, k: nat)
    requires FirstExit(n, k)
    ensures Trajectory(n, seq(k + 1, i requires 0 <= i => Orbit(n, i)))
  {
    var s := seq(k + 1, i requires 0 <= i => Orbit(n, i));
    forall i | 0 <= i < k ensures 2 <= s[i] <= 0xffff_ffff && Follows(s[i], s[i + 1]) {
      assert !Exits(n, i);
      assert Orbit(n, i + 1) == Successor(Orbit(n, i));
    }
  }

  lemma FirstExitUnique(n: nat, k: nat, m: nat)
    requires FirstExit(n, k) && FirstExit(n, m)
    ensures k == m
  {
  }

  lemma {:induction false} OrbitShift(n: nat, i: nat, j: nat, d: nat)
    requires Orbit(n, i) == Orbit(n, j)
    ensures Orbit(n, i + d) == Orbit(n, j + d)
    decreases d
  {
    if d > 0 {
      OrbitShift(n, i, j, d - 1);
    }
  }

  /** A trajectory that ends does not repeat a value on the way. */
  lemma Distinct(n: nat, k: nat, i: nat, j: nat)
    requires FirstExit(n, k) && i < j < k
    ensures Orbit(n, i) != Orbit(n, j)
  {
    if Orbit(n, i) == Orbit(n, j) {
      OrbitShift(n, i, j, k - j);
      assert Exits(n, i + (k - j));
    }
  }

  function Visited(n: nat, k: nat): set<nat> {
    set i | 0 <= i < k :: Orbit(n, i)
  }

  lemma {:induction false} VisitedCount(n: nat, k: nat, m: nat)
    requires FirstExit(n, k) && m <= k
    ensures |Visited(n, m)| == m
    decreases m
  {
    if m > 0 {
      VisitedCount(n, k, m - 1);
      var x := Orbit(n, m - 1);
      forall i | 0 <= i < m - 1 ensures Orbit(n, i) != x {
        Distinct(n, k, i, m - 1);
      }
      assert Visited(n, m) == Visited(n, m - 1) + {x};
    }
  }

  lemma {:induction false} BoundedSet(s: set<nat>, lo: nat, hi: nat)
    requires lo <= hi && forall x :: x in s ==> lo <= x < hi
    ensures |s| <= hi - lo
    decreases hi - lo
  {
    if lo == hi {
      assert s == {};
    } else {
      BoundedSet(s - {hi - 1}, lo, hi - 1);
    }
  }

  /** Before the exit there are fewer steps than 32-bit words above 1: the pigeonhole bound. */
  lemma StepsBounded(n: nat, k: nat)
    requires FirstExit(n, k)
    ensures k <= MAX_U32 - 1
  {
    VisitedCount(n, k, k);
    forall x | x in Visited(n, k) ensures 2 <= x < MAX_U32 + 1 {
      var i: nat :| i < k && x == Orbit(n, i);
      assert !Exits(n, i);
    }
    BoundedSet(Visited(n, k), 2, MAX_U32 + 1);
  }

  /** The guard `n >= 0x55555555` is exactly the overflow of `3n + 1`, for odd words. */
  lemma GuardIsOverflow(n: u32)
    requires n % 2 == 1
    ensures n >= 1431655765 <==> 3 * n + 1 > MAX_U32
  {
  }

  /** The kernel's `3u * n + 1u` and `i + 1u`, which wrap. */
  function TripleWord(n: u32): u32 {
    (3 * n % U32 + 1) % U32
  }

  function NextWord(i: u32): u32 {
    (i + 1) % U32
  }

  /** One turn of the loop before the exit: the words hold the integers, or the guard fires. */
  lemma LoopStep(n: nat, last: nat, i: nat)
    requires FirstExit(n, last) && last <= MAX_U32 - 1 && i <= last && 1 < Orbit(n, i) <= MAX_U32
    ensures i < last && NextWord(i) == i + 1
    ensures var x := Orbit(n, i);
            if x % 2 == 1 && x >= 1431655765 then last == i + 1 && Orbit(n, last) > MAX_U32
            else Orbit(n, i + 1) == (if x % 2 == 0 then x / 2 else TripleWord(x)) && Orbit(n, i + 1) <= MAX_U32
  {
    var x := Orbit(n, i);
    assert !Exits(n, i);
    assert Orbit(n, i + 1) == Successor(x);
    if x % 2 == 1 {
      GuardIsOverflow(x);
      assert Orbit(n, i + 1) > MAX_U32 ==> Exits(n, i + 1);
    }
  }

  /**
   Run on any start whose trajectory ends: the true step count when it reaches 1 inside the
   32-bit words, the sentinel when it leaves them, and no count can be the sentinel. The
   assignments wrap as the kernel's do; that they never have to is part of the proof.
   */
  method CollatzIterations(nBase: u32) returns (count: u32)
    requires Terminates(nBase)
    ensures forall s :: Trajectory(nBase, s) ==>
              count == if s[|s| - 1] <= 1 then |s| - 1 else 4294967295
    ensures forall s :: Trajectory(nBase, s) ==> (count == 4294967295 <==> s[|s| - 1] > 0xffff_ffff)
    ensures exists s :: Trajectory(nBase, s)
    ensures count == SENTINEL <==> LeavesFirst(nBase)
  {
    ghost var t: seq<nat> :| Trajectory(nBase, t);
    ghost var last := |t| - 1;
    TrajectoryIsOrbit(nBase, t);
    Answer(nBase, last);
    OneTrajectory(nBase, t);
    var n: u32 := nBase;
    var i: u32 := 0;
    hide Orbit, Exits, FirstExit, Trajectory, LeavesFirst, TripleWord, NextWord;
    OrbitStart(nBase);
    while true
      invariant i <= last && n == Orbit(nBase, i)
      decreases last - i
    {
      if n <= 1 {
        break;
      }
      LoopStep(nBase, last, i);
      if n % 2 == 0 {
        n := n / 2;
      } else {
        if n >= 1431655765 {
          return SENTINEL;
        }
        n := TripleWord(n);
      }
      i := NextWord(i);
    }
    ExitsAtOne(nBase, last, i);
    count := i;
  }

  /** What the first exit says of the result. */
  lemma Answer(n: u32, last: nat)
    requires FirstExit(n, last)
    ensures last <= MAX_U32 - 1
    ensures forall k: nat :: FirstExit(n, k) ==> k == last
    ensures Orbit(n, last) > 1 <==> LeavesFirst(n)
  {
    StepsBounded(n, last);
    OnlyExit(n, last);
    SentinelIsUnambiguous(n, last);
  }

  lemma OneTrajectory(n: nat, t: seq<nat>)
    requires Trajectory(n, t)
    ensures forall s :: Trajectory(n, s) ==> s == t
  {
    TrajectoryIsOrbit(n, t);
    forall s | Trajectory(n, s) ensures s == t {
      TrajectoryIsOrbit(n, s);
      FirstExitUnique(n, |s| - 1, |t| - 1);
    }
  }

  lemma OrbitStart(n: nat)
    ensures Orbit(n, 0) == n
  {}

  lemma ExitsAtOne(n: nat, last: nat, i: nat)
    requires FirstExit(n, last) && i <= last && Orbit(n, i) <= 1
    ensures i == last
  {
    assert Exits(n, i);
  }

  lemma OnlyExit(n: nat, k: nat)
    requires FirstExit(n, k)
    ensures forall m :: FirstExit(n, m) ==> m == k
  {
    forall m | FirstExit(n, m) ensures m == k {
      FirstExitUnique(n, k, m);
    }
  }

  /** The first exit decides: over the words exactly when the integers leave them before reaching 1. */
  lemma SentinelIsUnambiguous(n: u32, k: nat)
    requires FirstExit(n, k)
    ensures (if Orbit(n, k) <= 1 then k else SENTINEL) == SENTINEL <==> LeavesFirst(n)
    ensures Orbit(n, k) > 1 <==> LeavesFirst(n)
  {
    StepsBounded(n, k);
    if Orbit(n, k) > MAX_U32 {
      forall i: nat | i < k ensures Orbit(n, i) > 1 { assert !Exits(n, i); }
    } else {
      forall j: nat | Orbit(n, j) > MAX_U32 ensures exists i: nat :: i < j && Orbit(n, i) <= 1 {
        assert Exits(n, j);
        assert k < j;
      }
    }
  }
}
