/**
  The duplicate filter of p2p/src/gossip.rs: a bounded set of message numbers that
  forgets an arbitrary half of itself when full.
 */
module SeenMessages {
  import opened Basics

  /** Keeps what a traversal of `s`, in an order that is not known, meets after the first
      `toRemove` elements. */
  method RetainAfter(s: set<nat>, toRemove: nat) returns (kept: set<nat>, ghost dropped: set<nat>)
    ensures dropped <= s && kept == s - dropped
    ensures |dropped| == Min(|s|, toRemove)
  {
    kept, dropped := {}, {};
    var rest, count := s, 0;
    while rest != {}
      invariant rest <= s && dropped <= s - rest && kept == s - rest - dropped
      invariant count + |rest| == |s|
      invariant |dropped| == Min(count, toRemove)
      decreases rest
    {
      var x :| x in rest;
      rest := rest - {x};
      count := count + 1;
      if count > toRemove {
        kept := kept + {x};
      } else {
        dropped := dropped + {x};
      }
    }
  }

  class SeenMessages {
    var seen: set<nat>
    var maxSize: nat

    constructor (maxSize: nat)
      ensures seen == {} && this.maxSize == maxSize
    {
      seen := {};
      this.maxSize := maxSize;
    }

    /** Forgets the first elements of a traversal whose order is not known. */
    method CheckAndMark(num: nat) returns (isNew: bool)
      modifies this`seen
      ensures isNew <==> num !in old(seen)
      ensures !isNew ==> seen == old(seen)
      ensures isNew ==> exists forgotten :: MarkStep(old(seen), maxSize, num, forgotten, seen)
    {
      if num in seen {
        return false;
      }
      ghost var forgotten: set<nat> := {};
      if |seen| >= maxSize {
        var kept;
        kept, forgotten := RetainAfter(seen, maxSize / 2);
        seen := kept;
      }
      assert old(seen) - {} == old(seen);
      seen := seen + {num};
      isNew := true;
      assert MarkStep(old(seen), maxSize, num, forgotten, seen);
    }

    method Contains(num: nat) returns (found: bool)
      ensures found <==> num in seen
    {
      found := num in seen;
    }
  }

  /** How many numbers are forgotten when a new one comes to a set of this size. */
  function Forgets(size: nat, maxSize: nat): nat {
    if size >= maxSize then maxSize / 2 else 0
  }

  /** A new number is accepted, after `forgotten` was dropped to make room. */
  ghost predicate MarkStep(before: set<nat>, maxSize: nat, num: nat, forgotten: set<nat>, after: set<nat>) {
    && num !in before
    && forgotten <= before
    && |forgotten| == Forgets(|before|, maxSize)
    && after == before - forgotten + {num}
  }

  // ---------- Runs ----------

  /** A run of accepted calls, with what each made the filter forget. Calls that report
      a duplicate change nothing and are left out. */
  datatype Run = Run(maxSize: nat, nums: seq<nat>, forgotten: seq<set<nat>>, states: seq<set<nat>>)

  ghost predicate IsRun(r: Run) {
    && |r.forgotten| == |r.nums| && |r.states| == |r.nums| + 1
    && r.states[0] == {}
    && forall k :: 0 <= k < |r.nums| ==>
         MarkStep(r.states[k], r.maxSize, r.nums[k], r.forgotten[k], r.states[k + 1])
  }

  /** The size of the filter after `n` accepted calls, whichever numbers they brought and
      whichever half was forgotten each time. */
  function SizeAfter(maxSize: nat, n: nat): nat {
    if maxSize < 2 || n <= maxSize then n
    else maxSize - maxSize / 2 + 1 + (n - maxSize - 1) % (maxSize / 2)
  }

  lemma NextRemainder(m: nat, d: nat)
    requires d > 0
    ensures (m + 1) % d == if m % d == d - 1 then 0 else m % d + 1
  {
    var q, r := m / d, m % d;
    assert m == d * q + r;
    if r == d - 1 {
      assert m + 1 == d * (q + 1);
      RemainderIs(m + 1, d, q + 1, 0);
    } else {
      RemainderIs(m + 1, d, q, r + 1);
    }
  }

  lemma RemainderIs(m: nat, d: nat, q: nat, r: nat)
    requires r < d && m == d * q + r
    ensures m % d == r
  {
    var q', r' := m / d, m % d;
    assert d * q' + r' == d * q + r;
    if q > q' {
      MultipleAtLeast(d, q, q');
    } else if q < q' {
      MultipleAtLeast(d, q', q);
    }
  }

  lemma MultipleAtLeast(d: nat, a: nat, b: nat)
    requires a > b
    ensures d * a >= d * b + d
  {
    if a > b + 1 {
      MultipleAtLeast(d, a - 1, b);
    }
    assert d * a == d * (a - 1) + d;
  }

  lemma RemainderBelow(m: nat, d: nat)
    requires d > 0
    ensures 0 <= m % d < d
  {
  }

  lemma SizeAfterOneMore(maxSize: nat, n: nat)
    ensures SizeAfter(maxSize, n + 1) == SizeAfter(maxSize, n) - Forgets(SizeAfter(maxSize, n), maxSize) + 1
  {
    if maxSize >= 2 {
      var half := maxSize / 2;
      if n > maxSize {
        var r := (n - maxSize - 1) % half;
        NextRemainder(n - maxSize - 1, half);
        RemainderBelow(n - maxSize - 1, half);
        assert SizeAfter(maxSize, n) == maxSize - half + 1 + r;
        assert SizeAfter(maxSize, n + 1) == maxSize - half + 1 + (n - maxSize) % half;
      } else if n == maxSize {
        RemainderIs(0, half, 0, 0);
      }
    }
  }

  lemma {:induction false} SizeIsDetermined(r: Run, k: nat)
    requires IsRun(r) && k <= |r.nums|
    ensures |r.states[k]| == SizeAfter(r.maxSize, k)
  {
    if k > 0 {
      SizeIsDetermined(r, k - 1);
      SizeAfterOneMore(r.maxSize, k - 1);
      var before, dropped := r.states[k - 1], r.forgotten[k - 1];
      assert MarkStep(before, r.maxSize, r.nums[k - 1], dropped, r.states[k]);
      assert before == (before - dropped) + dropped;
    }
  }

  /** Accepted calls, counted from zero, at which something is forgotten. */
  predicate ScheduledEviction(maxSize: nat, k: nat)
    requires maxSize >= 2
  {
    k >= maxSize && (k - maxSize) % (maxSize / 2) == 0
  }

  /** The filter never outgrows its limit, if that is at least two; it first forgets at
      accepted call `maxSize + 1` and from then on at every `maxSize / 2`-th one. With a
      limit of zero or one it never forgets, and grows with every accepted call. */
  lemma EvictionSchedule(r: Run, k: nat)
    requires IsRun(r) && k < |r.nums|
    ensures r.maxSize >= 2 ==> |r.states[k]| <= r.maxSize && |r.states[k + 1]| <= r.maxSize
    ensures r.maxSize >= 2 ==>
              (r.forgotten[k] != {} <==> ScheduledEviction(r.maxSize, k))
    ensures r.maxSize >= 2 && r.forgotten[k] != {} ==> |r.forgotten[k]| == r.maxSize / 2
    ensures r.maxSize < 2 ==> r.forgotten[k] == {} && |r.states[k]| == k
  {
    SizeIsDetermined(r, k);
    SizeIsDetermined(r, k + 1);
    assert MarkStep(r.states[k], r.maxSize, r.nums[k], r.forgotten[k], r.states[k + 1]);
    if r.maxSize >= 2 {
      var half := r.maxSize / 2;
      if k > r.maxSize {
        NextRemainder(k - r.maxSize - 1, half);
        RemainderBelow(k - r.maxSize - 1, half);
      }
      if k >= r.maxSize {
        RemainderBelow(k - r.maxSize, half);
      }
    }
  }

  /** A number stays in the filter until a call forgets it. */
  lemma {:induction false} RememberedUnlessForgotten(r: Run, i: nat, j: nat)
    requires IsRun(r) && i < j <= |r.nums|
    requires forall k :: i < k < j ==> r.nums[i] !in r.forgotten[k]
    ensures r.nums[i] in r.states[j]
    decreases j
  {
    assert MarkStep(r.states[j - 1], r.maxSize, r.nums[j - 1], r.forgotten[j - 1], r.states[j]);
    if i < j - 1 {
      RememberedUnlessForgotten(r, i, j - 1);
    }
  }

  /** A number accepted twice was forgotten in between, at one of the scheduled calls; a
      filter with a limit below two accepts no number twice. */
  lemma AcceptedTwice(r: Run, i: nat, j: nat)
    requires IsRun(r) && i < j < |r.nums| && r.nums[i] == r.nums[j]
    ensures r.maxSize >= 2
    ensures exists k :: i < k < j && r.nums[i] in r.forgotten[k] && ScheduledEviction(r.maxSize, k)
  {
    assert MarkStep(r.states[j], r.maxSize, r.nums[j], r.forgotten[j], r.states[j + 1]);
    if forall k :: i < k < j ==> r.nums[i] !in r.forgotten[k] {
      RememberedUnlessForgotten(r, i, j);
      assert false;
    }
    var k :| i < k < j && r.nums[i] in r.forgotten[k];
    EvictionSchedule(r, k);
  }
}
