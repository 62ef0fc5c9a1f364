/** The SQLRDD record cache: a ring of three pages of slots, a window of it in use, and the
    searches for the next record before or after a slot. */
module Ring {

  /** fixCachePointer: one correction around a ring of `n` slots numbered from 1. */
  function Fix(n: int, p: int): int {
    if p < 1 then p + n else if p > n then p - n else p
  }

  predicate OnRing(n: int, p: int) {
    1 <= p <= n
  }

  /** One correction is enough for a pointer up to a ring's length off, and no more: it is then on
      the ring, and it is the one slot there that is the pointer modulo the ring. */
  lemma FixIsExact(n: int, p: int)
    requires n > 0
    ensures OnRing(n, Fix(n, p)) <==> -n < p <= 2 * n
    ensures Fix(n, p) % n == p % n
    ensures forall q :: OnRing(n, q) && q % n == p % n && OnRing(n, Fix(n, p)) ==> q == Fix(n, p)
  {
    var r := Fix(n, p);
    SameRest(n, p, r);
    forall q | OnRing(n, q) && q % n == p % n && OnRing(n, r) ensures q == r {
      OneSlot(n, q, r);
    }
  }

  lemma SameRest(n: int, p: int, r: int)
    requires n > 0 && (r == p || r == p + n || r == p - n)
    ensures r % n == p % n
  {
    var k := p / n;
    assert p == n * k + p % n;
    if r == p + n {
      Rest(n, r, k + 1, p % n);
    } else if r == p - n {
      Rest(n, r, k - 1, p % n);
    }
  }

  lemma Rest(n: int, r: int, k: int, rest: int)
    requires n > 0 && r == n * k + rest && 0 <= rest < n
    ensures r % n == rest
  {
    assert n * (r / n - k) == rest - r % n;
    Multiple(n, r / n - k);
  }

  lemma Multiple(n: int, d: int)
    requires n > 0
    ensures d >= 1 ==> n * d >= n
    ensures d <= -1 ==> n * d <= -n
    decreases if d < 0 then -d else d
  {
    if d > 1 {
      Multiple(n, d - 1);
    } else if d < -1 {
      Multiple(n, d + 1);
    }
  }

  lemma OneSlot(n: int, a: int, b: int)
    requires OnRing(n, a) && OnRing(n, b) && a % n == b % n
    ensures a == b
  {
    if a < n { Rest(n, a, 0, a); } else { Rest(n, a, 1, 0); }
    if b < n { Rest(n, b, 0, b); } else { Rest(n, b, 1, 0); }
  }

  /** The slot `k` places after (or before) slot `p`, for less than a turn. */
  function Step(n: int, p: int, fwd: bool, k: int): int {
    Fix(n, if fwd then p + k else p - k)
  }

  lemma StepsAdd(n: int, p: int, fwd: bool, j: nat, k: nat)
    requires OnRing(n, p) && j + k < n
    ensures OnRing(n, Step(n, p, fwd, j)) && Step(n, Step(n, p, fwd, j), fwd, k) == Step(n, p, fwd, j + k)
    ensures Step(n, Step(n, p, fwd, j), !fwd, j) == p
  {
  }

  /** isCachePointerInRange. */
  predicate InRange(p: int, begin: int, end: int) {
    if begin == end then p == begin
    else if begin < end then begin <= p <= end
    else p >= begin || p <= end
  }

  /** The steps from `a` forward to `b`. */
  function Offset(n: int, a: int, b: int): int {
    if b >= a then b - a else b - a + n
  }

  /** The window test is an arc of the ring: no further from the beginning than the end is. */
  lemma RangeIsArc(n: int, p: int, begin: int, end: int)
    requires OnRing(n, p) && OnRing(n, begin) && OnRing(n, end)
    ensures InRange(p, begin, end) <==> Offset(n, begin, p) <= Offset(n, begin, end)
  {
  }

  predicate ProperArc(n: int, begin: int, end: int) {
    OnRing(n, begin) && OnRing(n, end) && Offset(n, begin, end) < n - 1
  }

  predicate Live(cache: seq<bool>, p: int) {
    OnRing(|cache|, p) && cache[p - 1]
  }

  /** The first live slot among `steps` slots from `p` on, in one direction, or 0. */
  function FirstLive(cache: seq<bool>, p: int, fwd: bool, steps: nat): int
    decreases steps
  {
    if steps == 0 then 0
    else if Live(cache, p) then p
    else FirstLive(cache, Step(|cache|, p, fwd, 1), fwd, steps - 1)
  }

  /** How many slots a search from `p` may visit: those up to the window's end in its direction. */
  function Reach(n: int, begin: int, end: int, p: int, fwd: bool): (r: nat)
    requires OnRing(n, begin) && OnRing(n, end) && OnRing(n, p)
    ensures r <= n
  {
    if Offset(n, begin, p) > Offset(n, begin, end) then 0
    else if fwd then Offset(n, begin, end) - Offset(n, begin, p) + 1
    else Offset(n, begin, p) + 1
  }

  /** In a proper arc each step brings the search one slot closer to leaving the window. */
  lemma ReachStep(n: int, begin: int, end: int, p: int, fwd: bool)
    requires ProperArc(n, begin, end) && OnRing(n, p)
    ensures InRange(p, begin, end) <==> Reach(n, begin, end, p, fwd) > 0
    ensures OnRing(n, Step(n, p, fwd, 1))
    ensures InRange(p, begin, end) ==> Reach(n, begin, end, Step(n, p, fwd, 1), fwd) == Reach(n, begin, end, p, fwd) - 1
  {
    RangeIsArc(n, p, begin, end);
  }

  /** A search returns 0 exactly when no slot it may visit is live, and otherwise the nearest one. */
  lemma {:induction false} FirstLiveIsNearest(cache: seq<bool>, p: int, fwd: bool, steps: nat) returns (k: nat)
    requires OnRing(|cache|, p) && steps <= |cache|
    ensures k <= steps && forall j :: 0 <= j < k ==> !Live(cache, Step(|cache|, p, fwd, j))
    ensures FirstLive(cache, p, fwd, steps) == if k == steps then 0 else Step(|cache|, p, fwd, k)
    ensures k < steps ==> Live(cache, Step(|cache|, p, fwd, k))
    decreases steps
  {
    var n := |cache|;
    if steps == 0 || Live(cache, p) {
      k := 0;
    } else {
      var next := Step(n, p, fwd, 1);
      var k' := FirstLiveIsNearest(cache, next, fwd, steps - 1);
      k := k' + 1;
      forall j | 0 < j < k || (j == k && k < steps) ensures Step(n, p, fwd, j) == Step(n, next, fwd, j - 1) {
        StepsAdd(n, p, fwd, 1, j - 1);
      }
    }
  }

  /** Over a full turn, any live slot is enough for the search to find one. */
  lemma FullTurnFinds(cache: seq<bool>, p: int, fwd: bool, q: int)
    requires OnRing(|cache|, p) && Live(cache, q)
    ensures FirstLive(cache, p, fwd, |cache|) != 0
  {
    var k := FirstLiveIsNearest(cache, p, fwd, |cache|);
    var j := if fwd then Offset(|cache|, p, q) else Offset(|cache|, q, p);
    assert Step(|cache|, p, fwd, j) == q;
  }

  /** What searchCacheFWD and searchCacheBWD return from slot `pos`. */
  function Found(cache: seq<bool>, begin: int, end: int, pos: int, advance: bool, fwd: bool): int
    requires pos == 0 || (OnRing(|cache|, pos) && OnRing(|cache|, begin) && OnRing(|cache|, end))
  {
    if pos == 0 then 0
    else
      var s := Step(|cache|, pos, fwd, if advance then 1 else 0);
      FirstLive(cache, s, fwd, if ProperArc(|cache|, begin, end) then Reach(|cache|, begin, end, s, fwd) else |cache|)
  }

  /** The slot `k` places from `p`, by arithmetic modulo the ring. */
  function Slot(n: int, p: int, fwd: bool, k: int): int
    requires n > 0
  {
    1 + (if fwd then p - 1 + k else p - 1 - k) % n
  }

  lemma StepIsSlot(n: int, p: int, fwd: bool, k: nat)
    requires OnRing(n, p) && k <= n
    ensures Step(n, p, fwd, k) == Slot(n, p, fwd, k)
  {
    var x := if fwd then p - 1 + k else p - 1 - k;
    if x < 0 {
      SameRest(n, x, x + n);
    } else if x >= n {
      SameRest(n, x, x - n);
    }
    var r := Step(n, p, fwd, k) - 1;
    assert 0 <= r < n && (r == x || r == x + n || r == x - n);
    SameRest(n, x, r);
    Rest(n, r, 0, r);
  }

  /** From a slot of a proper window, with the advance flag or without: the search returns the live
      slot nearest to it - from the next slot on with the flag, from the slot itself without - among
      those between it and the end of the window in its direction, or 0 if and only if none is live. */
  lemma FoundIsNearest(cache: seq<bool>, begin: int, end: int, pos: int, advance: bool, fwd: bool)
    requires ProperArc(|cache|, begin, end) && OnRing(|cache|, pos) && InRange(pos, begin, end)
    ensures var n := |cache|; var q := Found(cache, begin, end, pos, advance, fwd);
            var from: nat := if advance then 1 else 0;
            var room := if fwd then Offset(n, begin, end) - Offset(n, begin, pos) else Offset(n, begin, pos);
            && (q == 0 <==> forall k :: from <= k <= room ==> !cache[Slot(n, pos, fwd, k) - 1])
            && (q != 0 ==> exists k :: from <= k <= room && q == Slot(n, pos, fwd, k) && cache[q - 1]
                                       && forall j :: from <= j < k ==> !cache[Slot(n, pos, fwd, j) - 1])
  {
    var n := |cache|;
    var from: nat := if advance then 1 else 0;
    var room := if fwd then Offset(n, begin, end) - Offset(n, begin, pos) else Offset(n, begin, pos);
    RangeIsArc(n, pos, begin, end);
    var s := Step(n, pos, fwd, from);
    ReachFrom(n, begin, end, pos, advance, fwd);
    var steps: nat := room - from + 1;
    var k := FirstLiveIsNearest(cache, s, fwd, steps);
    forall j: nat | from <= j <= room
      ensures Step(n, s, fwd, j - from) == Slot(n, pos, fwd, j) && OnRing(n, Slot(n, pos, fwd, j))
    {
      StepsAdd(n, pos, fwd, from, j - from);
      StepIsSlot(n, pos, fwd, j);
    }
    if k < steps {
      assert cache[Slot(n, pos, fwd, from + k) - 1];
    }
  }

  lemma ReachFrom(n: int, begin: int, end: int, pos: int, advance: bool, fwd: bool)
    requires ProperArc(n, begin, end) && OnRing(n, pos) && InRange(pos, begin, end)
    ensures var from := if advance then 1 else 0;
            var room := if fwd then Offset(n, begin, end) - Offset(n, begin, pos) else Offset(n, begin, pos);
            && OnRing(n, Step(n, pos, fwd, from)) && 0 <= room < n - 1
            && Reach(n, begin, end, Step(n, pos, fwd, from), fwd) == room - from + 1
  {
    RangeIsArc(n, pos, begin, end);
    ReachStep(n, begin, end, pos, fwd);
  }

  lemma FirstLiveIs(cache: seq<bool>, p: int, fwd: bool, steps: nat, k: nat)
    requires OnRing(|cache|, p) && k < steps <= |cache|
    requires Live(cache, Step(|cache|, p, fwd, k)) && forall j :: 0 <= j < k ==> !Live(cache, Step(|cache|, p, fwd, j))
    ensures FirstLive(cache, p, fwd, steps) == Step(|cache|, p, fwd, k)
  {
    var k' := FirstLiveIsNearest(cache, p, fwd, steps);
  }

  /** Searching forward from a live slot of a proper window and then back, or back and then
      forward, returns to that slot, whenever the first search finds one. */
  lemma SearchesAreInverse(cache: seq<bool>, begin: int, end: int, pos: int, fwd: bool)
    requires ProperArc(|cache|, begin, end) && OnRing(|cache|, pos)
    requires InRange(pos, begin, end) && Live(cache, pos)
    requires Found(cache, begin, end, pos, true, fwd) != 0
    ensures var q := Found(cache, begin, end, pos, true, fwd);
            OnRing(|cache|, q) && Live(cache, q) && Found(cache, begin, end, q, true, !fwd) == pos
  {
    var n := |cache|;
    var s := Step(n, pos, fwd, 1);
    RangeIsArc(n, pos, begin, end);
    var k := FirstLiveIsNearest(cache, s, fwd, Reach(n, begin, end, s, fwd));
    var q := Step(n, s, fwd, k);
    var s' := Step(n, q, !fwd, 1);
    BackInReach(n, begin, end, pos, fwd, k);
    var back := !fwd;
    forall j | 0 <= j < k ensures !Live(cache, Step(n, s', back, j)) {
      BackStep(n, pos, fwd, k, j);
      assert !Live(cache, Step(n, s, fwd, k - 1 - j));
    }
    BackStep(n, pos, fwd, k, k);
    FirstLiveIs(cache, s', !fwd, Reach(n, begin, end, s', !fwd), k);
  }

  /** The way back covers at least the slots of the way there. */
  lemma BackInReach(n: int, begin: int, end: int, pos: int, fwd: bool, k: nat)
    requires ProperArc(n, begin, end) && OnRing(n, pos) && InRange(pos, begin, end)
    requires k < Reach(n, begin, end, Step(n, pos, fwd, 1), fwd)
    ensures var q := Step(n, Step(n, pos, fwd, 1), fwd, k);
            OnRing(n, q) && OnRing(n, Step(n, q, !fwd, 1)) && Reach(n, begin, end, Step(n, q, !fwd, 1), !fwd) > k
  {
    RangeIsArc(n, pos, begin, end);
  }

  /** One place short of the slot found, `j` places back, is `k - 1 - j` places after the start. */
  lemma BackStep(n: int, pos: int, fwd: bool, k: nat, j: nat)
    requires OnRing(n, pos) && j <= k && k + 1 < n
    ensures var s := Step(n, pos, fwd, 1);
            var back := Step(n, Step(n, Step(n, s, fwd, k), !fwd, 1), !fwd, j);
            back == if j == k then pos else Step(n, s, fwd, k - 1 - j)
  {
  }

  class RingCache {
    const pageSize: nat
    var cache: seq<bool>      // aCache: whether each slot holds a record
    var posCache: int         // aInfo[SR_AINFO_NPOSCACHE], 0 for none
    var cacheBegin: int
    var cacheEnd: int

    predicate Valid()
      reads this
    {
      && pageSize > 0 && |cache| == pageSize * 3
      && 0 <= posCache <= |cache| && (posCache != 0 ==> OnRing(|cache|, cacheBegin) && OnRing(|cache|, cacheEnd))
    }

    /** The searches end: the window is a proper arc, or there is something to find. */
    ghost predicate Searchable()
      requires Valid()
      reads this
    {
      posCache != 0 ==> ProperArc(|cache|, cacheBegin, cacheEnd) || exists q :: Live(cache, q)
    }

    method FixCachePointer(p: int) returns (r: int)
      requires Valid()
      ensures r == Fix(|cache|, p) && (OnRing(|cache|, r) <==> -|cache| < p <= 2 * |cache|)
              && r % |cache| == p % |cache|
    {
      FixIsExact(|cache|, p);
      r := p;
      if r < 1 {
        r := r + pageSize * 3;
      } else if r > pageSize * 3 {
        r := r - pageSize * 3;
      }
    }

    method SearchCacheFWD(advance: bool) returns (r: int)
      requires Valid() && Searchable()
      ensures r == Found(cache, cacheBegin, cacheEnd, posCache, advance, true)
    {
      if posCache == 0 {
        return 0;
      }
      var p := posCache;
      if advance {
        p := p + 1;
      }
      p := FixCachePointer(p);
      r := Search(p, true);
    }

    method SearchCacheBWD(advance: bool) returns (r: int)
      requires Valid() && Searchable()
      ensures r == Found(cache, cacheBegin, cacheEnd, posCache, advance, false)
    {
      if posCache == 0 {
        return 0;
      }
      var p := posCache;
      if advance {
        p := p - 1;
      }
      p := FixCachePointer(p);
      r := Search(p, false);
    }

    /** The loop of both searches. */
    method Search(from: int, fwd: bool) returns (r: int)
      requires Valid() && Searchable() && posCache != 0 && OnRing(|cache|, from)
      ensures r == FirstLive(cache, from, fwd, if ProperArc(|cache|, cacheBegin, cacheEnd)
                                               then Reach(|cache|, cacheBegin, cacheEnd, from, fwd) else |cache|)
    {
      ghost var n := |cache|;
      var p := from;
      ghost var proper := ProperArc(n, cacheBegin, cacheEnd);
      ghost var left: nat := if proper then Reach(n, cacheBegin, cacheEnd, from, fwd) else n;
      ghost var goal := FirstLive(cache, from, fwd, left);
      if !proper {
        ghost var q :| Live(cache, q);
        FullTurnFinds(cache, from, fwd, q);
      } else {
        ReachStep(n, cacheBegin, cacheEnd, p, fwd);
      }
      while InRange(p, cacheBegin, cacheEnd)
        invariant OnRing(n, p) && FirstLive(cache, p, fwd, left) == goal
        invariant proper ==> left == Reach(n, cacheBegin, cacheEnd, p, fwd)
        invariant proper ==> (InRange(p, cacheBegin, cacheEnd) <==> left > 0)
        invariant !proper ==> goal != 0
        decreases left
      {
        if cache[p - 1] {
          return p;
        }
        if proper {
          ReachStep(n, cacheBegin, cacheEnd, p, fwd);
        }
        p := FixCachePointer(if fwd then p + 1 else p - 1);
        left := left - 1;
        if proper {
          ReachStep(n, cacheBegin, cacheEnd, p, fwd);
        }
      }
      if !proper {
        RangeIsArc(n, p, cacheBegin, cacheEnd);
      }
      return 0;
    }
  }

  /** A full-ring window with no live slot: wherever it goes, the search stays inside the window
      and finds nothing, so it never ends. */
  lemma FullEmptyRingNeverEnds(cache: seq<bool>, begin: int, end: int, p: int, fwd: bool)
    requires OnRing(|cache|, begin) && OnRing(|cache|, end) && !ProperArc(|cache|, begin, end)
    requires OnRing(|cache|, p) && forall q :: !Live(cache, q)
    ensures InRange(p, begin, end) && !cache[p - 1] && OnRing(|cache|, Step(|cache|, p, fwd, 1))
  {
    assert !Live(cache, p);
    RangeIsArc(|cache|, p, begin, end);
  }
}
