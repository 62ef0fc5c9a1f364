/** Multi-column index keys: the lexicographic order, and the per-level predicates
    that a skip statement of a given level applies to a row.

    A key is the sequence of the index columns of one row; natural order is the
    one-column key [recno].  Every order is parameterised by a direction `asc`, so
    that a descending scan (a backward skip, or a reversed index) is the mirror
    image of an ascending one. */
module Keys {

  type Key = seq<int>

  /** `x` sorts strictly before `y` in one column. */
  predicate Lt(asc: bool, x: int, y: int) {
    if asc then x < y else y < x
  }

  /** `a` sorts strictly before `b`, first column most significant. */
  predicate Before(asc: bool, a: Key, b: Key)
    requires |a| == |b|
  {
    a != [] && (Lt(asc, a[0], b[0]) || (a[0] == b[0] && Before(asc, a[1..], b[1..])))
  }

  ghost predicate SameWidth(rows: seq<Key>, n: nat) {
    forall i :: 0 <= i < |rows| ==> |rows[i]| == n
  }

  /** `rows` is in strict order, hence free of duplicates. */
  ghost predicate Sorted(asc: bool, rows: seq<Key>, n: nat) {
    SameWidth(rows, n) && forall i, j :: 0 <= i < j < |rows| ==> Before(asc, rows[i], rows[j])
  }

  function Reverse<T>(s: seq<T>): (r: seq<T>)
    ensures |r| == |s|
    ensures forall i :: 0 <= i < |s| ==> r[i] == s[|s| - 1 - i]
  {
    if s == [] then [] else Reverse(s[1..]) + [s[0]]
  }

  lemma BeforeIsStrict(asc: bool, a: Key, b: Key)
    requires |a| == |b|
    ensures !(Before(asc, a, b) && Before(asc, b, a))
    ensures Before(asc, a, b) ==> a != b
    ensures Before(asc, a, b) <==> Before(!asc, b, a)
  {
    if a != [] {
      BeforeIsStrict(asc, a[1..], b[1..]);
    }
  }

  lemma BeforeIsTotal(asc: bool, a: Key, b: Key)
    requires |a| == |b|
    ensures a == b || Before(asc, a, b) || Before(asc, b, a)
  {
    if a != [] && a[0] == b[0] {
      BeforeIsTotal(asc, a[1..], b[1..]);
      assert a == [a[0]] + a[1..] && b == [b[0]] + b[1..];
    }
  }

  lemma SortedReversed(asc: bool, rows: seq<Key>, n: nat)
    requires Sorted(asc, rows, n)
    ensures Sorted(!asc, Reverse(rows), n)
  {
    forall i, j | 0 <= i < j < |rows| ensures Before(!asc, Reverse(rows)[i], Reverse(rows)[j]) {
      BeforeIsStrict(asc, rows[|rows| - 1 - j], rows[|rows| - 1 - i]);
    }
  }

  /** The WHERE clause of level `level`, for the current row `cur`: the columns before the
      last one are equal, the last one is at or after the current value. */
  predicate InLevel(asc: bool, level: nat, cur: Key, row: Key)
    requires 1 <= level <= |cur| == |row|
  {
    row[..level - 1] == cur[..level - 1] && !Lt(asc, row[level - 1], cur[level - 1])
  }

  /** A row between two rows of a level is in the level. */
  lemma {:induction false} LevelConvex(asc: bool, level: nat, cur: Key, a: Key, b: Key, c: Key)
    requires 1 <= level <= |cur| == |a| == |b| == |c|
    requires InLevel(asc, level, cur, a) && InLevel(asc, level, cur, c)
    requires Before(asc, a, b) && Before(asc, b, c)
    ensures InLevel(asc, level, cur, b)
  {
    if level > 1 {
      assert a[0] == a[..level - 1][0] == cur[..level - 1][0] == c[..level - 1][0] == c[0];
      assert forall r: Key | |r| == |cur| :: r[1..][..level - 2] == r[..level - 1][1..];
      LevelConvex(asc, level - 1, cur[1..], a[1..], b[1..], c[1..]);
      assert b[..level - 1] == [b[0]] + b[1..][..level - 2];
      assert cur[..level - 1] == [cur[0]] + cur[1..][..level - 2];
    }
  }

  /** The first index of the run of level rows that ends just before `i`. */
  function Lo(asc: bool, level: nat, rows: seq<Key>, cur: Key, i: nat): (lo: nat)
    requires 1 <= level <= |cur| && SameWidth(rows, |cur|) && i <= |rows|
    ensures lo <= i
    ensures forall k :: lo <= k < i ==> InLevel(asc, level, cur, rows[k])
    ensures lo == 0 || !InLevel(asc, level, cur, rows[lo - 1])
  {
    if i == 0 || !InLevel(asc, level, cur, rows[i - 1]) then i else Lo(asc, level, rows, cur, i - 1)
  }

  /** One past the last index of the run of level rows that starts at `i`. */
  function Hi(asc: bool, level: nat, rows: seq<Key>, cur: Key, i: nat): (hi: nat)
    requires 1 <= level <= |cur| && SameWidth(rows, |cur|) && i <= |rows|
    ensures i <= hi <= |rows|
    ensures forall k :: i <= k < hi ==> InLevel(asc, level, cur, rows[k])
    ensures hi == |rows| || !InLevel(asc, level, cur, rows[hi])
    decreases |rows| - i
  {
    if i == |rows| || !InLevel(asc, level, cur, rows[i]) then i else Hi(asc, level, rows, cur, i + 1)
  }

  /** Every level selects a contiguous interval of the index order, around the current row. */
  lemma LevelIsInterval(asc: bool, level: nat, rows: seq<Key>, n: nat, p: nat)
    requires Sorted(asc, rows, n) && 1 <= level <= n && p < |rows|
    ensures Lo(asc, level, rows, rows[p], p) <= p < Hi(asc, level, rows, rows[p], p)
    ensures forall i :: 0 <= i < |rows| ==>
              (InLevel(asc, level, rows[p], rows[i])
               <==> Lo(asc, level, rows, rows[p], p) <= i < Hi(asc, level, rows, rows[p], p))
  {
    var cur := rows[p];
    var lo, hi := Lo(asc, level, rows, cur, p), Hi(asc, level, rows, cur, p);
    forall i | 0 <= i < |rows| ensures InLevel(asc, level, cur, rows[i]) <==> lo <= i < hi {
      if i < lo - 1 && InLevel(asc, level, cur, rows[i]) {
        LevelConvex(asc, level, cur, rows[i], rows[lo - 1], cur);
      }
      if i > hi && InLevel(asc, level, cur, rows[i]) {
        LevelConvex(asc, level, cur, cur, rows[hi], rows[i]);
      }
    }
  }

  /** A row before the current one fails some level; at full depth it fails the level itself. */
  lemma {:induction false} FullLevelStartsHere(asc: bool, cur: Key, row: Key)
    requires 1 <= |cur| == |row| && Before(asc, row, cur)
    ensures !InLevel(asc, |cur|, cur, row)
  {
    if |cur| > 1 && InLevel(asc, |cur|, cur, row) {
      assert row[0] == row[..|cur| - 1][0] == cur[..|cur| - 1][0] == cur[0];
      assert row[1..][..|cur| - 2] == row[..|cur| - 1][1..] && cur[1..][..|cur| - 2] == cur[..|cur| - 1][1..];
      FullLevelStartsHere(asc, cur[1..], row[1..]);
    }
  }

  lemma DeeperIsShallower(asc: bool, shallow: nat, deep: nat, cur: Key, row: Key)
    requires 1 <= shallow <= deep <= |cur| == |row| && InLevel(asc, deep, cur, row)
    ensures InLevel(asc, shallow, cur, row)
  {
    if shallow < deep {
      assert row[..deep - 1][..shallow - 1] == row[..shallow - 1];
      assert cur[..deep - 1][..shallow - 1] == cur[..shallow - 1];
      assert row[shallow - 1] == row[..deep - 1][shallow - 1] == cur[..deep - 1][shallow - 1];
    }
  }

  /** The levels nest: a deeper level's rows are a sub-interval of the shallower level's, and
      from the current row onward they are an initial segment of it; the deepest level
      starts exactly at the current row and level 1 reaches the end of the order. */
  lemma LevelsNest(asc: bool, rows: seq<Key>, n: nat, p: nat, shallow: nat, deep: nat)
    requires Sorted(asc, rows, n) && 1 <= shallow <= deep <= n && p < |rows|
    ensures Lo(asc, shallow, rows, rows[p], p) <= Lo(asc, deep, rows, rows[p], p)
    ensures Hi(asc, deep, rows, rows[p], p) <= Hi(asc, shallow, rows, rows[p], p)
    ensures Hi(asc, 1, rows, rows[p], p) == |rows|
    ensures Lo(asc, n, rows, rows[p], p) == p
  {
    hide InLevel, Before, Lo, Hi;
    var cur := rows[p];
    var lo, hi := Lo(asc, deep, rows, cur, p), Hi(asc, deep, rows, cur, p);
    forall i | lo <= i < hi ensures InLevel(asc, shallow, cur, rows[i]) {
      DeeperIsShallower(asc, shallow, deep, cur, rows[i]);
    }
    LevelIsInterval(asc, shallow, rows, n, p);
    LevelIsInterval(asc, deep, rows, n, p);
    forall i | p < i < |rows| ensures InLevel(asc, 1, cur, rows[i]) {
      LaterIsInLevelOne(asc, cur, rows[i]);
    }
    if p > 0 {
      FullLevelStartsHere(asc, cur, rows[p - 1]);
    }
    LevelIsInterval(asc, 1, rows, n, p);
  }

  lemma LaterIsInLevelOne(asc: bool, cur: Key, row: Key)
    requires 1 <= |cur| == |row| && Before(asc, cur, row)
    ensures InLevel(asc, 1, cur, row)
  {
  }

  /** The rows from the start of a row's level-1 interval up to the row share its first column, so
      their intervals start there too. */
  lemma LevelOneIsShared(asc: bool, rows: seq<Key>, n: nat, p: nat, q: nat)
    requires Sorted(asc, rows, n) && 1 <= n && q <= p < |rows| && Lo(asc, 1, rows, rows[p], p) <= q
    ensures Lo(asc, 1, rows, rows[q], q) == Lo(asc, 1, rows, rows[p], p)
  {
    if q < p {
      assert InLevel(asc, 1, rows[p], rows[q]);
      SameFirstColumn(asc, rows[q], rows[p]);
      LoAlike(asc, rows, rows[p], rows[q], p, q);
    }
  }

  lemma LoAlike(asc: bool, rows: seq<Key>, a: Key, b: Key, p: nat, q: nat)
    requires 1 <= |a| == |b| && a[0] == b[0] && SameWidth(rows, |a|) && q <= p <= |rows| && Lo(asc, 1, rows, a, p) <= q
    ensures Lo(asc, 1, rows, b, q) == Lo(asc, 1, rows, a, p)
  {
    hide InLevel, Before, Lo;
    var lo := Lo(asc, 1, rows, a, p);
    forall k | lo <= k < q ensures InLevel(asc, 1, b, rows[k]) {
      LevelOneAlike(asc, a, b, rows[k]);
    }
    if lo > 0 {
      LevelOneAlike(asc, a, b, rows[lo - 1]);
    }
    LoIs(asc, rows, b, q, lo);
  }

  lemma SameFirstColumn(asc: bool, a: Key, b: Key)
    requires 1 <= |a| == |b| && Before(asc, a, b) && InLevel(asc, 1, b, a)
    ensures a[0] == b[0]
  {
  }

  lemma LevelOneAlike(asc: bool, a: Key, b: Key, row: Key)
    requires 1 <= |a| == |b| == |row| && a[0] == b[0]
    ensures InLevel(asc, 1, a, row) <==> InLevel(asc, 1, b, row)
  {
  }

  lemma LoIs(asc: bool, rows: seq<Key>, cur: Key, i: nat, lo: nat)
    requires 1 <= |cur| && SameWidth(rows, |cur|) && lo <= i <= |rows|
    requires forall k :: lo <= k < i ==> InLevel(asc, 1, cur, rows[k])
    requires lo == 0 || !InLevel(asc, 1, cur, rows[lo - 1])
    ensures Lo(asc, 1, rows, cur, i) == lo
  {
    var at := Lo(asc, 1, rows, cur, i);
    assert at <= lo;
  }
}
