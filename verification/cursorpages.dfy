/** What one fetch of the record-list cursor loads, as a slice of the ordered table. */
module CursorPages {
  import opened Common
  import opened Keys
  import opened Query
  import opened Rdbms
  import opened Statement
  import opened Cursor

  predicate Limits(t: Table) {
    !SetResultSetLimit(t.system, RECORD_LIST_SIZE).Unlimited?
  }

  // ----- the order

  lemma OrderFacts(t: Table, dir: Direction)
    requires t.Valid()
    ensures Sorted(t.Ascending(dir), t.Scan(dir), t.columns)
    ensures Distinct(t.Order(dir))
    ensures forall i :: 0 <= i < |t.rows| ==> t.Order(dir)[i] in t.stored
  {
    SortedReversed(true, t.rows, t.columns);
    if !t.Ascending(dir) {
      forall i, j | 0 <= i < j < |t.rows| ensures t.Order(dir)[i] != t.Order(dir)[j] {
        assert Recno(t.rows[|t.rows| - 1 - j]) != Recno(t.rows[|t.rows| - 1 - i]);
      }
    }
  }

  lemma OrderMirror(t: Table, i: nat)
    requires i < |t.rows|
    ensures t.Order(Backward)[i] == t.Order(Forward)[|t.rows| - 1 - i]
    ensures t.Order(Forward)[i] == t.Order(Backward)[|t.rows| - 1 - i]
  {
  }

  ghost predicate Distinct(s: seq<int>) {
    forall i, j :: 0 <= i < j < |s| ==> s[i] != s[j]
  }

  lemma IndexInSlice(order: seq<int>, lo: nat, hi: nat, p: nat)
    requires Distinct(order) && lo <= p < hi <= |order|
    ensures Index(order[lo..hi], order[p]) == p - lo
  {
    var i := Index(order[lo..hi], order[p]);
    assert order[lo..hi][p - lo] == order[p];
    assert i < hi - lo && order[lo..hi][i] == order[lo + i];
  }

  lemma IndexInWhole(order: seq<int>, p: nat)
    requires Distinct(order) && p < |order|
    ensures Index(order, order[p]) == p
  {
    IndexInSlice(order, 0, |order|, p);
    assert order[0..|order|] == order;
  }

  lemma IndexOfForeign(s: seq<int>, x: int)
    requires x !in s
    ensures Index(s, x) == |s|
  {
  }

  // ----- what the level-1 statement returns

  lemma {:induction false} SelectIsSlice(keys: seq<Key>, atoms: seq<Atom>, params: seq<int>, lo: nat, hi: nat)
    requires lo <= hi <= |keys|
    requires forall i :: 0 <= i < |keys| ==> (Eval(atoms, Key2Row(keys[i], {}), params) <==> lo <= i < hi)
    ensures Select(keys, atoms, params) == keys[lo..hi]
  {
    hide Eval;
    if keys != [] {
      var rest := keys[1..];
      assert forall i :: 0 <= i < |rest| ==> rest[i] == keys[i + 1];
      if lo == 0 {
        SelectIsSlice(rest, atoms, params, 0, if hi == 0 then 0 else hi - 1);
      } else {
        SelectIsSlice(rest, atoms, params, lo - 1, hi - 1);
      }
    }
  }

  /** Where the result of the level-1 statement starts, for the record at index `p` of the order. */
  function Start(t: Table, dir: Direction, p: nat): (lo: nat)
    requires 1 <= t.columns && SameWidth(t.Scan(dir), t.columns) && p < |t.rows|
    ensures lo <= p
  {
    Lo(t.Ascending(dir), 1, t.Scan(dir), t.Scan(dir)[p], p)
  }

  /** The rows of that result that precede the record itself. */
  function Crowd(t: Table, dir: Direction, p: nat): nat
    requires 1 <= t.columns && SameWidth(t.Scan(dir), t.columns) && p < |t.rows|
  {
    p - Start(t, dir, p)
  }

  lemma NaturalOrderIsUncrowded(t: Table, dir: Direction, p: nat)
    requires t.Valid() && t.columns == 1 && p < |t.rows|
    ensures SameWidth(t.Scan(dir), t.columns) && Crowd(t, dir, p) == 0
  {
    OrderFacts(t, dir);
    LevelsNest(t.Ascending(dir), t.Scan(dir), 1, p, 1, 1);
  }

  /** The generated level-1 clause tests the first column alone. */
  lemma LevelOneMeaning(t: Table, dir: Direction, cur: Key, row: Key)
    requires 1 <= t.columns == |cur| == |row|
    ensures Eval(LevelAtoms(t, dir, 1), Key2Row(row, {}), [cur[0]]) <==> InLevel(t.Ascending(dir), 1, cur, row)
  {
    var asc, nulls := t.Ascending(dir), seq(t.columns, _ => false);
    WhereIsLevel(seq(t.columns, _ => Column(Double, false, false)), 1, asc, asc, cur, row, {}, []);
    assert Params(nulls, cur, 1) == [cur[0]];
  }

  lemma LevelOneIff(t: Table, dir: Direction, p: nat, i: nat)
    requires t.Valid() && p < |t.rows| && i < |t.rows|
    ensures SameWidth(t.Scan(dir), t.columns)
    ensures Eval(LevelAtoms(t, dir, 1), Key2Row(t.Scan(dir)[i], {}), [t.Scan(dir)[p][0]]) <==> Start(t, dir, p) <= i
  {
    OrderFacts(t, dir);
    LevelOneMeaning(t, dir, t.Scan(dir)[p], t.Scan(dir)[i]);
    LevelIsInterval(t.Ascending(dir), 1, t.Scan(dir), t.columns, p);
    LevelsNest(t.Ascending(dir), t.Scan(dir), t.columns, p, 1, 1);
  }

  /** Evaluated by the database, it selects the suffix of the order that starts with the first
      row sharing the current row's first column. */
  lemma LevelOneIsSuffix(t: Table, dir: Direction, p: nat)
    requires t.Valid() && p < |t.rows|
    ensures SameWidth(t.Scan(dir), t.columns)
    ensures Execute(t, Join(LevelAtoms(t, dir, 1)), dir, [t.Scan(dir)[p][0]])
            == Limited(SetResultSetLimit(t.system, RECORD_LIST_SIZE), t.Order(dir)[Start(t, dir, p)..])
  {
    LevelOneIff(t, dir, p, p);
    var lo := Start(t, dir, p);
    LevelOneSelect(t, dir, p, lo);
    JoinParses(LevelAtoms(t, dir, 1));
    RecnosOfPrefix(SetResultSetLimit(t.system, RECORD_LIST_SIZE), t.Scan(dir), lo);
  }

  lemma LevelOneSelect(t: Table, dir: Direction, p: nat, lo: nat)
    requires t.Valid() && p < |t.rows| && SameWidth(t.Scan(dir), t.columns) && lo == Start(t, dir, p)
    ensures Select(t.Scan(dir), LevelAtoms(t, dir, 1), [t.Scan(dir)[p][0]]) == t.Scan(dir)[lo..]
  {
    var keys, atoms, params := t.Scan(dir), LevelAtoms(t, dir, 1), [t.Scan(dir)[p][0]];
    forall i | 0 <= i < |keys| ensures Eval(atoms, Key2Row(keys[i], {}), params) <==> lo <= i < |keys| {
      LevelOneIff(t, dir, p, i);
    }
    SelectIsSlice(keys, atoms, params, lo, |keys|);
  }

  lemma RecnosOfPrefix(limit: Limit, keys: seq<Key>, lo: nat)
    requires lo <= |keys|
    ensures Recnos(Limited(limit, keys[lo..])) == Limited(limit, Recnos(keys)[lo..])
  {
  }

  /** The cursor is on the record at index `p` of the order in direction `dir`. */
  predicate On(t: Table, c: Cursor, dir: Direction, p: nat) {
    c.Shaped() && p < |t.rows| && c.size > 0 && c.Here() == t.Order(dir)[p]
  }

  /** The limited level-1 result reaches past the record, or to it when it is the last. */
  predicate Uncrowded(t: Table, dir: Direction, p: nat)
    requires 1 <= t.columns && p < |t.rows| && SameWidth(t.Scan(dir), t.columns)
  {
    Limits(t) ==>
      Crowd(t, dir, p) < RECORD_LIST_SIZE || (Crowd(t, dir, p) == RECORD_LIST_SIZE && p + 1 == |t.rows|)
  }

  lemma StartIsShared(t: Table, dir: Direction, p: nat, q: nat)
    requires t.Valid() && p < |t.rows| && SameWidth(t.Scan(dir), t.columns) && Start(t, dir, p) <= q <= p
    ensures Start(t, dir, q) == Start(t, dir, p)
  {
    OrderFacts(t, dir);
    LevelOneIsShared(t.Ascending(dir), t.Scan(dir), t.columns, p, q);
  }

  /** If no record with a successor is crowded, neither is the last one. */
  lemma LastIsUncrowded(t: Table, dir: Direction, p: nat)
    requires t.Valid() && 0 < p && p + 1 == |t.rows| && SameWidth(t.Scan(dir), t.columns)
    requires Uncrowded(t, dir, p - 1)
    ensures Uncrowded(t, dir, p)
  {
    if Start(t, dir, p) < p {
      StartIsShared(t, dir, p, p - 1);
    }
  }

  /** Where a record is crowded, one record up to it is crowded by exactly one row. */
  lemma JustCrowded(t: Table, dir: Direction, p: nat) returns (q: nat)
    requires t.Valid() && p + 1 < |t.rows| && SameWidth(t.Scan(dir), t.columns) && !Uncrowded(t, dir, p)
    ensures q <= p && Limits(t) && Crowd(t, dir, q) == RECORD_LIST_SIZE
  {
    q := Start(t, dir, p) + RECORD_LIST_SIZE;
    StartIsShared(t, dir, p, q);
  }

  // ----- one page

  lemma FirstColumnIs(t: Table, c: Cursor, p: nat)
    requires t.Valid() && On(t, c, c.dir, p) && c.current == c.Here()
    ensures |t.Scan(c.dir)[p]| == t.columns
    ensures FirstColumn(t, c) == t.Scan(c.dir)[p][0]
  {
    OrderFacts(t, c.dir);
    OrderFacts(t, Forward);
    var q := if c.dir.Forward? then p else |t.rows| - 1 - p;
    assert t.Scan(Forward)[q] == t.Scan(c.dir)[p];
    IndexInWhole(t.Order(Forward), q);
    assert c.Here() in t.stored;
  }

  /** One past the last row of the level-1 result: the limit is one more than the page size. */
  function End(t: Table, dir: Direction, p: nat): (hi: nat)
    requires 1 <= t.columns && SameWidth(t.Scan(dir), t.columns) && p < |t.rows|
    ensures Start(t, dir, p) < hi <= |t.rows|
  {
    if Limits(t) then Min(Start(t, dir, p) + RECORD_LIST_SIZE + 1, |t.rows|) else |t.rows|
  }

  lemma LevelOneResult(t: Table, c: Cursor, p: nat)
    requires t.Valid() && On(t, c, c.dir, p) && c.current == c.Here()
    ensures SameWidth(t.Scan(c.dir), t.columns)
    ensures LevelOne(t, c) == t.Order(c.dir)[Start(t, c.dir, p)..End(t, c.dir, p)]
  {
    FirstColumnIs(t, c, p);
    LevelOneIsSuffix(t, c.dir, p);
    LimitedSlice(SetResultSetLimit(t.system, RECORD_LIST_SIZE), t.Order(c.dir), Start(t, c.dir, p), End(t, c.dir, p));
  }

  lemma LimitedSlice(limit: Limit, order: seq<int>, lo: nat, hi: nat)
    requires lo <= hi <= |order|
    requires hi == if limit.Unlimited? then |order| else Min(lo + limit.rows, |order|)
    ensures Limited(limit, order[lo..]) == order[lo..hi]
  {
  }

  /** What the fetch of a cache miss leaves, for a record at index `p` of the order in the
      direction of the skip: the `n` records right after it and, in a one-column order, the end
      mark that a short page reveals; or, with nothing after it, the end mark alone. */
  predicate IsPage(order: seq<int>, c: Cursor, p: nat, n: nat, columns: nat, r: (Cursor, Code))
    requires c.Shaped() && p + n < |order| && n <= RECORD_LIST_SIZE
  {
    if n > 0 then
      r == (Mark(Load(c, order[p + 1..p + 1 + n]), n < RECORD_LIST_SIZE && columns == 1, order[p + n]), Found)
    else r == (Mark(c, true, c.Here()), Nothing)
  }

  /** The fetch loops over a result that is the slice [lo, hi) of the order, p in it. */
  lemma FetchFromSlice(order: seq<int>, c: Cursor, lo: nat, hi: nat, p: nat, columns: nat)
    requires Distinct(order) && c.Shaped() && c.size > 0 && 1 <= columns
    requires lo <= p < hi <= |order| && c.Here() == c.current == order[p]
    ensures IsPage(order, c, p, Min(RECORD_LIST_SIZE, hi - p - 1), columns, GetByLevels(c, order[lo..hi], columns))
  {
    IndexInSlice(order, lo, hi, p);
    var rest := order[lo..hi][p - lo + 1..];
    assert rest == order[p + 1..hi];
    var n := Min(RECORD_LIST_SIZE, |rest|);
    assert rest[..n] == order[p + 1..p + 1 + n];
  }

  /** How many records a fetch from index `p` loads: those that follow, up to the page size, and
      up to the statement's limit once the crowd before the record is read past. */
  function PageSize(t: Table, dir: Direction, p: nat): (n: nat)
    requires 1 <= t.columns && SameWidth(t.Scan(dir), t.columns) && p < |t.rows|
    requires Uncrowded(t, dir, p)
    ensures n > 0 <==> p + 1 < |t.rows|
    ensures n == Min(RECORD_LIST_SIZE, End(t, dir, p) - p - 1)
  {
    Min(if Limits(t) then RECORD_LIST_SIZE - Crowd(t, dir, p) else RECORD_LIST_SIZE, |t.rows| - p - 1)
  }

  lemma PageSizeFacts(t: Table, dir: Direction, p: nat)
    requires t.Valid() && p < |t.rows| && SameWidth(t.Scan(dir), t.columns) && Uncrowded(t, dir, p)
    ensures PageSize(t, dir, p) <= RECORD_LIST_SIZE && p + PageSize(t, dir, p) < |t.rows|
    ensures t.columns == 1 ==> PageSize(t, dir, p) == Min(RECORD_LIST_SIZE, |t.rows| - p - 1)
  {
    if t.columns == 1 {
      NaturalOrderIsUncrowded(t, dir, p);
    }
  }

  lemma PageFetchSized(t: Table, c: Cursor, p: nat, n: nat)
    requires t.Valid() && On(t, c, c.dir, p) && c.current == c.Here()
    requires SameWidth(t.Scan(c.dir), t.columns) && Uncrowded(t, c.dir, p)
    requires n == PageSize(t, c.dir, p) <= RECORD_LIST_SIZE && p + n < |t.rows|
    ensures IsPage(t.Order(c.dir), c, p, n, t.columns, GetByLevels(c, LevelOne(t, c), t.columns))
  {
    assert Distinct(t.Order(c.dir)) && 1 <= t.columns by {
      OrderFacts(t, c.dir);
    }
    hide Table.Valid, Table.Order, Distinct, IsPage, GetByLevels, LevelOne, Start, SameWidth;
    LevelOneResult(t, c, p);
    FetchFromSlice(t.Order(c.dir), c, Start(t, c.dir, p), End(t, c.dir, p), p, t.columns);
  }

  /** The fetch of a cache miss loads the `n` records that follow the current one in the direction
      of the skip: all of them up to a full page in natural order, at least one in any order. */
  lemma PageFetch(t: Table, c: Cursor, p: nat) returns (n: nat)
    requires t.Valid() && On(t, c, c.dir, p) && c.current == c.Here()
    requires SameWidth(t.Scan(c.dir), t.columns) && Uncrowded(t, c.dir, p)
    ensures n <= RECORD_LIST_SIZE && p + n < |t.rows| && (n > 0 <==> p + 1 < |t.rows|)
    ensures t.columns == 1 ==> n == Min(RECORD_LIST_SIZE, |t.rows| - p - 1)
    ensures IsPage(t.Order(c.dir), c, p, n, t.columns, GetByLevels(c, LevelOne(t, c), t.columns))
  {
    PageSizeFacts(t, c.dir, p);
    n := PageSize(t, c.dir, p);
    PageFetchSized(t, c, p, n);
  }

  /** With a statement limit of `limit` rows, a natural-order fetch is the exact page - list, marks
      and all - if and only if the limit exceeds the page size or cuts nothing off. */
  lemma LimitIsJustEnough(order: seq<int>, c: Cursor, p: nat, limit: nat)
    requires Distinct(order) && c.Shaped() && c.size > 0
    requires p < |order| && c.Here() == c.current == order[p] && 1 <= limit
    ensures IsPage(order, c, p, Min(RECORD_LIST_SIZE, |order| - p - 1), 1,
                   GetByLevels(c, order[p..Min(p + limit, |order|)], 1))
            <==> limit > RECORD_LIST_SIZE || p + limit >= |order|
  {
    var hi := Min(p + limit, |order|);
    FetchFromSlice(order, c, p, hi, p, 1);
  }

  /** The fetch when RECORD_LIST_SIZE or more rows of the level-1 result precede the current one:
      the statement's limit cuts off everything after the current row, or the row itself. */
  lemma CrowdedFetch(order: seq<int>, c: Cursor, lo: nat, hi: nat, p: nat, columns: nat)
    requires Distinct(order) && c.Shaped() && c.size > 0 && 1 <= columns
    requires p < |order| && c.Here() == c.current == order[p]
    requires lo + RECORD_LIST_SIZE <= p && hi == Min(lo + RECORD_LIST_SIZE + 1, |order|)
    ensures !GetByLevels(c, order[lo..hi], columns).1.Found?
  {
    if p < hi {
      FetchFromSlice(order, c, lo, hi, p, columns);
    } else {
      assert order[p] !in order[lo..hi];
      IndexOfForeign(order[lo..hi], order[p]);
    }
  }

  lemma CrowdedPage(t: Table, c: Cursor, p: nat)
    requires t.Valid() && On(t, c, c.dir, p) && c.current == c.Here()
    requires SameWidth(t.Scan(c.dir), t.columns) && !Uncrowded(t, c.dir, p)
    ensures !GetByLevels(c, LevelOne(t, c), t.columns).1.Found?
  {
    assert Distinct(t.Order(c.dir)) && 1 <= t.columns by {
      OrderFacts(t, c.dir);
    }
    hide Table.Valid, Table.Order, Distinct, GetByLevels, LevelOne, Start, SameWidth;
    LevelOneResult(t, c, p);
    CrowdedFetch(t.Order(c.dir), c, Start(t, c.dir, p), End(t, c.dir, p), p, t.columns);
  }

  /** Crowded by exactly one row, the record is the last of its limited result, and is taken for
      the end of the order. */
  lemma JustCrowdedPage(t: Table, c: Cursor, p: nat)
    requires t.Valid() && On(t, c, c.dir, p) && c.current == c.Here()
    requires SameWidth(t.Scan(c.dir), t.columns) && Limits(t) && Crowd(t, c.dir, p) == RECORD_LIST_SIZE
    ensures GetByLevels(c, LevelOne(t, c), t.columns) == (Mark(c, true, c.Here()), Nothing)
  {
    assert Distinct(t.Order(c.dir)) && 1 <= t.columns by {
      OrderFacts(t, c.dir);
    }
    hide Table.Valid, Table.Order, Distinct, GetByLevels, LevelOne, Start, SameWidth;
    LevelOneResult(t, c, p);
    FetchFromSlice(t.Order(c.dir), c, Start(t, c.dir, p), End(t, c.dir, p), p, t.columns);
  }

  /** Crowded by more, the record is not in its result: the fetch gives up and changes nothing. */
  lemma LostPage(t: Table, c: Cursor, p: nat)
    requires t.Valid() && On(t, c, c.dir, p) && c.current == c.Here()
    requires SameWidth(t.Scan(c.dir), t.columns) && Limits(t) && Crowd(t, c.dir, p) > RECORD_LIST_SIZE
    ensures GetByLevels(c, LevelOne(t, c), t.columns) == (c, Retry)
  {
    OrderFacts(t, c.dir);
    LevelOneResult(t, c, p);
    var result := t.Order(c.dir)[Start(t, c.dir, p)..End(t, c.dir, p)];
    assert t.Order(c.dir)[p] !in result;
    IndexOfForeign(result, c.current);
  }
}
