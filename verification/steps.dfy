/** What each movement of the cursor does to its place in the ordered table. */
module CursorSteps {
  import opened Common
  import opened Keys
  import opened Query
  import opened Rdbms
  import opened Statement
  import opened Cursor
  import opened CursorPages
  import opened Window

  function OrdersOf(t: Table): Orders {
    Orders(t.Order(Forward), t.Order(Backward))
  }

  /** `o` is the order of the valid table `t`, in both directions. */
  ghost predicate Backed(o: Orders, t: Table) {
    t.Valid() && o.fwd == t.Order(Forward) && o.bwd == t.Order(Backward)
  }

  /** The facts about a non-empty table that the movements rely on. */
  ghost predicate Linked(o: Orders, t: Table) {
    && Backed(o, t) && o.Mirrored() && o.fwd != [] && 1 <= t.columns
    && (forall r :: r in o.fwd || r in o.bwd ==> r in t.stored)
    && (forall r :: r in t.stored ==> 0 < r <= t.lastRecno)
  }

  lemma LinkedOrders(t: Table)
    requires t.Valid() && t.rows != []
    ensures Linked(OrdersOf(t), t)
  {
    OrderFacts(t, Forward);
    OrderFacts(t, Backward);
    var o := OrdersOf(t);
    forall i | 0 <= i < |o.fwd| ensures o.bwd[i] == o.fwd[|o.fwd| - 1 - i] {
      OrderMirror(t, i);
    }
  }

  ghost predicate UncrowdedAt(t: Table, dir: Direction, p: nat) {
    p < |t.rows| ==> 1 <= t.columns && SameWidth(t.Scan(dir), t.columns) && Uncrowded(t, dir, p)
  }

  /** No fetch from a record with a successor finds RECORD_LIST_SIZE or more rows of its result in
      its way. */
  ghost predicate UncrowdedTable(t: Table) {
    forall dir: Direction, p: nat :: p + 1 < |t.rows| ==> UncrowdedAt(t, dir, p)
  }

  /** Then no fetch at all does. */
  lemma NowhereCrowded(t: Table, dir: Direction, p: nat)
    requires t.Valid() && UncrowdedTable(t)
    ensures UncrowdedAt(t, dir, p)
  {
    if p + 1 == |t.rows| {
      assert SameWidth(t.Scan(dir), t.columns) by { OrderFacts(t, dir); }
      if p > 0 {
        assert UncrowdedAt(t, dir, p - 1);
        LastIsUncrowded(t, dir, p);
      }
    }
  }

  /** Exactly RECORD_LIST_SIZE rows are in the way, though the record is not the last. */
  ghost predicate JustCrowdedAt(t: Table, dir: Direction, p: nat) {
    && p + 1 < |t.rows| && 1 <= t.columns && SameWidth(t.Scan(dir), t.columns)
    && Limits(t) && Crowd(t, dir, p) == RECORD_LIST_SIZE
  }

  /** More are: the record itself is cut off. */
  ghost predicate LostAt(t: Table, dir: Direction, p: nat) {
    && p < |t.rows| && 1 <= t.columns && SameWidth(t.Scan(dir), t.columns)
    && Limits(t) && Crowd(t, dir, p) > RECORD_LIST_SIZE
  }

  lemma CrowdedHow(t: Table, dir: Direction, p: nat)
    requires t.Valid() && p < |t.rows| && !UncrowdedAt(t, dir, p)
    ensures JustCrowdedAt(t, dir, p) || LostAt(t, dir, p)
    ensures p + 1 == |t.rows| ==> LostAt(t, dir, p)
  {
    OrderFacts(t, dir);
  }

  lemma SomewhereJustCrowded(t: Table) returns (dir: Direction, q: nat)
    requires t.Valid() && !UncrowdedTable(t)
    ensures JustCrowdedAt(t, dir, q)
  {
    var d, p: nat :| p + 1 < |t.rows| && !UncrowdedAt(t, d, p);
    dir := d;
    assert SameWidth(t.Scan(dir), t.columns) by { OrderFacts(t, dir); }
    q := JustCrowded(t, dir, p);
  }

  lemma NaturalTableIsUncrowded(t: Table)
    requires t.Valid() && t.columns == 1
    ensures UncrowdedTable(t)
  {
    forall dir: Direction, p: nat ensures UncrowdedAt(t, dir, p) {
      if p < |t.rows| {
        NaturalOrderIsUncrowded(t, dir, p);
      }
    }
  }

  // ----- a fetch, seen from the orders

  lemma BackedFacts(o: Orders, t: Table, dir: Direction)
    requires Linked(o, t)
    ensures t.Valid() && o.Of(dir) == t.Order(dir) && |o.fwd| == |t.rows| && Distinct(o.Of(dir))
  {
  }

  lemma PageAt(o: Orders, t: Table, c: Cursor, p: nat) returns (n: nat)
    requires Linked(o, t) && UncrowdedAt(t, c.dir, p) && At(o, c, c.dir, p) && c.current == c.Here()
    ensures n <= RECORD_LIST_SIZE && p + n < |o.fwd| && (n > 0 <==> p + 1 < |o.fwd|)
    ensures t.columns == 1 ==> n == Min(RECORD_LIST_SIZE, |o.fwd| - p - 1)
    ensures IsPage(o.Of(c.dir), c, p, n, t.columns, GetByLevels(c, LevelOne(t, c), t.columns))
  {
    BackedFacts(o, t, c.dir);
    hide Backed, Linked, Table.Valid, Table.Order, IsPage, GetByLevels, LevelOne, Uncrowded;
    n := PageFetch(t, c, p);
  }

  lemma {:induction false} SelectSubset(keys: seq<Key>, atoms: seq<Atom>, params: seq<int>)
    ensures forall k :: k in Select(keys, atoms, params) ==> k in keys
  {
    if keys != [] {
      SelectSubset(keys[1..], atoms, params);
    }
  }

  lemma ResultSubset(keys: seq<Key>, atoms: seq<Atom>, params: seq<int>, limit: Limit)
    ensures forall r :: r in Recnos(Limited(limit, Select(keys, atoms, params))) ==> r in Recnos(keys)
  {
    SelectSubset(keys, atoms, params);
    var found := Limited(limit, Select(keys, atoms, params));
    forall i | 0 <= i < |found| ensures Recno(found[i]) in Recnos(keys) {
      assert found[i] in Select(keys, atoms, params);
      var k :| 0 <= k < |keys| && keys[k] == found[i];
      assert Recnos(keys)[k] == Recno(found[i]);
    }
  }

  lemma LevelOneInOrder(t: Table, c: Cursor)
    requires c.Shaped() && 1 <= t.columns
    ensures forall r :: r in LevelOne(t, c) ==> r in t.Order(c.dir)
  {
    hide LevelAtoms, Join, Select, Limited, Recnos;
    JoinParses(LevelAtoms(t, c.dir, 1));
    ResultSubset(t.Scan(c.dir), LevelAtoms(t, c.dir, 1), [FirstColumn(t, c)],
                 SetResultSetLimit(t.system, RECORD_LIST_SIZE));
  }

  lemma ForeignResult(c: Cursor, result: seq<int>, columns: nat)
    requires c.Shaped() && c.current !in result
    ensures GetByLevels(c, result, columns) == (c, Retry)
  {
    IndexOfForeign(result, c.current);
  }

  /** A record outside the order is never met by a fetch. */
  lemma ForeignIsRetry(o: Orders, t: Table, c: Cursor)
    requires Linked(o, t) && c.Shaped() && c.current !in o.fwd
    ensures GetByLevels(c, LevelOne(t, c), t.columns) == (c, Retry)
  {
    BackedFacts(o, t, c.dir);
    MirrorMembers(o);
    hide Backed, Table.Valid, Table.Order, Orders.Mirrored, LevelOne, GetByLevels;
    LevelOneInOrder(t, c);
    ForeignResult(c, LevelOne(t, c), t.columns);
  }

  lemma MirrorMembers(o: Orders)
    requires o.Mirrored()
    ensures forall r :: r in o.bwd ==> r in o.fwd
  {
  }

  lemma EndRowsArePrefix(o: Orders, t: Table, dir: Direction)
    requires Linked(o, t)
    ensures EndRows(t, dir) <= o.Of(dir)
    ensures |EndRows(t, dir)| == |o.fwd| || |EndRows(t, dir)| == END_PAGE + 1
  {
    BackedFacts(o, t, dir);
    hide Backed, Linked, Table.Valid, Table.Order;
  }

  // ----- a cache miss

  lemma EndsMeet(o: Orders, dir: Direction)
    requires o.Mirrored() && o.fwd != []
    ensures o.Of(dir)[|o.fwd| - 1] == o.Of(Other(dir))[0]
  {
    assert o.bwd[0] == o.fwd[|o.fwd| - 1] && o.bwd[|o.fwd| - 1] == o.fwd[0];
  }

  /** Marking the last record of the order in the list's direction keeps the marks sound. */
  lemma MarkIsSound(o: Orders, c: Cursor, really: bool, rec: int)
    requires o.Mirrored() && o.fwd != [] && MarksSound(o, c)
    requires really ==> rec == o.Of(c.dir)[|o.fwd| - 1]
    ensures MarksSound(o, Mark(c, really, rec))
  {
    EndsMeet(o, c.dir);
  }

  predicate SameList(c: Cursor, c': Cursor) {
    c'.list == c.list && c'.size == c.size && c'.pos == c.pos
  }

  /** What a page leaves: on a neighbour, a run that starts there; at the end, the same window. */
  lemma PageStep(o: Orders, c: Cursor, p: nat, n: nat, columns: nat, r: (Cursor, Code))
    requires o.Mirrored() && At(o, c, c.dir, p) && MarksSound(o, c)
    requires n <= RECORD_LIST_SIZE && p + n < |o.fwd| && (n > 0 <==> p + 1 < |o.fwd|)
    requires columns == 1 ==> n == Min(RECORD_LIST_SIZE, |o.fwd| - p - 1)
    requires IsPage(o.Of(c.dir), c, p, n, columns, r)
    ensures MarksSound(o, r.0) && r.0.dir == c.dir && r.0.fBof == c.fBof && r.0.fEof == c.fEof
    ensures r.0.lastRec == c.lastRec && r.0.firstInteract == c.firstInteract
    ensures r.1 == if p + 1 < |o.fwd| then Found else Nothing
    ensures if p + 1 < |o.fwd| then RunIn(o, r.0, c.dir, p + 1) && r.0.pos == 0 && r.0.size == n else SameList(c, r.0)
    ensures p + 1 == |o.fwd| ==> (if c.dir.Forward? then r.0.eofAt else r.0.bofAt) == c.Here()
  {
    if n > 0 {
      var page := o.Of(c.dir)[p + 1..p + 1 + n];
      var c1 := Load(c, page);
      assert forall i :: 0 <= i < n ==> c1.list[i] == page[i];
      MarkIsSound(o, c1, n < RECORD_LIST_SIZE && columns == 1, o.Of(c.dir)[p + n]);
    } else {
      MarkIsSound(o, c, true, c.Here());
    }
  }

  lemma CreateSkipKeeps(o: Orders, c: Cursor)
    requires MarksSound(o, c)
    ensures MarksSound(o, CreateSkip(c)) && SameList(c, CreateSkip(c)) && CreateSkip(c).dir == c.dir
    ensures CreateSkip(c).current == c.current && CreateSkip(c).fBof == c.fBof && CreateSkip(c).fEof == c.fEof
    ensures CreateSkip(c).lastRec == c.lastRec && CreateSkip(c).firstInteract == c.firstInteract
  {
  }

  /** What a skip past the last record of its direction leaves: the place, and the end raised. */
  predicate RaisedEnd(t: Table, c: Cursor, c': Cursor, step: int) {
    && SameList(c, c') && c'.firstInteract == c.firstInteract
    && (step > 0 ==> c'.fEof && c'.lastRec == t.lastRecno + 1 && c'.fBof == c.fBof)
    && (step <= 0 ==> c'.fBof && c'.fEof == c.fEof && c'.lastRec == c.lastRec)
  }

  predicate SameFlags(c: Cursor, c': Cursor) {
    c'.fBof == c.fBof && c'.fEof == c.fEof && c'.lastRec == c.lastRec && c'.firstInteract == c.firstInteract
  }

  /** A skip that the window cannot serve, from a record of the order: it moves to the true
      neighbour, on a fresh run in its own direction, or raises the end it has reached. */
  lemma MissOnRecord(o: Orders, t: Table, c: Cursor, step: int, p: nat)
    requires Linked(o, t) && UncrowdedAt(t, Dir(step), p) && (step == 1 || step == -1)
    requires At(o, c, Dir(step), p) && c.current == c.Here() && MarksSound(o, c)
    ensures var c' := SkipMiss(t, c, step); MarksSound(o, c') && c'.dir == Dir(step)
    ensures var c' := SkipMiss(t, c, step);
            if p + 1 < |o.fwd| then RunIn(o, c', c'.dir, p + 1) && c'.pos == 0 && SameFlags(c, c')
            else RaisedEnd(t, c, c', step)
  {
    hide Backed;
    var c1 := CreateSkip(c.(dir := Dir(step)));
    CreateSkipKeeps(o, c.(dir := Dir(step)));
    var n := PageAt(o, t, c1, p);
    PageStep(o, c1, p, n, t.columns, GetByLevels(c1, LevelOne(t, c1), t.columns));
  }

  /** A fetch that finds nothing after the record: both marks forgotten if the statements were
      built again, then the record remembered as the end, and the list left with its direction
      turned. */
  lemma EmptyMiss(t: Table, c: Cursor, step: int)
    requires c.Shaped() && 1 <= t.columns && (step == 1 || step == -1) && c.size > 0
    requires var c1 := CreateSkip(c.(dir := Dir(step)));
             GetByLevels(c1, LevelOne(t, c1), t.columns) == (Mark(c1, true, c1.Here()), Nothing)
    ensures var c1 := CreateSkip(c.(dir := Dir(step)));
            SkipMiss(t, c, step) == if step > 0 then CleanBuffer(t, c1.(eofAt := c.Here()))
                                    else c1.(bofAt := c.Here(), fBof := true)
  {
    hide GetByLevels, LevelOne;
  }

  /** So at the last record of its direction. */
  lemma MissAtEnd(o: Orders, t: Table, c: Cursor, step: int)
    requires Linked(o, t) && (step == 1 || step == -1) && UncrowdedAt(t, Dir(step), |o.fwd| - 1)
    requires At(o, c, Dir(step), |o.fwd| - 1) && c.current == c.Here()
    ensures var c1 := CreateSkip(c.(dir := Dir(step)));
            SkipMiss(t, c, step) == if step > 0 then CleanBuffer(t, c1.(eofAt := c.Here()))
                                    else c1.(bofAt := c.Here(), fBof := true)
  {
    hide Backed, SkipMiss, GetByLevels, LevelOne;
    var c1 := CreateSkip(c.(dir := Dir(step)));
    var n := PageAt(o, t, c1, |o.fwd| - 1);
    EmptyMiss(t, c, step);
  }

  // ----- crowded orders

  lemma CrowdedResult(o: Orders, t: Table, c: Cursor, p: nat)
    requires Linked(o, t) && At(o, c, c.dir, p) && c.current == c.Here() && !UncrowdedAt(t, c.dir, p)
    ensures !GetByLevels(c, LevelOne(t, c), t.columns).1.Found?
  {
    BackedFacts(o, t, c.dir);
    assert 1 <= t.columns && SameWidth(t.Scan(c.dir), t.columns) by { OrderFacts(t, c.dir); }
    hide Backed, Linked, Table.Valid, Table.Order, GetByLevels, LevelOne;
    CrowdedPage(t, c, p);
  }

  lemma JustCrowdedResult(o: Orders, t: Table, c: Cursor, p: nat)
    requires Linked(o, t) && At(o, c, c.dir, p) && c.current == c.Here() && JustCrowdedAt(t, c.dir, p)
    ensures GetByLevels(c, LevelOne(t, c), t.columns) == (Mark(c, true, c.Here()), Nothing)
  {
    BackedFacts(o, t, c.dir);
    hide Backed, Linked, Table.Valid, Table.Order, GetByLevels, LevelOne;
    JustCrowdedPage(t, c, p);
  }

  lemma LostResult(o: Orders, t: Table, c: Cursor, p: nat)
    requires Linked(o, t) && At(o, c, c.dir, p) && c.current == c.Here() && LostAt(t, c.dir, p)
    ensures GetByLevels(c, LevelOne(t, c), t.columns) == (c, Retry)
  {
    BackedFacts(o, t, c.dir);
    hide Backed, Linked, Table.Valid, Table.Order, GetByLevels, LevelOne;
    LostPage(t, c, p);
  }

  lemma CrowdedMiss(o: Orders, t: Table, c: Cursor, step: int, p: nat)
    requires Linked(o, t) && !UncrowdedAt(t, Dir(step), p) && (step == 1 || step == -1)
    requires At(o, c, Dir(step), p) && c.current == c.Here() && MarksSound(o, c)
    ensures var c' := SkipMiss(t, c, step); if step > 0 then c'.fEof else c'.fBof
  {
    hide Backed, UncrowdedAt, GetByLevels, GoEnd;
    var c1 := CreateSkip(c.(dir := Dir(step)));
    CrowdedResult(o, t, c1, p);
  }

  /** A fetch in the middle of the order reaches the true neighbour if and only if fewer than
      RECORD_LIST_SIZE rows of the level-1 result precede the current record, or the database
      takes no limit; otherwise it raises EOF or BOF there. */
  lemma MissExact(o: Orders, t: Table, c: Cursor, step: int, p: nat)
    requires Linked(o, t) && (step == 1 || step == -1) && p + 1 < |o.fwd|
    requires At(o, c, Dir(step), p) && c.current == c.Here() && MarksSound(o, c) && !c.fBof && !c.fEof
    ensures var c' := SkipMiss(t, c, step);
            At(o, c', Dir(step), p + 1) && !c'.fBof && !c'.fEof <==> UncrowdedAt(t, Dir(step), p)
  {
    hide Backed, UncrowdedAt, SkipMiss;
    if UncrowdedAt(t, Dir(step), p) {
      MissOnRecord(o, t, c, step, p);
    } else {
      CrowdedMiss(o, t, c, step, p);
    }
  }

  /** Crowded by exactly one row, the record is remembered as the end, which it is not. */
  lemma JustCrowdedMiss(o: Orders, t: Table, c: Cursor, step: int, p: nat)
    requires Linked(o, t) && JustCrowdedAt(t, Dir(step), p) && p + 1 < |o.fwd| && (step == 1 || step == -1)
    requires At(o, c, Dir(step), p) && c.current == c.Here()
    ensures !MarksSound(o, SkipMiss(t, c, step))
  {
    hide Backed, SkipMiss, GetByLevels, LevelOne, JustCrowdedAt;
    var c1 := CreateSkip(c.(dir := Dir(step)));
    JustCrowdedResult(o, t, c1, p);
    EmptyMiss(t, c, step);
    EndMarksNotZero(o, t);
    WrongMark(o, c, SkipMiss(t, c, step), Dir(step), p);
  }

  lemma WrongMark(o: Orders, c: Cursor, c': Cursor, dir: Direction, p: nat)
    requires o.Mirrored() && At(o, c, dir, p) && p + 1 < |o.fwd| && c.Here() != 0
    requires (if dir.Forward? then c'.eofAt else c'.bofAt) == c.Here()
    ensures !MarksSound(o, c')
  {
    EndsMeet(o, dir);
    assert o.Of(dir)[p] != o.Of(dir)[|o.fwd| - 1];
  }

  // ----- the movements to a known place

  /** A window kept as it was, or a single record, or the first page of the order in `dir`, with
      the far end remembered when the page is known to reach it. */
  ghost predicate KeptOrFresh(o: Orders, c: Cursor, c': Cursor, dir: Direction) {
    || (c'.list == c.list && c'.size == c.size && c'.dir == c.dir)
    || c'.size == 1
    || (c'.dir == dir && RunIn(o, c', dir, 0)
        && (c'.size == |o.fwd| && |o.fwd| != END_PAGE ==> StartMark(c', Other(dir)) != 0))
  }

  lemma GoToIs(o: Orders, t: Table, c: Cursor, recno: int)
    requires Linked(o, t) && c.Shaped()
    ensures var c' := GoTo(t, c, recno);
            && !c'.firstInteract && c'.bofAt == c.bofAt && c'.eofAt == c.eofAt
            && (recno == 0 ==> SameList(c, c') && c'.dir == c.dir)
            && (recno != 0 ==>
                  && c'.Here() == recno && 0 < c'.size
                  && (c'.size == 1 || (c'.list == c.list && c'.size == c.size && c'.dir == c.dir)))
            && (if recno in t.stored then !c'.fEof && !c'.fBof && c'.lastRec == c.lastRec
                else c'.fEof && c'.fBof && c'.lastRec == t.lastRecno + 1 && (recno != 0 ==> c'.size == 1))
  {
    hide Backed;
  }

  lemma LoadedPrefix(o: Orders, c: Cursor, dir: Direction, page: seq<int>)
    requires c.Shaped() && 0 < |page| <= RECORD_LIST_SIZE && page <= o.Of(dir)
    ensures RunIn(o, Load(c, page), dir, 0)
  {
    assert forall i :: 0 <= i < |page| ==> Load(c, page).list[i] == page[i] == o.Of(dir)[i];
  }

  /** The first page of the order in `dir`, its far end remembered exactly when the page is short. */
  ghost predicate FirstPageOf(o: Orders, c: Cursor, c': Cursor, dir: Direction) {
    && c.Shaped() && o.fwd != [] && |o.fwd| == |o.bwd|
    && MarksSound(o, c') && RunIn(o, c', dir, 0) && c'.pos == 0 && c'.dir == dir && SameFlags(c, c')
    && StartMark(c', dir) == StartMark(c, dir) && c'.size == Min(END_PAGE, |o.fwd|)
    && (c'.size == |o.fwd| && |o.fwd| != END_PAGE ==> StartMark(c', Other(dir)) == o.Of(Other(dir))[0])
    && (c'.size == END_PAGE ==> StartMark(c', Other(dir)) == StartMark(c, Other(dir)))
    && c'.ready == c.ready
  }

  lemma FirstRows(o: Orders, c: Cursor, dir: Direction, rows: seq<int>)
    requires o.Mirrored() && o.fwd != [] && c.Shaped() && MarksSound(o, c) && c.dir == dir
    requires rows <= o.Of(dir) && (|rows| == |o.fwd| || |rows| == END_PAGE + 1)
    ensures FirstPageOf(o, c, GetRecordList(c, rows, END_PAGE), dir)
  {
    assert |o.fwd| == |o.bwd|;
    hide Orders.Mirrored, RunIn, MarksSound, FirstPageOf;
    var n := Min(END_PAGE, |rows|);
    LoadedPrefix(o, c, dir, rows[..n]);
    MarkedPage(o, c, Load(c, rows[..n]), dir, n);
    assert rows[n - 1] == o.Of(dir)[n - 1];
  }

  lemma MarkedPage(o: Orders, c: Cursor, c1: Cursor, dir: Direction, n: nat)
    requires o.Mirrored() && o.fwd != [] && c.Shaped() && MarksSound(o, c) && c.dir == dir
    requires n == Min(END_PAGE, |o.fwd|) && RunIn(o, c1, dir, 0) && c1.size == n && c1.pos == 0
    requires c1 == c.(list := c1.list, size := n, pos := 0)
    ensures FirstPageOf(o, c, Mark(c1, n < END_PAGE, o.Of(dir)[n - 1]), dir)
  {
    assert |o.fwd| == |o.bwd|;
    hide Orders.Mirrored;
    EndsMeet(o, dir);
    MarkIsSound(o, c1, n < END_PAGE, o.Of(dir)[n - 1]);
    assert RunIn(o, Mark(c1, n < END_PAGE, o.Of(dir)[n - 1]), dir, 0);
  }

  lemma FirstPage(o: Orders, t: Table, c: Cursor, dir: Direction)
    requires Linked(o, t) && c.Shaped() && MarksSound(o, c)
    ensures FirstPageOf(o, c, GetRecordList(c.(dir := dir), EndRows(t, dir), END_PAGE), dir)
  {
    hide Backed, GetRecordList, EndRows, Orders.Mirrored, RunIn;
    EndRowsArePrefix(o, t, dir);
    FirstRows(o, c.(dir := dir), dir, EndRows(t, dir));
  }

  /** On the first record of the order in `dir`, its end mark set. */
  ghost predicate AtStart(o: Orders, c: Cursor, c': Cursor, dir: Direction) {
    && At(o, c', dir, 0) && !c'.fBof && !c'.fEof && !c'.firstInteract && c'.lastRec == c.lastRec
    && MarksSound(o, c') && StartMark(c', dir) == o.Of(dir)[0]
  }

  lemma GoEndMarked(o: Orders, t: Table, c: Cursor, dir: Direction)
    requires Linked(o, t) && c.Shaped() && MarksSound(o, c) && StartMark(c, dir) != 0
    ensures var c' := GoEnd(t, c, dir);
            && AtStart(o, c, c', dir)
            && (c'.size == 1 || (c'.list == c.list && c'.size == c.size && c'.dir == c.dir))
            && c'.bofAt == c.bofAt && c'.eofAt == c.eofAt
  {
    GoToIs(o, t, c.(firstInteract := false), StartMark(c, dir));
  }

  lemma GoEndFresh(o: Orders, t: Table, c: Cursor, dir: Direction)
    requires Linked(o, t) && c.Shaped() && MarksSound(o, c) && StartMark(c, dir) == 0
    ensures var c' := GoEnd(t, c, dir);
            && AtStart(o, c, c', dir) && c'.dir == dir && RunIn(o, c', dir, 0) && c'.size == Min(END_PAGE, |o.fwd|)
            && (c'.size == |o.fwd| && |o.fwd| != END_PAGE ==> StartMark(c', Other(dir)) != 0)
            && (c'.size == END_PAGE ==> StartMark(c', Other(dir)) == StartMark(c, Other(dir)))
            && c'.pos == 0 && c'.ready == c.ready
  {
    hide Backed, GetRecordList, EndRows, Orders.Mirrored;
    FirstPage(o, t, c.(firstInteract := false), dir);
    EndMarksNotZero(o, t);
  }

  lemma EndMarksNotZero(o: Orders, t: Table)
    requires Linked(o, t)
    ensures o.fwd[0] != 0 && o.bwd[0] != 0 && forall dir: Direction, p :: 0 <= p < |o.Of(dir)| ==> o.Of(dir)[p] != 0
  {
    hide Backed;
    assert o.fwd[0] in o.fwd && o.bwd[0] in o.bwd;
    assert forall dir: Direction, p :: 0 <= p < |o.Of(dir)| ==> o.Of(dir)[p] in o.fwd || o.Of(dir)[p] in o.bwd;
  }

  /** GoTop and GoBottom, remembered end or not: on the first record of the order in `dir`. */
  lemma GoEndIs(o: Orders, t: Table, c: Cursor, dir: Direction)
    requires Linked(o, t) && c.Shaped() && MarksSound(o, c)
    ensures AtStart(o, c, GoEnd(t, c, dir), dir) && KeptOrFresh(o, c, GoEnd(t, c, dir), dir)
  {
    if StartMark(c, dir) != 0 {
      GoEndMarked(o, t, c, dir);
    } else {
      GoEndFresh(o, t, c, dir);
    }
  }

  // ----- single steps

  /** The end marks are right, and the window is a contiguous run or one record outside the order. */
  ghost predicate Core(o: Orders, t: Table, c: Cursor) {
    && c.Shaped() && MarksSound(o, c)
    && (c.size > 0 ==> HasRun(o, c) || Stray(o, c))
    && (c.lastRec == 0 || c.lastRec == t.lastRecno + 1)
  }

  /** The condition between two calls, on a non-empty order. */
  ghost predicate Inv(o: Orders, t: Table, c: Cursor) {
    && Core(o, t, c)
    && (c.size == 0 ==> c.firstInteract || c.fEof)
    && (c.fEof ==> c.lastRec == t.lastRecno + 1)
  }

  lemma RunIsAt(o: Orders, c: Cursor, to: Direction) returns (p: nat)
    requires o.Mirrored() && HasRun(o, c)
    ensures At(o, c, to, p)
  {
    var dir, b :| RunIn(o, c, dir, b);
    PlaceInRun(o, c, dir, b, c.pos, to);
    assert c.(pos := c.pos) == c;
    p := Seen(o, dir, b, c.pos, to);
  }

  /** What a skip leaves when its fetch gives up: EOF, or the top of the order with BOF raised. */
  ghost predicate GivenUp(o: Orders, t: Table, c: Cursor, c': Cursor, step: int) {
    && MarksSound(o, c')
    && (if step > 0 then SameList(c, c') && c'.dir == Forward && c'.fEof && c'.fBof == c.fBof
                         && c'.lastRec == t.lastRecno + 1 && c'.firstInteract == c.firstInteract
        else At(o, c', Forward, 0) && c'.fBof && !c'.fEof && !c'.firstInteract && c'.lastRec == c.lastRec
             && KeptOrFresh(o, c.(dir := c'.dir), c', Forward))
  }

  lemma GivesUp(o: Orders, t: Table, c: Cursor, step: int)
    requires Linked(o, t) && (step == 1 || step == -1) && c.Shaped() && MarksSound(o, c)
    requires var c1 := CreateSkip(c.(dir := Dir(step))); GetByLevels(c1, LevelOne(t, c1), t.columns) == (c1, Retry)
    ensures GivenUp(o, t, c, SkipMiss(t, c, step), step)
  {
    hide Backed, GetByLevels, LevelOne;
    var c1 := CreateSkip(c.(dir := Dir(step)));
    CreateSkipKeeps(o, c.(dir := Dir(step)));
    if step < 0 {
      GoEndIs(o, t, c1, Forward);
    }
  }

  /** Skipping from a record outside the order, or from the phantom record: no fetch meets the
      current record, so the skip ends at EOF, or at the top with BOF raised. */
  lemma MissForeign(o: Orders, t: Table, c: Cursor, step: int)
    requires Linked(o, t) && (step == 1 || step == -1)
    requires c.Shaped() && c.current !in o.fwd && MarksSound(o, c)
    ensures GivenUp(o, t, c, SkipMiss(t, c, step), step)
  {
    hide Backed, SkipMiss, GivenUp;
    var c1 := CreateSkip(c.(dir := Dir(step)));
    ForeignIsRetry(o, t, c1);
    GivesUp(o, t, c, step);
  }

  /** The same from a record whose own rank among equal first columns is past the limit. */
  lemma LostMiss(o: Orders, t: Table, c: Cursor, step: int, p: nat)
    requires Linked(o, t) && LostAt(t, Dir(step), p) && (step == 1 || step == -1)
    requires At(o, c, Dir(step), p) && c.current == c.Here() && MarksSound(o, c)
    ensures GivenUp(o, t, c, SkipMiss(t, c, step), step)
  {
    hide Backed, SkipMiss, GivenUp, LostAt, GetByLevels, LevelOne;
    var c1 := CreateSkip(c.(dir := Dir(step)));
    LostResult(o, t, c1, p);
    GivesUp(o, t, c, step);
  }

  /** At the last record of its direction a miss raises that end there, crowded or not. */
  lemma MissRaisesEnd(o: Orders, t: Table, c: Cursor, step: int)
    requires Linked(o, t) && (step == 1 || step == -1) && MarksSound(o, c)
    requires At(o, c, Dir(step), |o.fwd| - 1) && c.current == c.Here() && !c.fEof && !c.fBof
    ensures var c' := SkipMiss(t, c, step);
            && MarksSound(o, c') && At(o, c', Dir(step), |o.fwd| - 1)
            && (c'.fEof <==> step > 0) && (c'.fBof <==> step < 0)
  {
    hide Backed, SkipMiss, UncrowdedAt, JustCrowdedAt, LostAt;
    var p := |o.fwd| - 1;
    if UncrowdedAt(t, Dir(step), p) {
      MissOnRecord(o, t, c, step, p);
    } else {
      BackedFacts(o, t, Dir(step));
      CrowdedHow(t, Dir(step), p);
      LostMiss(o, t, c, step, p);
      if step < 0 {
        AtMirror(o, SkipMiss(t, c, step), Forward, 0);
      }
    }
  }
}
