/** What the movements of the cursor mean for the index keys of the table: stated over the keys
    and the record numbers alone. */
module KeyOrder {
  import opened Common
  import opened Keys
  import opened Statement
  import opened Cursor
  import opened CursorPages
  import opened Window
  import opened CursorSteps
  import opened CursorRuns
  import opened CursorRefinement

  /** Row `k` is before every other row, in ascending or descending key order. */
  ghost predicate IsFirst(t: Table, asc: bool, k: int)
    requires SameWidth(t.rows, t.columns)
  {
    0 <= k < |t.rows| && forall i :: 0 <= i < |t.rows| && i != k ==> Before(asc, t.rows[k], t.rows[i])
  }

  /** Row `b` comes right after row `a`. */
  ghost predicate IsNext(t: Table, asc: bool, a: int, b: int)
    requires SameWidth(t.rows, t.columns) && 0 <= a < |t.rows|
  {
    && 0 <= b < |t.rows| && Before(asc, t.rows[a], t.rows[b])
    && forall i :: 0 <= i < |t.rows| && Before(asc, t.rows[a], t.rows[i])
                   ==> i == b || Before(asc, t.rows[b], t.rows[i])
  }

  /** The cursor is on the record of row `k`. */
  predicate OnRow(t: Table, c: Cursor, k: int) {
    c.Shaped() && c.size > 0 && 0 <= k < |t.rows| && c.Here() == Recno(t.rows[k])
  }

  // ----- rows and places

  /** The row at place `p` of the forward order. */
  function RowAt(t: Table, p: int): int {
    if t.reverse then |t.rows| - 1 - p else p
  }

  lemma PlaceIsRow(t: Table, p: nat)
    requires p < |t.rows|
    ensures t.Order(Forward)[p] == Recno(t.rows[RowAt(t, p)])
  {
  }

  lemma RowIsPlace(t: Table, c: Cursor, k: int, p: nat)
    requires t.Valid() && t.rows != [] && At(OrdersOf(t), c, Forward, p)
    ensures OnRow(t, c, k) <==> k == RowAt(t, p)
  {
    PlaceIsRow(t, p);
  }

  lemma RowsInOrder(t: Table, asc: bool, a: int, b: int)
    requires t.Valid() && 0 <= a < |t.rows| && 0 <= b < |t.rows|
    ensures Before(asc, t.rows[a], t.rows[b]) <==> if asc then a < b else b < a
  {
    hide Before;
    assert a < b ==> Before(true, t.rows[a], t.rows[b]);
    assert b < a ==> Before(true, t.rows[b], t.rows[a]);
    BeforeIsStrict(true, t.rows[a], t.rows[b]);
    BeforeIsStrict(false, t.rows[a], t.rows[b]);
    BeforeIsStrict(true, t.rows[b], t.rows[a]);
  }

  lemma FirstIs(t: Table, asc: bool, k: int)
    requires t.Valid() && t.rows != []
    ensures IsFirst(t, asc, k) <==> k == if asc then 0 else |t.rows| - 1
  {
    hide Before;
    var first := if asc then 0 else |t.rows| - 1;
    forall i | 0 <= i < |t.rows| && i != first ensures Before(asc, t.rows[first], t.rows[i]) {
      RowsInOrder(t, asc, first, i);
    }
    if IsFirst(t, asc, k) && k != first {
      assert Before(asc, t.rows[k], t.rows[first]);
      RowsInOrder(t, asc, k, first);
    }
  }

  lemma NextIs(t: Table, asc: bool, a: int)
    requires t.Valid() && 0 <= a < |t.rows| && 0 <= (if asc then a + 1 else a - 1) < |t.rows|
    ensures IsNext(t, asc, a, if asc then a + 1 else a - 1)
  {
    hide Before;
    var b := if asc then a + 1 else a - 1;
    RowsInOrder(t, asc, a, b);
    forall i | 0 <= i < |t.rows| && Before(asc, t.rows[a], t.rows[i])
      ensures i == b || Before(asc, t.rows[b], t.rows[i])
    {
      RowsInOrder(t, asc, a, i);
      RowsInOrder(t, asc, b, i);
    }
  }

  // ----- the ends

  /** Each remembered end is forgotten or the record number of the row that ends the index there. */
  ghost predicate MarksAreEnds(t: Table, c: Cursor)
    requires SameWidth(t.rows, t.columns)
  {
    && (c.bofAt == 0 || exists k :: 0 <= k < |t.rows| && IsFirst(t, !t.reverse, k) && c.bofAt == Recno(t.rows[k]))
    && (c.eofAt == 0 || exists k :: 0 <= k < |t.rows| && IsFirst(t, t.reverse, k) && c.eofAt == Recno(t.rows[k]))
  }

  lemma EndsAreRows(t: Table)
    requires t.Valid() && t.rows != []
    ensures var o := OrdersOf(t); var n := |t.rows|;
            && o.fwd[0] == Recno(t.rows[if t.reverse then n - 1 else 0])
            && o.bwd[0] == Recno(t.rows[if t.reverse then 0 else n - 1])
  {
  }

  lemma MarksAreSound(t: Table, c: Cursor)
    requires t.Valid() && t.rows != [] && MarksAreEnds(t, c)
    ensures MarksSound(OrdersOf(t), c)
  {
    hide OrdersOf, IsFirst;
    EndsAreRows(t);
    if c.bofAt != 0 {
      var k :| 0 <= k < |t.rows| && IsFirst(t, !t.reverse, k) && c.bofAt == Recno(t.rows[k]);
      FirstIs(t, !t.reverse, k);
    }
    if c.eofAt != 0 {
      var k :| 0 <= k < |t.rows| && IsFirst(t, t.reverse, k) && c.eofAt == Recno(t.rows[k]);
      FirstIs(t, t.reverse, k);
    }
    assert OrdersOf(t).fwd != [] && OrdersOf(t).bwd != [] by { LinkedOrders(t); }
  }

  /** GoTop: on the first row in ascending key order, or in descending order of a reversed index. */
  lemma TopIsFirstRow(t: Table, c: Cursor) returns (k: int)
    requires t.Valid() && t.rows != [] && c.Shaped() && MarksAreEnds(t, c)
    ensures IsFirst(t, !t.reverse, k) && OnRow(t, GoTop(t, c), k) && !GoTop(t, c).fBof && !GoTop(t, c).fEof
  {
    LinkedOrders(t);
    EndsAreRows(t);
    MarksAreSound(t, c);
    hide OrdersOf, IsFirst, GoEnd, Table.Valid, Backed;
    GoEndIs(OrdersOf(t), t, c, Forward);
    k := if t.reverse then |t.rows| - 1 else 0;
    FirstIs(t, !t.reverse, k);
  }

  /** GoBottom: on the last one. */
  lemma BottomIsLastRow(t: Table, c: Cursor) returns (k: int)
    requires t.Valid() && t.rows != [] && c.Shaped() && MarksAreEnds(t, c)
    ensures IsFirst(t, t.reverse, k) && OnRow(t, GoBottom(t, c), k) && !GoBottom(t, c).fBof && !GoBottom(t, c).fEof
  {
    LinkedOrders(t);
    EndsAreRows(t);
    MarksAreSound(t, c);
    hide OrdersOf, IsFirst, GoEnd, Table.Valid, Backed;
    GoEndIs(OrdersOf(t), t, c, Backward);
    k := if t.reverse then 0 else |t.rows| - 1;
    FirstIs(t, t.reverse, k);
  }

  // ----- single steps, after any run

  /** Every record asked for is in the index. */
  ghost predicate AsksForRows(t: Table, ops: seq<Op>) {
    forall i :: 0 <= i < |ops| && ops[i].To? ==> exists k :: 0 <= k < |t.rows| && ops[i].recno == Recno(t.rows[k])
  }

  lemma AskedExist(t: Table, ops: seq<Op>)
    requires AsksForRows(t, ops)
    ensures Existing(OrdersOf(t), ops)
  {
    forall i | 0 <= i < |ops| && ops[i].To? ensures ops[i].recno in OrdersOf(t).fwd {
      var k :| 0 <= k < |t.rows| && ops[i].recno == Recno(t.rows[k]);
      PlaceIsRow(t, RowAt(t, k));
      assert OrdersOf(t).fwd[RowAt(t, k)] == ops[i].recno;
    }
  }

  /** After any run from a record to a record, Skip(+1) lands on the row that comes next in ascending
      key order - in descending order of a reversed index - and Skip(-1) on the one before; or the
      record is the last one that way, and the flag of the step is raised on it. */
  lemma StepIsNeighbour(t: Table, c: Cursor, ops: seq<Op>, s: int, a: int)
    requires t.Valid() && t.rows != [] && UncrowdedTable(t) && |t.rows| != END_PAGE && Opened(c)
    requires AsksForRows(t, ops) && OnRow(t, Run(t, c, ops), a) && !Run(t, c, ops).fEof
    ensures var asc := if s > 0 then !t.reverse else t.reverse;
            var c' := Run(t, c, ops + [Step(s)]);
            if c'.fBof || c'.fEof
            then IsFirst(t, !asc, a) && OnRow(t, c', a) && c'.fEof == (s > 0) && c'.fBof == (s <= 0)
            else exists b :: IsNext(t, asc, a, b) && OnRow(t, c', b)
  {
    hide OrdersOf, Run, Shows, SpecRun, Existing, UncrowdedTable, IsFirst, IsNext;
    var o, more := OrdersOf(t), ops + [Step(s)];
    AskedExist(t, ops);
    AskedMore(t, ops, s);
    AskedExist(t, more);
    RunsRefine(t, c, ops);
    RunsRefine(t, c, more);
    SpecStep(o, ops, Step(s));
    NeverFresh(t, c, ops);
    StepByPlace(t, Run(t, c, ops), Run(t, c, more), SpecRun(o, ops), s, a);
  }

  lemma AskedMore(t: Table, ops: seq<Op>, s: int)
    requires AsksForRows(t, ops)
    ensures AsksForRows(t, ops + [Step(s)])
  {
    var more := ops + [Step(s)];
    forall i | 0 <= i < |more| && more[i].To?
      ensures exists k :: 0 <= k < |t.rows| && more[i].recno == Recno(t.rows[k])
    {
      assert more[i] == ops[i];
    }
  }

  lemma NeverFresh(t: Table, c: Cursor, ops: seq<Op>)
    requires t.Valid() && t.rows != [] && Opened(c)
    ensures Run(t, c, ops).size > 0 ==> !SpecRun(OrdersOf(t), ops).Fresh?
  {
    LinkedOrders(t);
  }

  lemma StepByPlace(t: Table, c: Cursor, c': Cursor, place: Place, s: int, a: int)
    requires t.Valid() && t.rows != [] && Shows(OrdersOf(t), c, place) && OnRow(t, c, a) && !c.fEof && !place.Fresh?
    requires Shows(OrdersOf(t), c', SpecMove(OrdersOf(t), place, Step(s)))
    ensures var asc := if s > 0 then !t.reverse else t.reverse;
            if c'.fBof || c'.fEof
            then IsFirst(t, !asc, a) && OnRow(t, c', a) && c'.fEof == (s > 0) && c'.fBof == (s <= 0)
            else exists b :: IsNext(t, asc, a, b) && OnRow(t, c', b)
  {
    hide IsFirst, IsNext, Table.Valid, OrdersOf, OnRow;
    var asc := if s > 0 then !t.reverse else t.reverse;
    var p: int, n: int := place.p, |t.rows|;
    OrdersLength(t);
    RowIsPlace(t, c, a, p);
    var q := if s > 0 then p + 1 else p - 1;
    if 0 <= q < n {
      RowIsPlace(t, c', RowAt(t, q), q);
      assert RowAt(t, q) == if asc then a + 1 else a - 1;
      NextIs(t, asc, a);
    } else {
      RowIsPlace(t, c', a, p);
      FirstIs(t, !asc, a);
    }
  }
}
