/** Whole runs of the cursor refine a position in the sorted table, unless the table has exactly
    as many rows as an end page. */
module CursorRefinement {
  import opened Common
  import opened Statement
  import opened Cursor
  import opened CursorPages
  import opened Window
  import opened CursorSteps
  import opened CursorRuns

  // ----- the specification: a position in the sequence of records

  datatype Place = Fresh | Record(p: nat, bof: bool) | Phantom

  function SpecMove(o: Orders, place: Place, op: Op): Place {
    var n := |o.fwd|;
    match op
    case Top => Record(0, false)
    case Bottom => if n == 0 then Fresh else Record(n - 1, false)
    case To(r) => Record(Index(o.fwd, r), false)
    case Step(s) =>
      var here := if place.Fresh? then Record(0, false) else place;
      if here.Phantom? then (if s > 0 || n == 0 then Phantom else Record(n - 1, false))
      else if s > 0 then (if here.p + 1 < n then Record(here.p + 1, false) else Phantom)
      else if here.p > 0 then Record(here.p - 1, false) else Record(0, true)
  }

  function SpecRun(o: Orders, ops: seq<Op>): Place {
    if ops == [] then Fresh else SpecMove(o, SpecRun(o, ops[..|ops| - 1]), ops[|ops| - 1])
  }

  predicate Existing(o: Orders, ops: seq<Op>) {
    forall i :: 0 <= i < |ops| && ops[i].To? ==> ops[i].recno in o.fwd
  }

  /** The cursor shows the place the specification says. */
  predicate Shows(o: Orders, c: Cursor, place: Place) {
    match place
    case Fresh => c.firstInteract
    case Record(p, bof) => At(o, c, Forward, p) && !c.fEof && (c.fBof <==> bof) && !c.firstInteract
    case Phantom => At(o, c, Forward, |o.fwd| - 1) && c.fEof && !c.fBof && !c.firstInteract
  }

  // ----- why the window is never read backwards

  /** A window that starts at an end of the order knows that end, and the other if it reaches it. */
  predicate Known(o: Orders, c: Cursor, b: nat) {
    c.size >= 2 && b == 0 ==>
      StartMark(c, c.dir) != 0 && (c.size == |o.fwd| ==> StartMark(c, Other(c.dir)) != 0)
  }

  /** The window has the sense of recordListDirection. */
  ghost predicate Sensible(o: Orders, c: Cursor) {
    exists b :: RunIn(o, c, c.dir, b) && Known(o, c, b)
  }

  lemma SingleIsSensible(o: Orders, c: Cursor, p: nat)
    requires o.Mirrored() && c.size == 1 && At(o, c, Forward, p)
    ensures Sensible(o, c)
  {
    SingleIsRun(o, c, p);
    var b := if c.dir.Forward? then p else |o.fwd| - 1 - p;
    assert RunIn(o, c, c.dir, b) && Known(o, c, b);
  }

  lemma SameIsSensible(o: Orders, c: Cursor, c': Cursor)
    requires Sensible(o, c) && c'.Shaped() && c'.list == c.list && c'.size == c.size
    requires c'.dir == c.dir && c'.bofAt == c.bofAt && c'.eofAt == c.eofAt
    ensures Sensible(o, c')
  {
    var b :| RunIn(o, c, c.dir, b) && Known(o, c, b);
    assert RunIn(o, c', c'.dir, b) && Known(o, c', b);
  }

  lemma GoEndSensible(o: Orders, t: Table, c: Cursor, dir: Direction)
    requires Linked(o, t) && Core(o, t, c) && |o.fwd| != END_PAGE && (c.size > 0 ==> Sensible(o, c))
    ensures Sensible(o, GoEnd(t, c, dir))
  {
    var c' := GoEnd(t, c, dir);
    if StartMark(c, dir) != 0 {
      GoEndMarked(o, t, c, dir);
      if c'.size == 1 {
        AtMirror(o, c', dir, 0);
        SingleIsSensible(o, c', if dir.Forward? then 0 else |o.fwd| - 1);
      } else {
        SameIsSensible(o, c, c');
      }
    } else {
      GoEndFresh(o, t, c, dir);
      EndMarksNotZero(o, t);
      assert RunIn(o, c', c'.dir, 0) && Known(o, c', 0);
    }
  }

  lemma GoToSensible(o: Orders, t: Table, c: Cursor, recno: int)
    requires Linked(o, t) && Inv(o, t, c) && recno in o.fwd && (c.size > 0 ==> Sensible(o, c))
    ensures Sensible(o, GoTo(t, c, recno))
  {
    var c' := GoTo(t, c, recno);
    GoToIs(o, t, c, recno);
    var p :| 0 <= p < |o.fwd| && o.fwd[p] == recno;
    if c'.size == 1 {
      SingleIsSensible(o, c', p);
    } else {
      SameIsSensible(o, c, c');
    }
  }

  /** At the last record of a step's direction, a sensible window that cannot serve the step either
      remembers that end, or is already listed in the direction of the step. */
  lemma EndIsKnown(o: Orders, t: Table, c: Cursor, step: int)
    requires Linked(o, t) && MarksSound(o, c) && Sensible(o, c) && c.size >= 2 && (step == 1 || step == -1)
    requires At(o, c, Dir(step), |o.fwd| - 1) && !Inside(c, step) && StartMark(c, Other(Dir(step))) != c.Here()
    ensures c.dir == Dir(step) && exists b :: b > 0 && RunIn(o, c, c.dir, b)
  {
    hide Backed;
    var b :| RunIn(o, c, c.dir, b) && Known(o, c, b);
    PlaceInRun(o, c, c.dir, b, c.pos, Dir(step));
    assert c.(pos := c.pos) == c;
    AtOnce(o, c, Dir(step), |o.fwd| - 1, Seen(o, c.dir, b, c.pos, Dir(step)));
    EndsMeet(o, Dir(step));
  }

  lemma SensibleAt(o: Orders, c: Cursor, b: nat)
    requires RunIn(o, c, c.dir, b) && Known(o, c, b)
    ensures Sensible(o, c)
  {
  }

  /** A fetch at the end that found nothing turns the recorded direction to the window's sense. */
  lemma TurnedSensible(o: Orders, t: Table, c: Cursor, c': Cursor, step: int, p: nat)
    requires Linked(o, t) && MarksSound(o, c) && Sensible(o, c) && (step == 1 || step == -1) && p + 1 == |o.fwd|
    requires At(o, c, Dir(step), p) && !Inside(c, step) && c'.Shaped() && SameList(c, c')
    requires c'.dir == Dir(step) && StartMark(c, Other(Dir(step))) != c.Here()
    ensures Sensible(o, c')
  {
    hide Backed, Sensible;
    if c.size == 1 {
      AtMirror(o, c, Dir(step), p);
      SingleIsSensible(o, c', if step > 0 then p else |o.fwd| - 1 - p);
    } else {
      EndIsKnown(o, t, c, step);
      var b :| b > 0 && RunIn(o, c, c.dir, b);
      SensibleAt(o, c', b);
    }
  }

  lemma RunAfterSensible(o: Orders, t: Table, c: Cursor, c': Cursor, step: int, p: nat)
    requires Linked(o, t) && MarksSound(o, c) && Sensible(o, c) && (step == 1 || step == -1)
    requires At(o, c, Dir(step), p) && !Inside(c, step) && c'.Shaped() && RunAfter(o, c, c', step, p)
    ensures Sensible(o, c')
  {
    hide Backed, Sensible, RunIn, Orders.Mirrored;
    if RunIn(o, c', c'.dir, p + 1) {
      SensibleAt(o, c', p + 1);
    } else if c'.dir == c.dir && c'.bofAt == c.bofAt && c'.eofAt == c.eofAt {
      SameIsSensible(o, c, c');
    } else {
      TurnedSensible(o, t, c, c', step, p);
    }
  }

  // ----- one movement

  ghost predicate Good(o: Orders, t: Table, c: Cursor) {
    Inv(o, t, c) && (c.size > 0 ==> Sensible(o, c))
  }

  /** A step from a record of the order. */
  lemma StepFromRecord(o: Orders, t: Table, c: Cursor, step: int, p: nat)
    requires Linked(o, t) && UncrowdedTable(t) && Good(o, t, c) && (step == 1 || step == -1)
    requires !c.firstInteract && !c.fEof && At(o, c, Dir(step), p)
    ensures Good(o, t, Skip(t, c, step)) && Lands(o, Skip(t, c, step), step, p) && !Skip(t, c, step).firstInteract
  {
    hide Skip, Backed, UncrowdedTable, UncrowdedAt, RunAfter;
    var b :| RunIn(o, c, c.dir, b) && Known(o, c, b);
    if Inside(c, step) {
      SkipInside(o, t, c, step, p, c.dir, b);
      SameIsSensible(o, c, Skip(t, c, step));
    } else {
      BackedFacts(o, t, Dir(step));
      NowhereCrowded(t, Dir(step), p);
      SkipOutside(o, t, c, step, p, c.dir, b);
      RunAfterSensible(o, t, c, Skip(t, c, step), step, p);
    }
  }

  /** Past the last record there is nothing to move to in a sensible window. */
  lemma PhantomIsOutside(o: Orders, c: Cursor)
    requires o.Mirrored() && Sensible(o, c) && At(o, c, Forward, |o.fwd| - 1)
    ensures !Inside(c, 1)
  {
    var b :| RunIn(o, c, c.dir, b) && Known(o, c, b);
    PlaceInRun(o, c, c.dir, b, c.pos, Forward);
    assert c.(pos := c.pos) == c;
    AtOnce(o, c, Forward, |o.fwd| - 1, Seen(o, c.dir, b, c.pos, Forward));
  }

  lemma StepFromPhantom(o: Orders, t: Table, c: Cursor, step: int)
    requires Linked(o, t) && UncrowdedTable(t) && Good(o, t, c) && (step == 1 || step == -1) && |o.fwd| != END_PAGE
    requires Shows(o, c, Phantom)
    ensures Good(o, t, Skip(t, c, step))
    ensures Shows(o, Skip(t, c, step), SpecMove(o, Phantom, Step(step)))
  {
    hide Skip, GoEnd, Backed, UncrowdedTable, Sensible;
    var c' := Skip(t, c, step);
    if step > 0 {
      PhantomIsOutside(o, c);
      SkipFromPhantom(o, t, c);
      RunAfterSensible(o, t, c, c', 1, |o.fwd| - 1);
    } else {
      BackFromPhantom(o, t, c);
      StartedIsCore(o, t, c);
      SameIsSensible(o, c, Started(c));
      GoEndKeeps(o, t, Started(c), Backward);
      GoEndSensible(o, t, Started(c), Backward);
      AtMirror(o, c', Backward, 0);
    }
  }

  lemma StepShows(o: Orders, t: Table, c: Cursor, step: int, place: Place)
    requires Linked(o, t) && UncrowdedTable(t) && Good(o, t, c) && (step == 1 || step == -1) && |o.fwd| != END_PAGE
    requires !place.Fresh? && Shows(o, c, place)
    ensures Good(o, t, Skip(t, c, step))
    ensures Shows(o, Skip(t, c, step), SpecMove(o, place, Step(step)))
  {
    hide Skip, GoEnd, GoTo, Backed, UncrowdedTable, Sensible;
    if place.Phantom? {
      StepFromPhantom(o, t, c, step);
    } else {
      var p := place.p;
      AtMirror(o, c, Forward, p);
      var q := if step > 0 then p else |o.fwd| - 1 - p;
      StepFromRecord(o, t, c, step, q);
      LandsShows(o, Skip(t, c, step), step, p, q, place.bof);
    }
  }

  lemma LandsShows(o: Orders, c': Cursor, step: int, p: nat, q: nat, bof: bool)
    requires o.Mirrored() && p < |o.fwd| && (step == 1 || step == -1) && q == if step > 0 then p else |o.fwd| - 1 - p
    requires Lands(o, c', step, q) && !c'.firstInteract
    ensures Shows(o, c', SpecMove(o, Record(p, bof), Step(step)))
  {
    if q + 1 < |o.fwd| {
      AtMirror(o, c', Dir(step), q + 1);
    } else {
      AtMirror(o, c', Dir(step), q);
    }
  }

  lemma EndShows(o: Orders, t: Table, c: Cursor, dir: Direction)
    requires Linked(o, t) && Good(o, t, c) && |o.fwd| != END_PAGE
    ensures Good(o, t, GoEnd(t, c, dir))
    ensures Shows(o, GoEnd(t, c, dir), Record(if dir.Forward? then 0 else |o.fwd| - 1, false))
  {
    hide Skip, GoEnd, Backed;
    GoEndKeeps(o, t, c, dir);
    GoEndSensible(o, t, c, dir);
    AtMirror(o, GoEnd(t, c, dir), dir, 0);
  }

  lemma ToShows(o: Orders, t: Table, c: Cursor, recno: int)
    requires Linked(o, t) && Good(o, t, c) && |o.fwd| != END_PAGE && recno in o.fwd
    ensures Good(o, t, GoTo(t, c, recno)) && Shows(o, GoTo(t, c, recno), Record(Index(o.fwd, recno), false))
  {
    hide Skip, GoTo, Backed;
    GoToKeeps(o, t, c, recno);
    GoToSensible(o, t, c, recno);
    assert recno != 0;
    GoToIs(o, t, c, recno);
    assert o.fwd[Index(o.fwd, recno)] == recno;
  }

  lemma FirstStepShows(o: Orders, t: Table, c: Cursor, step: int)
    requires Linked(o, t) && UncrowdedTable(t) && Good(o, t, c) && (step == 1 || step == -1) && |o.fwd| != END_PAGE
    requires c.firstInteract
    ensures Good(o, t, Skip(t, c, step))
    ensures Shows(o, Skip(t, c, step), SpecMove(o, Record(0, false), Step(step)))
  {
    hide Skip, GoEnd, GoTo, Backed, UncrowdedTable, Sensible;
    FirstSkip(o, t, c, step);
    EndShows(o, t, c, Forward);
    StepShows(o, t, GoTop(t, c), step, Record(0, false));
  }

  lemma MoveShows(o: Orders, t: Table, c: Cursor, op: Op, place: Place)
    requires Linked(o, t) && UncrowdedTable(t) && Good(o, t, c) && |o.fwd| != END_PAGE
    requires Shows(o, c, place) && (op.To? ==> op.recno in o.fwd)
    ensures Good(o, t, Move(t, c, op)) && Shows(o, Move(t, c, op), SpecMove(o, place, op))
  {
    hide Skip, GoEnd, GoTo, Backed, UncrowdedTable, Sensible;
    match op
    case Top => EndShows(o, t, c, Forward);
    case Bottom => EndShows(o, t, c, Backward);
    case To(r) => ToShows(o, t, c, r);
    case Step(s) =>
      var step := if s > 0 then 1 else -1;
      if place.Fresh? {
        FirstStepShows(o, t, c, step);
      } else {
        StepShows(o, t, c, step, place);
      }
  }

  /** Over every run of GoTop, GoBottom, GoTo a record of the order and Skip(+1/-1), the cursor is
      where a position in the sorted table would be, and raises BOF and EOF exactly there. */
  lemma {:induction false} RunsRefine(t: Table, c: Cursor, ops: seq<Op>)
    requires t.Valid() && t.rows != [] && UncrowdedTable(t) && Opened(c)
    requires |t.rows| != END_PAGE && Existing(OrdersOf(t), ops)
    ensures Good(OrdersOf(t), t, Run(t, c, ops)) && Shows(OrdersOf(t), Run(t, c, ops), SpecRun(OrdersOf(t), ops))
  {
    LinkedOrders(t);
    if ops != [] {
      RunsRefine(t, c, ops[..|ops| - 1]);
      MoveShows(OrdersOf(t), t, Run(t, c, ops[..|ops| - 1]), ops[|ops| - 1], SpecRun(OrdersOf(t), ops[..|ops| - 1]));
    }
  }

  // ----- the one table size at which a run goes astray

  /** The state of a table of END_PAGE rows after Top, To(last), Step(+1), To(first): the whole
      table in the window, ascending, and the first record not remembered. */
  predicate Forgetful(o: Orders, c: Cursor) {
    && c.Shaped() && c.size == |o.fwd| == END_PAGE && c.dir == Forward && c.bofAt == 0
    && (forall i :: 0 <= i < c.size ==> c.list[i] == o.fwd[i])
  }

  lemma IndexInWindow(o: Orders, c: Cursor, p: nat)
    requires o.Mirrored() && c.Shaped() && c.size == |o.fwd| && p < c.size
    requires forall i :: 0 <= i < c.size ==> c.list[i] == o.fwd[i]
    ensures Index(c.Window(), o.fwd[p]) == p
  {
    assert c.Window() == o.fwd;
    IndexInWhole(o.fwd, p);
  }

  lemma ForgetTop(o: Orders, t: Table, c: Cursor) returns (c': Cursor)
    requires Linked(o, t) && UncrowdedTable(t) && Opened(c) && |o.fwd| == END_PAGE
    ensures c' == Skip(t, GoTo(t, GoTop(t, c), o.fwd[END_PAGE - 1]), 1)
    ensures Forgetful(o, c') && !c'.firstInteract && c'.lastRec == t.lastRecno + 1 && c'.ready == Some(Forward)
  {
    hide Backed, SkipMiss, GoEnd;
    GoEndFresh(o, t, c, Forward);
    var c1 := GoTop(t, c);
    var last := END_PAGE - 1;
    IndexInWindow(o, c1, last);
    assert o.fwd[last] in o.fwd;
    var c2 := GoTo(t, c1, o.fwd[last]);
    assert c2 == c1.(pos := last, fEof := false, fBof := false, firstInteract := false);
    SkipIsRaw(t, c2, 1);
    EndMarksNotZero(o, t);
    BackedFacts(o, t, Forward);
    NowhereCrowded(t, Forward, last);
    MissAtEnd(o, t, Started(c2), 1);
    c' := Skip(t, c2, 1);
  }

  lemma ForgetThenStep(o: Orders, t: Table, c: Cursor) returns (c': Cursor)
    requires Linked(o, t) && UncrowdedTable(t) && Forgetful(o, c) && !c.firstInteract && c.ready == Some(Forward)
    requires c.lastRec == t.lastRecno + 1
    ensures c' == Skip(t, GoTo(t, c, o.fwd[0]), -1)
    ensures RunIn(o, c', Forward, 0) && c'.dir == Backward && c'.pos == 0 && c'.size == END_PAGE && !c'.firstInteract
  {
    hide Backed, SkipMiss;
    IndexInWindow(o, c, 0);
    EndMarksNotZero(o, t);
    assert o.fwd[0] in o.fwd;
    var c4 := GoTo(t, c, o.fwd[0]);
    assert c4 == c.(pos := 0, fEof := false, fBof := false, firstInteract := false);
    SkipIsRaw(t, c4, -1);
    AtMirror(o, c4, Forward, 0);
    BackedFacts(o, t, Backward);
    NowhereCrowded(t, Backward, END_PAGE - 1);
    MissAtEnd(o, t, Started(c4), -1);
    c' := Skip(t, c4, -1);
  }

  function AstrayRun(o: Orders): seq<Op>
    requires o.fwd != []
  {
    [Top, To(o.fwd[|o.fwd| - 1]), Step(1), To(o.fwd[0]), Step(-1), Step(-1)]
  }

  lemma RunStep(t: Table, c: Cursor, ops: seq<Op>, op: Op)
    requires c.Shaped() && 1 <= t.columns
    ensures Run(t, c, ops + [op]) == Move(t, Run(t, c, ops), op)
  {
    hide Move;
    assert (ops + [op])[..|ops|] == ops;
  }

  lemma RunSix(t: Table, c: Cursor, a: Op, b: Op, d: Op, e: Op, f: Op, g: Op)
    requires c.Shaped() && 1 <= t.columns
    ensures Run(t, c, [a, b, d, e, f, g]) == Move(t, Move(t, Move(t, Move(t, Move(t, Move(t, c, a), b), d), e), f), g)
  {
    hide Move, Run;
    RunStep(t, c, [a, b, d, e, f], g);
    RunStep(t, c, [a, b, d, e], f);
    RunStep(t, c, [a, b, d], e);
    RunStep(t, c, [a, b], d);
    RunStep(t, c, [a], b);
    RunStep(t, c, [], a);
    RunNothing(t, c);
    SixOps(a, b, d, e, f, g);
  }

  lemma SixOps(a: Op, b: Op, d: Op, e: Op, f: Op, g: Op)
    ensures [] + [a] == [a] && [a] + [b] == [a, b] && [a, b] + [d] == [a, b, d] && [a, b, d] + [e] == [a, b, d, e]
    ensures [a, b, d, e] + [f] == [a, b, d, e, f] && [a, b, d, e, f] + [g] == [a, b, d, e, f, g]
  {
  }

  lemma SpecStep(o: Orders, ops: seq<Op>, op: Op)
    ensures SpecRun(o, ops + [op]) == SpecMove(o, SpecRun(o, ops), op)
  {
    hide SpecMove;
    assert (ops + [op])[..|ops|] == ops;
  }

  lemma SpecSix(o: Orders, a: Op, b: Op, d: Op, e: Op, f: Op, g: Op)
    ensures SpecRun(o, [a, b, d, e, f, g])
            == SpecMove(o, SpecMove(o, SpecMove(o, SpecMove(o, SpecMove(o, SpecMove(o, Fresh, a), b), d), e), f), g)
  {
    hide SpecMove;
    SpecStep(o, [a, b, d, e, f], g);
    SpecStep(o, [a, b, d, e], f);
    SpecStep(o, [a, b, d], e);
    SpecStep(o, [a, b], d);
    SpecStep(o, [a], b);
    SpecStep(o, [], a);
    SixOps(a, b, d, e, f, g);
  }

  lemma RunNothing(t: Table, c: Cursor)
    requires c.Shaped() && 1 <= t.columns
    ensures Run(t, c, []) == c
  {
  }

  lemma AstraySpec(o: Orders)
    requires o.Mirrored() && |o.fwd| == END_PAGE
    ensures Existing(o, AstrayRun(o)) && SpecRun(o, AstrayRun(o)) == Record(0, true)
  {
    hide SpecRun;
    var last := END_PAGE - 1;
    IndexInWhole(o.fwd, 0);
    IndexInWhole(o.fwd, last);
    SpecSix(o, Top, To(o.fwd[last]), Step(1), To(o.fwd[0]), Step(-1), Step(-1));
  }

  lemma SmallIsUncrowded(t: Table)
    requires t.Valid() && |t.rows| <= RECORD_LIST_SIZE
    ensures UncrowdedTable(t)
  {
    forall dir: Direction, p: nat | p + 1 < |t.rows| ensures UncrowdedAt(t, dir, p) {
      OrderFacts(t, dir);
    }
  }

  /** On every table of exactly END_PAGE rows, the second Skip(-1) at the first record moves to the
      second one. */
  lemma AstrayRunFails(t: Table, c: Cursor)
    requires t.Valid() && Opened(c) && |t.rows| == END_PAGE
    ensures var o := OrdersOf(t);
            && Existing(o, AstrayRun(o)) && SpecRun(o, AstrayRun(o)) == Record(0, true)
            && !Shows(o, Run(t, c, AstrayRun(o)), Record(0, true))
  {
    hide Skip, GoTo, GoEnd, Run, SpecRun, OrdersOf, Shows, Existing, Backed, UncrowdedTable;
    LinkedOrders(t);
    SmallIsUncrowded(t);
    var o := OrdersOf(t);
    assert |o.fwd| == END_PAGE by { OrdersLength(t); }
    AstraySpec(o);
    RunSix(t, c, Top, To(o.fwd[|o.fwd| - 1]), Step(1), To(o.fwd[0]), Step(-1), Step(-1));
    AstrayEnd(o, t, c);
  }

  lemma OrdersLength(t: Table)
    ensures |OrdersOf(t).fwd| == |t.rows|
  {
  }

  // ----- a crowded order

  /** A record with a successor, and the step that should reach it. */
  function StrandedRun(o: Orders, dir: Direction, p: nat): seq<Op>
    requires p < |o.Of(dir)|
  {
    [To(o.Of(dir)[p]), Step(if dir.Forward? then 1 else -1)]
  }

  lemma StrandedSpec(o: Orders, dir: Direction, p: nat)
    requires o.Mirrored() && p + 1 < |o.fwd|
    ensures Existing(o, StrandedRun(o, dir, p))
    ensures SpecRun(o, StrandedRun(o, dir, p)) == Record(if dir.Forward? then p + 1 else |o.fwd| - 2 - p, false)
  {
    hide SpecRun;
    var q := if dir.Forward? then p else |o.fwd| - 1 - p;
    assert o.Of(dir)[p] == o.fwd[q];
    IndexInWhole(o.fwd, q);
    var a, b := To(o.Of(dir)[p]), Step(if dir.Forward? then 1 else -1);
    SpecStep(o, [a], b);
    SpecStep(o, [], a);
    assert [] + [a] == [a] && [a] + [b] == [a, b];
    SpecNothing(o);
  }

  lemma SpecNothing(o: Orders)
    ensures SpecRun(o, []) == Fresh
  {
  }

  lemma RaisedIsNotShown(o: Orders, c: Cursor, p: nat)
    requires c.fEof || c.fBof
    ensures !Shows(o, c, Record(p, false))
  {
  }

  lemma Stranded(o: Orders, t: Table, c: Cursor, dir: Direction, p: nat)
    requires Linked(o, t) && Opened(c) && p + 1 < |o.fwd| && !UncrowdedAt(t, dir, p)
    ensures var c' := Run(t, c, StrandedRun(o, dir, p)); c'.fEof || c'.fBof
  {
    hide Backed, Skip, GoTo, Run, UncrowdedAt;
    var c', step := FromAnywhere(o, t, c, dir, p);
    CrowdedSkip(o, t, c', step, p);
  }

  /** GoTo a crowded record that has a successor, then one step: an end is raised there. */
  lemma StrandedRunFails(t: Table, c: Cursor, dir: Direction, p: nat)
    requires t.Valid() && Opened(c) && p + 1 < |t.rows| && !UncrowdedAt(t, dir, p)
    ensures var o := OrdersOf(t);
            && p < |o.Of(dir)| && Existing(o, StrandedRun(o, dir, p))
            && !Shows(o, Run(t, c, StrandedRun(o, dir, p)), SpecRun(o, StrandedRun(o, dir, p)))
  {
    LinkedOrders(t);
    var o := OrdersOf(t);
    BackedFacts(o, t, dir);
    hide Run, SpecRun, OrdersOf, Existing, Backed, Linked, Table.Valid, UncrowdedAt, Shows, StrandedRun;
    StrandedSpec(o, dir, p);
    Stranded(o, t, c, dir, p);
    RaisedIsNotShown(o, Run(t, c, StrandedRun(o, dir, p)), if dir.Forward? then p + 1 else |o.fwd| - 2 - p);
  }

  /** The exact condition: over a non-empty order, every run is at the place the specification says
      if and only if the order does not have exactly END_PAGE records and no record with a successor
      is crowded. */
  lemma RunsRefineExactly(t: Table, c: Cursor)
    requires t.Valid() && t.rows != [] && Opened(c)
    ensures (forall ops :: Existing(OrdersOf(t), ops) ==> Shows(OrdersOf(t), Run(t, c, ops), SpecRun(OrdersOf(t), ops)))
            <==> |t.rows| != END_PAGE && UncrowdedTable(t)
  {
    hide Shows, Run, SpecRun, Existing, OrdersOf;
    if |t.rows| == END_PAGE {
      AstrayRunFails(t, c);
    } else if UncrowdedTable(t) {
      forall ops | Existing(OrdersOf(t), ops) ensures Shows(OrdersOf(t), Run(t, c, ops), SpecRun(OrdersOf(t), ops)) {
        RunsRefine(t, c, ops);
      }
    } else {
      var dir: Direction, p: nat :| p + 1 < |t.rows| && !UncrowdedAt(t, dir, p);
      StrandedRunFails(t, c, dir, p);
    }
  }

  lemma AstrayEnd(o: Orders, t: Table, c: Cursor)
    requires Linked(o, t) && UncrowdedTable(t) && Opened(c) && |o.fwd| == END_PAGE
    ensures var c3 := Skip(t, GoTo(t, GoTop(t, c), o.fwd[END_PAGE - 1]), 1);
            var c6 := Skip(t, Skip(t, GoTo(t, c3, o.fwd[0]), -1), -1);
            !Shows(o, c6, Record(0, true))
  {
    var c3 := ForgetTop(o, t, c);
    var c5 := ForgetThenStep(o, t, c3);
    SecondStepBack(o, t, c5);
  }

  lemma SecondStepBack(o: Orders, t: Table, c: Cursor)
    requires o.Mirrored() && RunIn(o, c, Forward, 0) && c.dir == Backward && c.pos == 0 && c.size == END_PAGE == |o.fwd|
    requires !c.firstInteract && 1 <= t.columns
    ensures !Shows(o, Skip(t, c, -1), Record(0, true))
  {
    SkipIsRaw(t, c, -1);
  }
}
