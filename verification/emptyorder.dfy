/** The cursor over an order with no record: the flags every run leaves, and the one way to lose them. */
module EmptyOrder {
  import opened Common
  import Query
  import opened Statement
  import opened Cursor
  import opened CursorPages
  import opened CursorRuns

  datatype Flags = Flags(bof: bool, eof: bool)

  /** GoTop and GoBottom raise both flags; a skip leaves the flag of its direction alone. */
  function LastFlags(ops: seq<Op>): Flags
    requires ops != []
  {
    match ops[|ops| - 1]
    case Top => Flags(true, true)
    case Bottom => Flags(true, true)
    case To(_) => Flags(true, true)
    case Step(s) => if s > 0 then Flags(false, true) else Flags(true, false)
  }

  predicate NoGoTo(ops: seq<Op>) {
    forall i :: 0 <= i < |ops| ==> !ops[i].To? || ops[i].recno == 0
  }

  /** Nothing listed, nothing remembered. */
  predicate Bare(t: Table, c: Cursor) {
    && c.Shaped() && c.size == 0 && c.bofAt == 0 && c.eofAt == 0
    && (c.lastRec == 0 || c.lastRec == t.lastRecno + 1)
  }

  lemma NoRows(t: Table, c: Cursor, dir: Direction)
    requires t.rows == [] && 1 <= t.columns && c.Shaped()
    ensures EndRows(t, dir) == [] && LevelOne(t, c) == []
  {
    assert t.Scan(c.dir) == [];
    match Query.Parse(Query.Join(LevelAtoms(t, c.dir, 1)))
    case Bad =>
    case Conjunction(atoms) => assert Select(t.Scan(c.dir), atoms, [FirstColumn(t, c)]) == [];
  }

  lemma EndOfNothing(t: Table, c: Cursor, dir: Direction)
    requires t.rows == [] && 1 <= t.columns && Bare(t, c)
    ensures var c' := GoEnd(t, c, dir); Bare(t, c') && c'.fBof && c'.fEof && !c'.firstInteract
  {
    hide EndRows;
    NoRows(t, c, dir);
  }

  /** On an empty order GoTop and GoBottom raise the flags if and only if nothing is listed and no
      record is remembered there; else they raise neither, and stay on a record. */
  lemma EndOfNothingExact(t: Table, c: Cursor, dir: Direction)
    requires t.rows == [] && 1 <= t.columns && c.Shaped()
    ensures var c' := GoEnd(t, c, dir);
            if StartMark(c, dir) == 0 && c.size == 0 then c'.fBof && c'.fEof && c'.size == 0
            else !c'.fBof && !c'.fEof && c'.size > 0
  {
    hide EndRows;
    NoRows(t, c, dir);
  }

  lemma MissInNothing(t: Table, c: Cursor, step: int)
    requires t.rows == [] && 1 <= t.columns && Bare(t, c) && (step == 1 || step == -1) && !c.fBof && !c.fEof
    ensures var c' := SkipMiss(t, c, step);
            && Bare(t, c') && (if step > 0 then c'.fEof && !c'.fBof else c'.fBof)
            && c'.firstInteract == (c.firstInteract && step > 0)
  {
    hide LevelOne, GoEnd;
    var c1 := CreateSkip(c.(dir := Dir(step)));
    NoRows(t, c1, Forward);
    assert GetByLevels(c1, LevelOne(t, c1), t.columns) == (c1, Retry);
    EndOfNothing(t, c1, Forward);
  }

  lemma StepInNothing(t: Table, c: Cursor, step: int)
    requires t.rows == [] && 1 <= t.columns && Bare(t, c) && (step == 1 || step == -1) && !c.firstInteract
    ensures var c' := Skip(t, c, step);
            Bare(t, c') && !c'.firstInteract && (c'.fEof <==> step > 0) && (c'.fBof <==> step < 0)
  {
    hide SkipMiss, GoEnd;
    SkipIsRaw(t, c, step);
    EndOfNothing(t, Started(c), Backward);
    MissInNothing(t, Started(c), step);
  }

  lemma MoveInNothing(t: Table, c: Cursor, op: Op)
    requires t.rows == [] && t.Valid() && Bare(t, c) && (op.To? ==> op.recno == 0)
    ensures var c' := Move(t, c, op);
            Bare(t, c') && !c'.firstInteract && Flags(c'.fBof, c'.fEof) == LastFlags([op])
  {
    hide Skip, GoEnd;
    match op
    case Top => EndOfNothing(t, c, Forward);
    case Bottom => EndOfNothing(t, c, Backward);
    case To(_) =>
    case Step(s) =>
      var step := if s > 0 then 1 else -1;
      if c.firstInteract {
        EndOfNothing(t, c, Forward);
        FirstOfNothing(t, c, step);
        StepInNothing(t, GoTop(t, c), step);
      } else {
        StepInNothing(t, c, step);
      }
  }

  lemma FirstOfNothing(t: Table, c: Cursor, step: int)
    requires t.rows == [] && 1 <= t.columns && Bare(t, c) && c.firstInteract && (step == 1 || step == -1)
    ensures Skip(t, c, step) == Skip(t, GoTop(t, c), step)
  {
    EndOfNothing(t, c, Forward);
  }

  /** Over an empty order, every run that asks for no record ends with the flags of its last call. */
  lemma {:induction false} EmptyRuns(t: Table, c: Cursor, ops: seq<Op>)
    requires t.Valid() && t.rows == [] && Opened(c) && ops != [] && NoGoTo(ops)
    ensures var c' := Run(t, c, ops); Bare(t, c') && Flags(c'.fBof, c'.fEof) == LastFlags(ops)
  {
    hide Move;
    var front, last := ops[..|ops| - 1], ops[|ops| - 1];
    assert ops[|ops| - 1].To? ==> ops[|ops| - 1].recno == 0;
    if front != [] {
      EmptyRuns(t, c, front);
    }
    MoveInNothing(t, Run(t, c, front), last);
  }

  /** After GoTo any record - filtered out or not in the table - GoTop stays on it with both flags
      down, and takes it for the first record (and reports an error when it is not in the table). */
  lemma GoToSticks(t: Table, c: Cursor, recno: int)
    requires t.Valid() && t.rows == [] && Opened(c) && recno != 0
    ensures var c' := GoTop(t, GoTo(t, c, recno));
            c'.size == 1 && c'.Here() == recno == c'.bofAt && !c'.fBof && !c'.fEof
  {
    hide EndRows;
    NoRows(t, GoTo(t, c, recno), Forward);
  }
}
