/** Runs of the cursor: one step exactly, and the end marks and the window over every run. */
module CursorRuns {
  import opened Common
  import opened Statement
  import opened Cursor
  import opened CursorPages
  import opened Window
  import opened CursorSteps

  datatype Op = Top | Bottom | To(recno: int) | Step(step: int)

  function Move(t: Table, c: Cursor, op: Op): (c': Cursor)
    requires c.Shaped() && 1 <= t.columns
    ensures c'.Shaped()
  {
    match op
    case Top => GoTop(t, c)
    case Bottom => GoBottom(t, c)
    case To(r) => GoTo(t, c, r)
    case Step(s) => Skip(t, c, if s > 0 then 1 else -1)
  }

  function Run(t: Table, c: Cursor, ops: seq<Op>): (c': Cursor)
    requires c.Shaped() && 1 <= t.columns
    ensures c'.Shaped()
  {
    if ops == [] then c else Move(t, Run(t, c, ops[..|ops| - 1]), ops[|ops| - 1])
  }

  /** A work area just opened. */
  predicate Opened(c: Cursor) {
    c.Shaped() && c.size == 0 && c.bofAt == 0 && c.eofAt == 0 && c.firstInteract && c.lastRec == 0
    && !c.fEof && !c.fBof && c.ready.None?
  }

  // ----- one skip from a record

  /** The true effect of one step from index `p`: the neighbour, or the end it is at. */
  predicate Lands(o: Orders, c': Cursor, step: int, p: nat) {
    if p + 1 < |o.fwd| then At(o, c', Dir(step), p + 1) && !c'.fBof && !c'.fEof
    else At(o, c', Dir(step), p) && (c'.fEof <==> step > 0) && (c'.fBof <==> step <= 0)
  }

  /** The state in which sqlExSkip calls sqlExSkipRaw. */
  function Started(c: Cursor): (c': Cursor)
    requires c.Shaped()
    ensures c'.Shaped()
  {
    c.(current := RecordNum(c), fBof := false, fEof := false)
  }

  lemma SkipIsRaw(t: Table, c: Cursor, step: int)
    requires c.Shaped() && 1 <= t.columns && !c.firstInteract && (step == 1 || step == -1)
    ensures Skip(t, c, step) == Finished(SkipRaw(t, Started(c), step), step)
  {
    assert SkipSteps(t, Started(c), step, 1) == SkipRaw(t, Started(c), step);
  }

  /** The window after a step that the window could not serve: a run in the direction of the
      step, or the same list, whose recorded direction flips only if no end was remembered. */
  ghost predicate RunAfter(o: Orders, c: Cursor, c': Cursor, step: int, p: nat)
    requires c.Shaped()
  {
    || (RunIn(o, c', c'.dir, p + 1) && c'.dir == Dir(step))
    || (SameList(c, c') && p + 1 == |o.fwd| && c'.dir == c.dir && c'.bofAt == c.bofAt && c'.eofAt == c.eofAt)
    || (SameList(c, c') && p + 1 == |o.fwd| && c'.dir == Dir(step) && StartMark(c, Other(c'.dir)) != c.Here())
  }

  /** What a step outside the window does to the state sqlExSkip hands down. */
  ghost predicate Outcome(o: Orders, t: Table, c: Cursor, c': Cursor, step: int, p: nat)
    requires c.Shaped()
  {
    && MarksSound(o, c') && RunAfter(o, c, c', step, p)
    && (p + 1 < |o.fwd| ==> RunIn(o, c', c'.dir, p + 1) && c'.pos == 0 && SameFlags(c, c'))
    && (p + 1 == |o.fwd| ==> RaisedEnd(t, c, c', step))
  }

  lemma OutcomeOfEnd(o: Orders, t: Table, c: Cursor, step: int, p: nat)
    requires Linked(o, t) && MarksSound(o, c) && (step == 1 || step == -1)
    requires At(o, c, Dir(step), p) && !Inside(c, step) && TryCache(t, c, step).Some?
    ensures Outcome(o, t, c, TryCache(t, c, step).value, step, p)
  {
    CacheEndExact(o, t, c, step);
    AtOnce(o, c, Dir(step), |o.fwd| - 1, p);
  }

  lemma OutcomeOfMiss(o: Orders, t: Table, c: Cursor, step: int, p: nat)
    requires Linked(o, t) && UncrowdedAt(t, Dir(step), p) && MarksSound(o, c) && (step == 1 || step == -1)
    requires At(o, c, Dir(step), p) && c.current == c.Here() && !Inside(c, step) && TryCache(t, c, step).None?
    ensures Outcome(o, t, c, SkipMiss(t, c, step), step, p)
  {
    hide Backed, UncrowdedAt;
    MissOnRecord(o, t, c, step, p);
    if p + 1 == |o.fwd| {
      UnrememberedEnd(o, t, c, step, p);
    }
  }

  /** At its last record, a step that the remembered end did not stop. */
  lemma UnrememberedEnd(o: Orders, t: Table, c: Cursor, step: int, p: nat)
    requires o.Mirrored() && (step == 1 || step == -1) && At(o, c, Dir(step), p) && p + 1 == |o.fwd|
    requires !Inside(c, step) && TryCache(t, c, step).None?
    ensures StartMark(c, Other(Dir(step))) != c.Here()
  {
  }

  lemma RawOutside(o: Orders, t: Table, c: Cursor, step: int, p: nat)
    requires Linked(o, t) && UncrowdedAt(t, Dir(step), p) && MarksSound(o, c) && (step == 1 || step == -1)
    requires At(o, c, Dir(step), p) && c.current == c.Here() != c.lastRec && !Inside(c, step)
    ensures Outcome(o, t, c, SkipRaw(t, c, step), step, p)
  {
    hide Backed, UncrowdedAt;
    if TryCache(t, c, step).Some? {
      OutcomeOfEnd(o, t, c, step, p);
    } else {
      OutcomeOfMiss(o, t, c, step, p);
    }
  }

  lemma StartedFacts(o: Orders, t: Table, c: Cursor, step: int, p: nat)
    requires Linked(o, t) && Inv(o, t, c) && !c.fEof && At(o, c, Dir(step), p)
    ensures var c0 := Started(c); c0.current == c0.Here() != c0.lastRec && At(o, c0, Dir(step), p)
  {
    assert o.Of(Dir(step))[p] in t.stored;
  }

  function Finished(raw: Cursor, step: int): Cursor {
    if step > 0 then raw.(fBof := false) else raw.(fEof := false)
  }

  lemma MoveLands(o: Orders, t: Table, c: Cursor, raw: Cursor, step: int, p: nat, dir: Direction, b: nat)
    requires o.Mirrored() && Inv(o, t, c) && !c.fEof && RunIn(o, c, dir, b) && (step == 1 || step == -1)
    requires raw.Shaped() && raw == Started(c).(pos := raw.pos) && (At(o, raw, Dir(step), p + 1) <==> dir == c.dir)
    requires p + 1 == |o.fwd| ==> !At(o, raw, Dir(step), p + 1)
    ensures Inv(o, t, Finished(raw, step)) && RunIn(o, Finished(raw, step), dir, b)
    ensures Lands(o, Finished(raw, step), step, p) <==> dir == c.dir
  {
    assert RunIn(o, Finished(raw, step), dir, b);
  }

  /** A step that the window can serve: one place along the list. */
  lemma SkipInside(o: Orders, t: Table, c: Cursor, step: int, p: nat, dir: Direction, b: nat)
    requires Linked(o, t) && Inv(o, t, c) && (step == 1 || step == -1)
    requires !c.firstInteract && !c.fEof && RunIn(o, c, dir, b) && At(o, c, Dir(step), p) && Inside(c, step)
    ensures var c' := Skip(t, c, step);
            && Inv(o, t, c') && RunIn(o, c', dir, b) && c'.dir == c.dir && c'.list == c.list && c'.size == c.size
            && !c'.firstInteract
            && c'.bofAt == c.bofAt && c'.eofAt == c.eofAt && (Lands(o, c', step, p) <==> dir == c.dir)
  {
    hide Backed;
    SkipIsRaw(t, c, step);
    StartedFacts(o, t, c, step, p);
    assert RunIn(o, Started(c), dir, b);
    CacheMoveExact(o, t, Started(c), step, p, dir, b);
    MoveLands(o, t, c, SkipRaw(t, Started(c), step), step, p, dir, b);
  }

  /** The flags sqlExSkip leaves turn an outcome into the true effect of the step. */
  lemma OutcomeLands(o: Orders, t: Table, c: Cursor, raw: Cursor, step: int, p: nat, dir: Direction, b: nat)
    requires o.Mirrored() && Inv(o, t, c) && !c.firstInteract && !c.fEof && RunIn(o, c, dir, b)
             && At(o, c, Dir(step), p)
    requires raw.Shaped() && Outcome(o, t, Started(c), raw, step, p) && (step == 1 || step == -1)
    ensures Lands(o, Finished(raw, step), step, p)
    ensures RunAfter(o, c, Finished(raw, step), step, p) && !raw.firstInteract
  {
  }

  lemma OutcomeKeepsInv(o: Orders, t: Table, c: Cursor, raw: Cursor, step: int, p: nat, dir: Direction, b: nat)
    requires o.Mirrored() && Inv(o, t, c) && !c.firstInteract && !c.fEof && RunIn(o, c, dir, b)
             && At(o, c, Dir(step), p)
    requires raw.Shaped() && Outcome(o, t, Started(c), raw, step, p) && (step == 1 || step == -1)
    ensures Inv(o, t, Finished(raw, step))
  {
    var c' := Finished(raw, step);
    if p + 1 < |o.fwd| {
      assert RunIn(o, c', c'.dir, p + 1);
    } else {
      assert RunIn(o, c', dir, b);
    }
  }

  /** A step that it cannot serve: the true neighbour, or the right end. */
  lemma SkipOutside(o: Orders, t: Table, c: Cursor, step: int, p: nat, dir: Direction, b: nat)
    requires Linked(o, t) && UncrowdedAt(t, Dir(step), p) && Inv(o, t, c) && (step == 1 || step == -1)
    requires !c.firstInteract && !c.fEof && RunIn(o, c, dir, b) && At(o, c, Dir(step), p) && !Inside(c, step)
    ensures var c' := Skip(t, c, step);
            Inv(o, t, c') && !c'.firstInteract && Lands(o, c', step, p) && RunAfter(o, c, c', step, p)
  {
    hide Backed, UncrowdedAt;
    SkipIsRaw(t, c, step);
    StartedFacts(o, t, c, step, p);
    RawOutside(o, t, Started(c), step, p);
    OutcomeLands(o, t, c, SkipRaw(t, Started(c), step), step, p, dir, b);
    OutcomeKeepsInv(o, t, c, SkipRaw(t, Started(c), step), step, p, dir, b);
  }

  /** A step from a record, past the window and the remembered ends: it is the miss. */
  lemma SkipIsMiss(o: Orders, t: Table, c: Cursor, step: int, p: nat)
    requires Linked(o, t) && Inv(o, t, c) && (step == 1 || step == -1) && !c.firstInteract && !c.fEof
    requires At(o, c, Dir(step), p) && !Inside(c, step) && TryCache(t, c, step).None?
    ensures Skip(t, c, step) == Finished(SkipMiss(t, Started(c), step), step)
  {
    hide Backed, SkipMiss;
    SkipIsRaw(t, c, step);
    StartedFacts(o, t, c, step, p);
  }

  /** In the middle of the order no remembered end serves a step. */
  lemma NoEndInside(o: Orders, t: Table, c: Cursor, step: int, p: nat)
    requires Linked(o, t) && MarksSound(o, c) && (step == 1 || step == -1)
    requires At(o, c, Dir(step), p) && p + 1 < |o.fwd| && !Inside(c, step)
    ensures TryCache(t, c, step).None?
  {
    if TryCache(t, c, step).Some? {
      EndMarksNotZero(o, t);
      CacheEndExact(o, t, c, step);
      AtOnce(o, c, Dir(step), |o.fwd| - 1, p);
      assert false;
    }
  }

  /** A crowded fetch in the middle of the order raises an end there. */
  lemma CrowdedSkip(o: Orders, t: Table, c: Cursor, step: int, p: nat)
    requires Linked(o, t) && !UncrowdedAt(t, Dir(step), p) && Inv(o, t, c) && (step == 1 || step == -1)
    requires !c.firstInteract && !c.fEof && At(o, c, Dir(step), p) && p + 1 < |o.fwd| && !Inside(c, step)
    ensures var c' := Skip(t, c, step); c'.fEof || c'.fBof
  {
    hide Backed, UncrowdedAt, SkipMiss;
    NoEndInside(o, t, c, step, p);
    SkipIsMiss(o, t, c, step, p);
    StartedFacts(o, t, c, step, p);
    CrowdedMiss(o, t, Started(c), step, p);
  }

  /** At the last record of its direction a step raises that end, crowded or not. */
  lemma EndSkip(o: Orders, t: Table, c: Cursor, step: int, p: nat)
    requires Linked(o, t) && Inv(o, t, c) && (step == 1 || step == -1)
    requires !c.firstInteract && !c.fEof && At(o, c, Dir(step), p) && p + 1 == |o.fwd| && !Inside(c, step)
    ensures Lands(o, Skip(t, c, step), step, p)
  {
    hide Backed, SkipMiss;
    StartedFacts(o, t, c, step, p);
    if TryCache(t, c, step).Some? {
      SkipIsRaw(t, c, step);
      OutcomeOfEnd(o, t, Started(c), step, p);
    } else {
      SkipIsMiss(o, t, c, step, p);
      MissRaisesEnd(o, t, Started(c), step);
    }
  }

  /** One step from a record of the order: it lands on the true neighbour, or raises the right
      end, if and only if the window serves it in its recorded direction, or the window cannot
      serve it and it is at the end or not crowded. */
  lemma SkipExact(o: Orders, t: Table, c: Cursor, step: int, p: nat, dir: Direction, b: nat)
    requires Linked(o, t) && Inv(o, t, c) && (step == 1 || step == -1)
    requires !c.firstInteract && !c.fEof && RunIn(o, c, dir, b) && At(o, c, Dir(step), p)
    ensures Lands(o, Skip(t, c, step), step, p)
            <==> if Inside(c, step) then dir == c.dir else p + 1 < |o.fwd| ==> UncrowdedAt(t, Dir(step), p)
  {
    hide Backed, UncrowdedAt, Skip, Inv;
    if Inside(c, step) {
      SkipInside(o, t, c, step, p, dir, b);
    } else if p + 1 == |o.fwd| {
      EndSkip(o, t, c, step, p);
    } else if UncrowdedAt(t, Dir(step), p) {
      SkipOutside(o, t, c, step, p, dir, b);
    } else {
      CrowdedSkip(o, t, c, step, p);
    }
  }

  // ----- more than one record, inside the window

  /** Where `count` steps along the list lead. */
  function Target(c: Cursor, step: int, count: nat): int {
    if c.dir == Dir(step) then c.pos + count else c.pos - count
  }

  lemma StepInside(o: Orders, t: Table, c: Cursor, step: int, p: nat, b: nat)
    requires o.Mirrored() && 1 <= t.columns && (step == 1 || step == -1) && RunIn(o, c, c.dir, b)
    requires At(o, c, Dir(step), p) && 0 <= Target(c, step, 1) < c.size && c.current != c.lastRec
    ensures var c' := SkipRaw(t, c, step);
            c' == c.(pos := Target(c, step, 1)) && RunIn(o, c', c'.dir, b) && At(o, c', Dir(step), p + 1)
  {
    CacheMoveExact(o, t, c, step, p, c.dir, b);
    assert RunIn(o, SkipRaw(t, c, step), c.dir, b);
  }

  lemma {:induction false} StepsInside(o: Orders, t: Table, c: Cursor, step: int, count: nat, p: nat, b: nat)
    requires o.Mirrored() && 1 <= t.columns && (step == 1 || step == -1) && RunIn(o, c, c.dir, b)
    requires At(o, c, Dir(step), p) && 0 <= Target(c, step, count) < c.size
    requires c.current != c.lastRec && !c.fBof && !c.fEof
    ensures var c' := SkipSteps(t, c, step, count);
            c' == c.(pos := Target(c, step, count)) && At(o, c', Dir(step), p + count)
    decreases count
  {
    if count == 0 {
      assert c.(pos := c.pos) == c;
    } else {
      hide RunIn, At, SkipRaw, Orders.Mirrored;
      StepInside(o, t, c, step, p, b);
      StepsInside(o, t, SkipRaw(t, c, step), step, count - 1, p + 1, b);
    }
  }

  /** A skip by any distance that the window, in its recorded direction, can serve: it lands that many
      records further, with both flags down. */
  lemma SkipManyInside(o: Orders, t: Table, c: Cursor, n: int, p: nat, b: nat)
    requires Linked(o, t) && Inv(o, t, c) && n != 0 && !c.firstInteract && !c.fEof && RunIn(o, c, c.dir, b)
    requires At(o, c, Dir(n), p) && 0 <= Target(c, n, if n > 0 then n else -n) < c.size
    ensures var c' := Skip(t, c, n);
            && At(o, c', Dir(n), p + if n > 0 then n else -n) && !c'.fBof && !c'.fEof
            && c'.list == c.list && c'.size == c.size && c'.dir == c.dir
  {
    hide Backed, SkipSteps;
    var step := if n > 0 then 1 else -1;
    StartedFacts(o, t, c, step, p);
    assert RunIn(o, Started(c), c.dir, b);
    StepsInside(o, t, Started(c), step, if n > 0 then n else -n, p, b);
  }

  // ----- the invariant over every movement

  lemma SingleIsRun(o: Orders, c: Cursor, p: nat)
    requires o.Mirrored() && c.size == 1 && At(o, c, Forward, p)
    ensures RunIn(o, c, Forward, p) && RunIn(o, c, Backward, |o.fwd| - 1 - p)
  {
    AtMirror(o, c, Forward, p);
  }

  lemma SameListRun(o: Orders, c: Cursor, c': Cursor)
    requires c.Shaped() && c'.Shaped() && c'.list == c.list && c'.size == c.size && HasRun(o, c)
    ensures HasRun(o, c')
  {
    var dir, b :| RunIn(o, c, dir, b);
    assert RunIn(o, c', dir, b);
  }

  /** GoTop and GoBottom end on a record of the order, in a window that is a run. */
  lemma GoEndKeeps(o: Orders, t: Table, c: Cursor, dir: Direction)
    requires Linked(o, t) && Core(o, t, c)
    ensures var c' := GoEnd(t, c, dir);
            Inv(o, t, c') && HasRun(o, c') && At(o, c', dir, 0) && !c'.fEof && !c'.fBof && !c'.firstInteract
  {
    hide Backed;
    GoEndIs(o, t, c, dir);
    var c' := GoEnd(t, c, dir);
    EndIsRun(o, c, c', dir);
  }

  lemma EndIsRun(o: Orders, c: Cursor, c': Cursor, dir: Direction)
    requires o.Mirrored() && c.Shaped() && c'.Shaped() && At(o, c', dir, 0) && KeptOrFresh(o, c, c', dir)
    requires c.size > 0 ==> HasRun(o, c) || Stray(o, c)
    ensures HasRun(o, c')
  {
    AtMirror(o, c', dir, 0);
    if c'.size == 1 {
      SingleIsRun(o, c', if dir.Forward? then 0 else |o.fwd| - 1);
    } else if c'.list == c.list && c'.size == c.size && c'.dir == c.dir {
      SameListRun(o, c, c');
    } else {
      assert RunIn(o, c', dir, 0);
    }
  }

  lemma GoToKeeps(o: Orders, t: Table, c: Cursor, recno: int)
    requires Linked(o, t) && Inv(o, t, c)
    ensures Inv(o, t, GoTo(t, c, recno))
  {
    hide Backed;
    var c' := GoTo(t, c, recno);
    if recno == 0 {
      if HasRun(o, c) { SameListRun(o, c, c'); }
    } else {
      GoToIs(o, t, c, recno);
      if recno in o.fwd {
        var p :| 0 <= p < |o.fwd| && o.fwd[p] == recno;
        if c'.size == 1 { SingleIsRun(o, c', p); } else { SameListRun(o, c, c'); }
      } else if c'.size > 1 && HasRun(o, c) {
        SameListRun(o, c, c');
      }
    }
  }

  lemma StartedIsCore(o: Orders, t: Table, c: Cursor)
    requires Core(o, t, c)
    ensures Core(o, t, Started(c))
  {
    if HasRun(o, c) { SameListRun(o, c, Started(c)); }
  }

  /** Forward from the phantom record: along the window if it has a next place, else EOF again. */
  lemma RawFromPhantom(o: Orders, t: Table, c: Cursor)
    requires Linked(o, t) && c.Shaped() && MarksSound(o, c) && c.current == t.lastRecno + 1
    ensures var raw := SkipRaw(t, c, 1);
            && MarksSound(o, raw) && raw.firstInteract == c.firstInteract
            && (if Inside(c, 1) then raw == c.(pos := raw.pos)
                else SameList(c, raw) && raw.fEof && raw.lastRec == t.lastRecno + 1
                     && ((raw.dir == c.dir && raw.bofAt == c.bofAt && raw.eofAt == c.eofAt)
                         || (raw.dir == Forward && c.eofAt != c.Here())))
  {
    hide Backed, SkipMiss;
    if TryCache(t, c, 1).None? {
      MissForeign(o, t, c, 1);
    }
  }

  lemma SkipFromPhantom(o: Orders, t: Table, c: Cursor)
    requires Linked(o, t) && Inv(o, t, c) && !c.firstInteract && c.fEof
    ensures Inv(o, t, Skip(t, c, 1)) && !Skip(t, c, 1).firstInteract
    ensures !Inside(c, 1) ==> Skip(t, c, 1).fEof && !Skip(t, c, 1).fBof && RunAfter(o, c, Skip(t, c, 1), 1, |o.fwd| - 1)
  {
    hide Backed;
    SkipIsRaw(t, c, 1);
    RawFromPhantom(o, t, Started(c));
    PhantomKeeps(o, t, c, SkipRaw(t, Started(c), 1));
  }

  lemma PhantomKeeps(o: Orders, t: Table, c: Cursor, raw: Cursor)
    requires o.Mirrored() && Inv(o, t, c) && !c.firstInteract && c.fEof && raw.Shaped() && MarksSound(o, raw)
             && !raw.firstInteract
    requires if Inside(c, 1) then raw == Started(c).(pos := raw.pos)
             else SameList(Started(c), raw) && raw.fEof && raw.lastRec == t.lastRecno + 1
    ensures Inv(o, t, Finished(raw, 1))
  {
    if HasRun(o, c) { SameListRun(o, c, Finished(raw, 1)); }
  }

  lemma BackFromPhantom(o: Orders, t: Table, c: Cursor)
    requires Linked(o, t) && Inv(o, t, c) && !c.firstInteract && c.fEof
    ensures Skip(t, c, -1) == GoBottom(t, Started(c))
    ensures Inv(o, t, Skip(t, c, -1))
  {
    hide Backed;
    SkipIsRaw(t, c, -1);
    StartedIsCore(o, t, c);
    GoEndKeeps(o, t, Started(c), Backward);
  }

  // ----- a record outside the order

  lemma SkipFromStray(o: Orders, t: Table, c: Cursor, step: int)
    requires Linked(o, t) && Inv(o, t, c) && !c.firstInteract && !c.fEof && Stray(o, c) && (step == 1 || step == -1)
    ensures Inv(o, t, Skip(t, c, step))
  {
    hide Backed, GivenUp;
    SkipIsRaw(t, c, step);
    StartedIsCore(o, t, c);
    var c0 := Started(c);
    if step < 0 && c0.current == c0.lastRec {
      GoEndKeeps(o, t, c0, Backward);
    } else {
      StrayIsMiss(o, t, c0, step);
      MissForeign(o, t, c0, step);
      GivenUpKeeps(o, t, c0, SkipMiss(t, c0, step), step);
    }
  }

  lemma StrayIsMiss(o: Orders, t: Table, c: Cursor, step: int)
    requires Linked(o, t) && MarksSound(o, c) && Stray(o, c) && (step == 1 || step == -1)
    ensures !Inside(c, step) && TryCache(t, c, step).None?
  {
    hide Backed;
    MirrorMembers(o);
    if TryCache(t, c, step).Some? {
      CacheEndExact(o, t, c, step);
    }
  }

  lemma GivenUpKeeps(o: Orders, t: Table, c: Cursor, raw: Cursor, step: int)
    requires o.Mirrored() && o.fwd != [] && Core(o, t, c) && c.size > 0 && raw.Shaped() && GivenUp(o, t, c, raw, step)
    ensures Inv(o, t, Finished(raw, step))
  {
    hide RunIn, Orders.Mirrored;
    if step > 0 {
      if HasRun(o, c) {
        SameListRun(o, c, Finished(raw, step));
      } else {
        assert Stray(o, Finished(raw, step));
      }
    } else {
      if HasRun(o, c) {
        SameListRun(o, c, c.(dir := raw.dir));
      }
      EndIsRun(o, c.(dir := raw.dir), raw, Forward);
      SameListRun(o, raw, Finished(raw, step));
    }
  }

  // ----- a record whose place among equal first columns is at the limit

  /** The one case in which a step spoils the marks: a fetch, from a record with a successor, whose
      limited result ends with that record. */
  ghost predicate TakenForEnd(o: Orders, t: Table, c: Cursor, step: int) {
    !c.fEof && !Inside(c, step)
    && exists p: nat :: p + 1 < |o.fwd| && At(o, c, Dir(step), p) && JustCrowdedAt(t, Dir(step), p)
  }

  lemma SkipFromCrowd(o: Orders, t: Table, c: Cursor, step: int, p: nat)
    requires Linked(o, t) && Inv(o, t, c) && (step == 1 || step == -1) && !c.firstInteract && !c.fEof
    requires At(o, c, Dir(step), p) && !Inside(c, step) && !UncrowdedAt(t, Dir(step), p) && TryCache(t, c, step).None?
    ensures LostAt(t, Dir(step), p) ==> Inv(o, t, Skip(t, c, step))
    ensures JustCrowdedAt(t, Dir(step), p) && p + 1 < |o.fwd| ==> !MarksSound(o, Skip(t, c, step))
  {
    hide Backed, UncrowdedAt, LostAt, JustCrowdedAt, SkipMiss, GivenUp;
    SkipIsMiss(o, t, c, step, p);
    StartedFacts(o, t, c, step, p);
    StartedIsCore(o, t, c);
    if LostAt(t, Dir(step), p) {
      LostMiss(o, t, Started(c), step, p);
      GivenUpKeeps(o, t, Started(c), SkipMiss(t, Started(c), step), step);
    }
    if JustCrowdedAt(t, Dir(step), p) && p + 1 < |o.fwd| {
      JustCrowdedMiss(o, t, Started(c), step, p);
    }
  }

  // ----- all movements

  lemma SkipFromRun(o: Orders, t: Table, c: Cursor, step: int, p: nat, dir: Direction, b: nat)
    requires Linked(o, t) && Inv(o, t, c) && (step == 1 || step == -1) && !c.firstInteract && !c.fEof
    requires RunIn(o, c, dir, b) && At(o, c, Dir(step), p)
    ensures if !Inside(c, step) && p + 1 < |o.fwd| && JustCrowdedAt(t, Dir(step), p)
            then !MarksSound(o, Skip(t, c, step))
            else Inv(o, t, Skip(t, c, step))
  {
    hide Backed, UncrowdedAt, Inv, Skip, JustCrowdedAt, LostAt;
    if Inside(c, step) {
      SkipInside(o, t, c, step, p, dir, b);
    } else if UncrowdedAt(t, Dir(step), p) {
      SkipOutside(o, t, c, step, p, dir, b);
      NotBoth(t, Dir(step), p);
    } else if p + 1 == |o.fwd| && TryCache(t, c, step).Some? {
      EndKeeps(o, t, c, step, p, dir, b);
    } else {
      if p + 1 < |o.fwd| {
        Sound(o, t, c);
        NoEndInside(o, t, c, step, p);
      }
      BackedFacts(o, t, Dir(step));
      CrowdedHow(t, Dir(step), p);
      SkipFromCrowd(o, t, c, step, p);
    }
  }

  lemma NotBoth(t: Table, dir: Direction, p: nat)
    requires UncrowdedAt(t, dir, p)
    ensures !JustCrowdedAt(t, dir, p)
  {
  }

  lemma Sound(o: Orders, t: Table, c: Cursor)
    requires Inv(o, t, c)
    ensures MarksSound(o, c)
  {
  }

  lemma EndKeeps(o: Orders, t: Table, c: Cursor, step: int, p: nat, dir: Direction, b: nat)
    requires Linked(o, t) && Inv(o, t, c) && (step == 1 || step == -1) && !c.firstInteract && !c.fEof
    requires RunIn(o, c, dir, b) && At(o, c, Dir(step), p) && !Inside(c, step) && TryCache(t, c, step).Some?
    ensures Inv(o, t, Skip(t, c, step))
  {
    hide Backed, Skip;
    SkipIsRaw(t, c, step);
    StartedFacts(o, t, c, step, p);
    OutcomeOfEnd(o, t, Started(c), step, p);
    OutcomeKeepsInv(o, t, c, SkipRaw(t, Started(c), step), step, p, dir, b);
  }

  /** A single skip keeps the invariant if and only if it is not the one bad case. */
  lemma SkipKeeps(o: Orders, t: Table, c: Cursor, step: int)
    requires Linked(o, t) && Inv(o, t, c) && (step == 1 || step == -1) && !c.firstInteract
    ensures Inv(o, t, Skip(t, c, step)) <==> !TakenForEnd(o, t, c, step)
  {
    hide Backed, JustCrowdedAt, Skip;
    if c.fEof {
      if step > 0 { SkipFromPhantom(o, t, c); } else { BackFromPhantom(o, t, c); }
    } else if HasRun(o, c) {
      var dir, b :| RunIn(o, c, dir, b);
      var p := RunIsAt(o, c, Dir(step));
      SkipFromRun(o, t, c, step, p, dir, b);
      forall q: nat | At(o, c, Dir(step), q) ensures q == p {
        AtOnce(o, c, Dir(step), p, q);
      }
    } else {
      SkipFromStray(o, t, c, step);
      StrayIsNowhere(o, c, Dir(step));
    }
  }

  lemma StrayIsNowhere(o: Orders, c: Cursor, dir: Direction)
    requires o.Mirrored() && Stray(o, c)
    ensures forall p :: !At(o, c, dir, p)
  {
    MirrorMembers(o);
  }

  /** The first skip of a work area starts from the top. */
  lemma FirstSkip(o: Orders, t: Table, c: Cursor, step: int)
    requires Linked(o, t) && Core(o, t, c) && c.firstInteract && (step == 1 || step == -1)
    ensures Skip(t, c, step) == Skip(t, GoTop(t, c), step) && !GoTop(t, c).firstInteract && Inv(o, t, GoTop(t, c))
  {
    GoEndKeeps(o, t, c, Forward);
  }

  lemma MoveKeeps(o: Orders, t: Table, c: Cursor, op: Op)
    requires Linked(o, t) && UncrowdedTable(t) && Inv(o, t, c)
    ensures Inv(o, t, Move(t, c, op))
  {
    hide Backed, Skip, GoTo, GoEnd, TakenForEnd, UncrowdedTable, Inv;
    match op
    case Top => CoreOf(o, t, c); GoEndKeeps(o, t, c, Forward);
    case Bottom => CoreOf(o, t, c); GoEndKeeps(o, t, c, Backward);
    case To(r) => GoToKeeps(o, t, c, r);
    case Step(s) =>
      var step := if s > 0 then 1 else -1;
      if c.firstInteract {
        CoreOf(o, t, c);
        FirstSkip(o, t, c, step);
        NeverTaken(o, t, GoTop(t, c), step);
        SkipKeeps(o, t, GoTop(t, c), step);
      } else {
        NeverTaken(o, t, c, step);
        SkipKeeps(o, t, c, step);
      }
  }

  lemma CoreOf(o: Orders, t: Table, c: Cursor)
    requires Inv(o, t, c)
    ensures Core(o, t, c)
  {
  }

  lemma NeverTaken(o: Orders, t: Table, c: Cursor, step: int)
    requires Linked(o, t) && UncrowdedTable(t)
    ensures !TakenForEnd(o, t, c, step)
  {
    BackedFacts(o, t, Dir(step));
    hide Backed, Linked, Table.Valid;
    forall p: nat | p + 1 < |o.fwd| ensures !JustCrowdedAt(t, Dir(step), p) {
      assert UncrowdedAt(t, Dir(step), p);
    }
  }

  lemma {:induction false} UncrowdedRunIsSound(t: Table, c: Cursor, ops: seq<Op>)
    requires t.Valid() && t.rows != [] && UncrowdedTable(t) && Opened(c)
    ensures Inv(OrdersOf(t), t, Run(t, c, ops))
  {
    LinkedOrders(t);
    if ops != [] {
      UncrowdedRunIsSound(t, c, ops[..|ops| - 1]);
      MoveKeeps(OrdersOf(t), t, Run(t, c, ops[..|ops| - 1]), ops[|ops| - 1]);
    }
  }

  /** GoTo a record with a new work area, then one step: the step is a miss. */
  lemma FromAnywhere(o: Orders, t: Table, c: Cursor, dir: Direction, p: nat) returns (c': Cursor, step: int)
    requires Linked(o, t) && Opened(c) && p < |o.fwd|
    ensures (step == 1 || step == -1) && dir == Dir(step)
    ensures c' == GoTo(t, c, o.Of(dir)[p])
    ensures Inv(o, t, c') && At(o, c', dir, p) && !c'.fEof && !c'.fBof && !c'.firstInteract && !Inside(c', step)
    ensures Run(t, c, [To(o.Of(dir)[p]), Step(step)]) == Skip(t, c', step)
  {
    hide Backed, Skip;
    step := if dir.Forward? then 1 else -1;
    var r := o.Of(dir)[p];
    c' := GoTo(t, c, r);
    assert r in o.Of(dir) && r in t.stored;
    GoToIs(o, t, c, r);
    OpenedIsInv(o, t, c);
    GoToKeeps(o, t, c, r);
    RunTwo(t, c, To(r), Step(step));
  }

  lemma OpenedIsInv(o: Orders, t: Table, c: Cursor)
    requires Opened(c)
    ensures Inv(o, t, c)
  {
  }

  lemma RunTwo(t: Table, c: Cursor, a: Op, b: Op)
    requires c.Shaped() && 1 <= t.columns
    ensures Run(t, c, [a, b]) == Move(t, Move(t, c, a), b)
  {
    hide Move;
    assert [a, b][..1] == [a] && [a][..0] == [];
    assert Run(t, c, [a]) == Move(t, Run(t, c, []), a);
  }

  /** On a crowded order some run of two calls spoils the marks. */
  lemma CrowdedRunIsUnsound(t: Table, c: Cursor) returns (ops: seq<Op>)
    requires t.Valid() && t.rows != [] && !UncrowdedTable(t) && Opened(c)
    ensures !Inv(OrdersOf(t), t, Run(t, c, ops))
  {
    LinkedOrders(t);
    var o := OrdersOf(t);
    var dir, q := SomewhereJustCrowded(t);
    BackedFacts(o, t, dir);
    hide Backed, Skip, GoTo, UncrowdedTable, OrdersOf, Run, JustCrowdedAt;
    JustCrowdedInside(t, dir, q);
    var c', step := FromAnywhere(o, t, c, dir, q);
    assert TakenForEnd(o, t, c', step);
    SkipKeeps(o, t, c', step);
    ops := [To(o.Of(dir)[q]), Step(step)];
  }

  lemma JustCrowdedInside(t: Table, dir: Direction, q: nat)
    requires JustCrowdedAt(t, dir, q)
    ensures q + 1 < |t.rows|
  {
  }

  /** The current record number is a number of the order exactly when the cursor is on a record of
      it - then the number at its place - and one past every stored record at EOF. */
  lemma CurrentNumber(o: Orders, t: Table, c: Cursor)
    requires Linked(o, t) && Inv(o, t, c) && !c.firstInteract
    ensures RecordNum(c) in o.fwd <==> !c.fEof && HasRun(o, c)
    ensures forall dir, p :: !c.fEof && At(o, c, dir, p) ==> RecordNum(c) == o.Of(dir)[p]
    ensures c.fEof ==> RecordNum(c) !in t.stored && forall r :: r in t.stored ==> r < RecordNum(c)
  {
    hide Backed;
    if HasRun(o, c) {
      var p := RunIsAt(o, c, Forward);
    } else if !c.fEof {
      assert Stray(o, c);
    }
  }

  /** Over every run of GoTop, GoBottom, GoTo any record number and Skip(+1/-1), on a non-empty
      order, each remembered end is forgotten or right, and the window is a contiguous run of the
      order (or the single record outside it that GoTo was asked for) - if and only if no record
      with a successor is crowded. */
  lemma RunsAreSound(t: Table, c: Cursor)
    requires t.Valid() && t.rows != [] && Opened(c)
    ensures (forall ops :: Inv(OrdersOf(t), t, Run(t, c, ops))) <==> UncrowdedTable(t)
  {
    hide Inv, Run;
    if UncrowdedTable(t) {
      forall ops ensures Inv(OrdersOf(t), t, Run(t, c, ops)) {
        UncrowdedRunIsSound(t, c, ops);
      }
    } else {
      var ops := CrowdedRunIsUnsound(t, c);
    }
  }
}
