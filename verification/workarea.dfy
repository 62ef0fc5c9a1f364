/** The work area of the SQLEX driver: the record-list cursor in the form the source gives it,
    fields updated in place by fetch, level and skip loops.  Every movement is proved equal to
    its function in module Cursor. */
module WorkArea {
  import opened Common
  import opened Keys
  import opened Query
  import opened Rdbms
  import opened Statement
  import opened Cursor
  import Spec = Cursor
  import CursorPages
  import CursorSteps
  import Window

  lemma ExecuteStored(t: Table, text: seq<Token>, dir: Direction, params: seq<int>)
    requires t.Valid()
    ensures forall i :: 0 <= i < |Execute(t, text, dir, params)| ==> Execute(t, text, dir, params)[i] in t.stored
  {
    CursorPages.OrderFacts(t, dir);
    match Parse(text)
    case Bad =>
    case Conjunction(atoms) =>
      CursorSteps.ResultSubset(t.Scan(dir), atoms, params, SetResultSetLimit(t.system, RECORD_LIST_SIZE));
      var result := Execute(t, text, dir, params);
      assert forall r :: r in t.Order(dir) ==> r in t.stored;
      forall i | 0 <= i < |result| ensures result[i] in t.stored {
        assert result[i] in Recnos(Limited(SetResultSetLimit(t.system, RECORD_LIST_SIZE),
                                           Select(t.Scan(dir), atoms, params)));
      }
  }

  lemma EndRowsStored(t: Table, dir: Direction)
    requires t.Valid()
    ensures forall i :: 0 <= i < |EndRows(t, dir)| ==> EndRows(t, dir)[i] in t.stored
  {
    CursorPages.OrderFacts(t, dir);
    assert forall i :: 0 <= i < |EndRows(t, dir)| ==> EndRows(t, dir)[i] == t.Order(dir)[i];
  }

  lemma IndexIs(s: seq<int>, x: int, f: nat)
    requires f <= |s| && (forall k :: 0 <= k < f ==> s[k] != x) && (f < |s| ==> s[f] == x)
    ensures Index(s, x) == f
  {
  }

  /** A backward step from the phantom record fails when the record GoBottom stops at cannot be read. */
  predicate StepFails(t: Table, c: Cursor, step: int)
    requires c.Shaped()
  {
    step < 0 && c.current == c.lastRec && Spec.GoBottom(t, c).size > 0 && Spec.GoBottom(t, c).Here() !in t.stored
  }

  /** `count` single steps, given up at the first that fails, and whether none did. */
  function StepsTaken(t: Table, c: Cursor, step: int, count: nat): (r: (Cursor, bool))
    requires c.Shaped() && 1 <= t.columns
    ensures r.0.Shaped()
    decreases count
  {
    if count == 0 then (c, true)
    else
      var c' := Spec.SkipRaw(t, c, step);
      if StepFails(t, c, step) then (c', false)
      else if c'.fBof || c'.fEof then (c', true)
      else StepsTaken(t, c', step, count - 1)
  }

  lemma {:induction false} StepsTakenAreSteps(t: Table, c: Cursor, step: int, count: nat)
    requires c.Shaped() && 1 <= t.columns
    ensures StepsTaken(t, c, step, count).1 ==> StepsTaken(t, c, step, count).0 == SkipSteps(t, c, step, count)
    decreases count
  {
    hide StepFails, Spec.SkipRaw;
    if count > 0 {
      StepsTakenAreSteps(t, Spec.SkipRaw(t, c, step), step, count - 1);
    }
  }

  /** What sqlExSkip leaves, and whether it succeeds. */
  function SkipTaken(t: Table, c: Cursor, n: int): (r: (Cursor, bool))
    requires c.Shaped() && 1 <= t.columns
    ensures r.0.Shaped()
  {
    var c := if c.firstInteract then Spec.GoTop(t, c) else c;
    if n == 0 then (c, true)
    else
      var taken := StepsTaken(t, c.(current := RecordNum(c), fBof := false, fEof := false),
                              if n > 0 then 1 else -1, if n > 0 then n else -n);
      if !taken.1 then taken
      else (if n > 0 then taken.0.(fBof := false) else taken.0.(fEof := false), true)
  }

  /** A skip that succeeds is the skip of the cursor functions; on a non-empty order with sound end
      marks a skip by one record always succeeds. */
  lemma SkipTakenIsSkip(t: Table, c: Cursor, n: int)
    requires c.Shaped() && 1 <= t.columns
    ensures SkipTaken(t, c, n).1 ==> SkipTaken(t, c, n).0 == Spec.Skip(t, c, n)
    ensures forall o :: CursorSteps.Linked(o, t) && Window.MarksSound(o, c) && (n == 1 || n == -1) ==>
              SkipTaken(t, c, n).1
  {
    hide GoEnd, SkipSteps, CursorSteps.Linked, StepFails;
    var c0 := if c.firstInteract then Spec.GoTop(t, c) else c;
    var c1 := c0.(current := RecordNum(c0), fBof := false, fEof := false);
    StepsTakenAreSteps(t, c1, if n > 0 then 1 else -1, if n > 0 then n else -n);
    forall o | CursorSteps.Linked(o, t) && Window.MarksSound(o, c) && (n == 1 || n == -1) ensures SkipTaken(t, c, n).1 {
      if c.firstInteract {
        TopKeepsMarks(o, t, c);
      }
      StepNeverFails(o, t, c1, n);
    }
  }

  lemma TopKeepsMarks(o: Window.Orders, t: Table, c: Cursor)
    requires CursorSteps.Linked(o, t) && c.Shaped() && Window.MarksSound(o, c)
    ensures Window.MarksSound(o, Spec.GoTop(t, c))
  {
    hide CursorSteps.Backed, GoEnd;
    CursorSteps.GoEndIs(o, t, c, Forward);
  }

  /** With sound end marks, on a non-empty order, no step fails. */
  lemma StepNeverFails(o: Window.Orders, t: Table, c: Cursor, step: int)
    requires CursorSteps.Linked(o, t) && c.Shaped() && Window.MarksSound(o, c)
    ensures !StepFails(t, c, step)
  {
    hide CursorSteps.Backed, GoEnd;
    CursorSteps.GoEndIs(o, t, c, Backward);
    assert o.bwd[0] in o.bwd;
  }

  class SqlExArea {
    const t: Table                   // the database, as this work area sees it
    const recordList: array<int>
    var recordListSize: nat
    var recordListPos: nat
    var recordListDirection: Direction
    var lBofAt: int
    var lEofAt: int
    var lCurrentRecord: int
    var lLastRec: int
    var fBof: bool
    var fEof: bool
    var firstInteract: bool
    var orderChanged: bool
    var indexLevel: int
    var skipFwd: seq<Slot>           // per level: IndexBindings[hOrdCurrent][level - 1].SkipFwdStmt
    var skipBwd: seq<Slot>

    /** The slots of a direction are all free or hold the statements of their levels. */
    ghost predicate SlotsOk(slots: seq<Slot>, dir: Direction) {
      && 1 <= t.columns == |slots|
      && (slots[0].Prepared? ==>
            forall l :: 0 <= l < t.columns ==> slots[l] == Prepared(Join(LevelAtoms(t, dir, l + 1))))
    }

    ghost predicate Valid()
      reads this, recordList
    {
      && t.Valid() && recordList.Length == RECORD_LIST_SIZE && recordListSize <= RECORD_LIST_SIZE
      && (if recordListSize == 0 then recordListPos == 0 else recordListPos < recordListSize)
      && 1 <= t.columns == |skipFwd| == |skipBwd|
      && SlotsOk(skipFwd, Forward) && SlotsOk(skipBwd, Backward)
      && !(skipFwd[0].Prepared? && skipBwd[0].Prepared?)
      && (recordListSize > 1 ==> forall i :: 0 <= i < recordListSize ==> recordList[i] in t.stored)
    }

    /** The fields, as a value. */
    function Abs(): (c: Cursor)
      requires Valid()
      reads this, recordList
      ensures c.Shaped()
    {
      var ready := if skipFwd[0].Prepared? then Some(Forward)
                   else if skipBwd[0].Prepared? then Some(Backward) else None;
      Cursor(recordList[..], recordListSize, recordListPos, recordListDirection, lBofAt, lEofAt,
             lCurrentRecord, lLastRec, fBof, fEof, firstInteract, orderChanged, ready)
    }

    constructor (table: Table)
      requires table.Valid()
      ensures Valid() && fresh(recordList) && t == table
      ensures Abs().size == 0 && lBofAt == 0 && lEofAt == 0 && lLastRec == 0 && !fBof && !fEof && firstInteract
              && Abs().ready.None?
    {
      t := table;
      recordList := new int[RECORD_LIST_SIZE];
      recordListSize, recordListPos, recordListDirection := 0, 0, Forward;
      lBofAt, lEofAt, lCurrentRecord, lLastRec := 0, 0, 0, 0;
      fBof, fEof, firstInteract, orderChanged, indexLevel := false, false, true, false, -1;
      skipFwd, skipBwd := seq(table.columns, _ => Free), seq(table.columns, _ => Free);
    }

    /** SR_GetCurrentRecordNum. */
    method GetCurrentRecordNum() returns (r: int)
      requires Valid()
      ensures r == RecordNum(Abs())
    {
      r := if fEof then lLastRec else recordList[recordListPos];
    }

    /** sqlGetCleanBuffer. */
    method GetCleanBuffer()
      requires Valid()
      modifies this`lLastRec, this`fEof
      ensures Valid() && Abs() == CleanBuffer(t, old(Abs()))
    {
      lLastRec := t.lastRecno + 1;
      fEof := true;
    }

    /** updateRecordBuffer, as far as the cursor sees it: whether the current record exists. */
    method UpdateRecordBuffer() returns (ok: bool)
      requires Valid() && recordListSize > 0
      ensures ok <==> recordList[recordListPos] in t.stored
    {
      ok := recordList[recordListPos] in t.stored;
    }

    /** The fetch loop of both record-list readers: rows `from`, `from` + 1, ... of the result go
        to the front of the list. */
    method FetchInto(result: seq<int>, from: nat, max: nat) returns (i: nat)
      requires recordList.Length == RECORD_LIST_SIZE && max <= RECORD_LIST_SIZE && from <= |result|
      modifies recordList
      ensures i == Min(max, |result| - from)
      ensures recordList[..] == result[from..from + i] + old(recordList[..])[i..]
    {
      i := 0;
      while i < max && from + i < |result|
        invariant 0 <= i <= max && from + i <= |result|
        invariant recordList[..i] == result[from..from + i] && recordList[i..] == old(recordList[..])[i..]
      {
        recordList[i] := result[from + i];
        i := i + 1;
      }
      assert recordList[..] == recordList[..i] + recordList[i..];
    }

    /** A page read from row `from` of a result becomes the list. */
    method TakePage(result: seq<int>, from: nat, max: nat) returns (i: nat)
      requires Valid() && 0 < max <= RECORD_LIST_SIZE && from <= |result|
               && forall k :: 0 <= k < |result| ==> result[k] in t.stored
      modifies this`recordListSize, this`recordListPos, recordList
      ensures Valid() && i == Min(max, |result| - from)
      ensures Abs() == if i > 0 then Load(old(Abs()), result[from..from + i]) else old(Abs())
    {
      hide Table.Valid, SlotsOk;
      i := FetchInto(result, from, max);
      if i > 0 {
        assert forall k :: 0 <= k < i ==> recordList[k] == result[from..from + i][k];
        recordListSize, recordListPos := i, 0;
      }
    }

    /** The end mark drawn from a result that ran out. */
    method MarkEnd(rec: int)
      requires Valid()
      modifies this`lEofAt, this`lBofAt
      ensures Valid() && Abs() == Mark(old(Abs()), true, rec)
    {
      hide Table.Valid, SlotsOk;
      if recordListDirection.Forward? { lEofAt := rec; } else { lBofAt := rec; }
    }

    /** getPreparedRecordList, once the statement has been executed. */
    method ReadRecordList(result: seq<int>, max: nat) returns (code: Code)
      requires Valid() && 0 < max <= RECORD_LIST_SIZE && forall i :: 0 <= i < |result| ==> result[i] in t.stored
      modifies this`recordListSize, this`recordListPos, this`lBofAt, this`lEofAt, recordList
      ensures Valid() && (Abs(), code) == GetPrepared(old(Abs()), result, max, indexLevel)
    {
      hide Table.Valid, SlotsOk, Index;
      var f := 0;
      while f < |result| && result[f] != lCurrentRecord
        invariant 0 <= f <= |result| && forall k :: 0 <= k < f ==> result[k] != lCurrentRecord
      {
        f := f + 1;
      }
      IndexIs(result, lCurrentRecord, f);
      if f == |result| {
        return Retry;
      }
      var i := TakePage(result, f + 1, max);
      assert result[f + 1..][..i] == result[f + 1..f + 1 + i];
      if i > 0 {
        assert recordList[i - 1] == Abs().Window()[i - 1];
        if i < max && indexLevel == 1 {
          MarkEnd(recordList[i - 1]);
        }
        code := Found;
      } else {
        if indexLevel == 1 && recordListSize > 0 {
          MarkEnd(recordList[recordListPos]);
        }
        code := Nothing;
      }
    }

    method GetPreparedRecordList(max: nat) returns (code: Code)
      requires Valid() && 0 < max <= RECORD_LIST_SIZE
      requires (if recordListDirection.Forward? then skipFwd else skipBwd)[0].Prepared?
      modifies this`recordListSize, this`recordListPos, this`lBofAt, this`lEofAt, recordList
      ensures Valid() && (Abs(), code) == GetPrepared(old(Abs()), LevelOne(t, old(Abs())), max, indexLevel)
    {
      hide Table.Valid, Execute, GetPrepared, FirstColumn;
      var text := if recordListDirection.Forward? then skipFwd[0].text else skipBwd[0].text;
      var params := [FirstColumn(t, Abs())];
      var result := Execute(t, text, recordListDirection, params);
      assert result == LevelOne(t, Abs());
      ExecuteStored(t, text, recordListDirection, params);
      code := ReadRecordList(result, max);
    }

    /** getRecordList, over the statement of a movement to an end of the order. */
    method GetRecordList(max: nat)
      requires Valid() && 0 < max <= RECORD_LIST_SIZE
      modifies this`recordListSize, this`recordListPos, this`lBofAt, this`lEofAt, recordList
      ensures Valid() && Abs() == Spec.GetRecordList(old(Abs()), EndRows(t, recordListDirection), max)
    {
      hide Table.Valid, EndRows, SlotsOk;
      var result := EndRows(t, recordListDirection);
      EndRowsStored(t, recordListDirection);
      var i := TakePage(result, 0, max);
      assert result[0..i] == result[..i];
      if 0 < i < max {
        assert recordList[i - 1] == Abs().Window()[i - 1];
        MarkEnd(recordList[i - 1]);
      }
    }

    method SetDirection(dir: Direction)
      requires Valid()
      modifies this`recordListDirection
      ensures Valid() && Abs() == old(Abs()).(dir := dir)
    {
      hide Table.Valid, SlotsOk;
      recordListDirection := dir;
    }

    /** The cursor stands on a record. */
    method SetFlags(bof: bool, eof: bool)
      requires Valid()
      modifies this`fBof, this`fEof
      ensures Valid() && Abs() == old(Abs()).(fBof := bof, fEof := eof)
    {
      hide Table.Valid, SlotsOk;
      fBof, fEof := bof, eof;
    }

    method SaveCurrent()
      requires Valid()
      modifies this`lCurrentRecord
      ensures Valid() && Abs() == old(Abs()).(current := RecordNum(old(Abs())))
    {
      hide Table.Valid, SlotsOk;
      lCurrentRecord := GetCurrentRecordNum();
    }

    method SetInteracted()
      requires Valid()
      modifies this`firstInteract
      ensures Valid() && Abs() == old(Abs()).(firstInteract := false)
    {
      hide Table.Valid, SlotsOk;
      firstInteract := false;
    }

    /** The end of sqlExGoTop and sqlExGoBottom: remember the record, and read it. */
    method Arrive(dir: Direction) returns (ok: bool)
      requires Valid()
      modifies this`lBofAt, this`lEofAt, this`lLastRec, this`fBof, this`fEof
      ensures Valid()
      ensures var c := old(Abs());
              Abs() == if c.size == 0 then CleanBuffer(t, c.(fEof := true, fBof := true))
                       else var c := c.(fEof := false, fBof := false);
                            if dir.Forward? then c.(bofAt := c.Here()) else c.(eofAt := c.Here())
      ensures ok <==> old(Abs()).size == 0 || old(Abs()).Here() in t.stored
    {
      hide Table.Valid, SlotsOk;
      ok := true;
      if recordListSize == 0 {
        fEof, fBof := true, true;
        GetCleanBuffer();
      } else {
        fEof, fBof := false, false;
        if dir.Forward? { lBofAt := recordList[recordListPos]; } else { lEofAt := recordList[recordListPos]; }
        ok := UpdateRecordBuffer();
      }
    }

    /** BOF raised on the current record, which is remembered as the first. */
    method StayAtBof()
      requires Valid()
      modifies this`lBofAt, this`fBof
      ensures Valid()
      ensures var c := old(Abs()).(fBof := true);
              Abs() == if c.size > 0 then c.(bofAt := c.Here()) else c
    {
      hide Table.Valid, SlotsOk;
      fBof := true;
      if recordListSize != 0 {
        lBofAt := recordList[recordListPos];
      }
    }

    /** A list of the one record asked for. */
    method ListOnly(recno: int) returns (ok: bool)
      requires Valid()
      modifies this`recordListSize, this`recordListPos, this`recordListDirection, recordList
      ensures Valid() && Abs() == Load(old(Abs()), [recno]).(dir := Forward)
      ensures ok <==> recno in t.stored
    {
      hide Table.Valid, SlotsOk;
      ghost var list := recordList[..];
      recordList[0] := recno;
      recordListSize, recordListDirection, recordListPos := 1, Forward, 0;
      assert recordList[..] == [recno] + list[1..];
      ok := UpdateRecordBuffer();
    }

    /** trySkippingOnCache. */
    method TrySkippingOnCache(toSkip: int) returns (served: bool)
      requires Valid() && (toSkip == 1 || toSkip == -1)
      modifies this`recordListPos, this`fBof, this`fEof, this`lLastRec
      ensures Valid()
      ensures var r := TryCache(t, old(Abs()), toSkip);
              (served <==> r.Some?) && Abs() == if r.Some? then r.value else old(Abs())
    {
      hide Table.Valid, Execute, Table.Order, EndRows, LevelOne, FirstColumn, SlotsOk;
      if recordListDirection.Forward? {
        var supposed := recordListPos + toSkip;
        if supposed >= 0 && supposed < recordListSize {
          recordListPos := supposed;
          served := UpdateRecordBuffer();
          return;
        } else {
          if supposed < 0 && recordList[0] == lBofAt {
            fBof := true;
            return true;
          }
          if supposed >= 0 && recordList[recordListPos] == lEofAt {
            GetCleanBuffer();
            return true;
          }
        }
      } else {
        var supposed := recordListPos - toSkip;
        if supposed >= 0 && supposed < recordListSize {
          recordListPos := supposed;
          served := UpdateRecordBuffer();
          return;
        } else {
          if supposed < 0 && recordList[0] == lEofAt {
            GetCleanBuffer();
            return true;
          }
          if supposed >= 0 && recordList[recordListPos] == lBofAt {
            fBof := true;
            return true;
          }
        }
      }
      return false;
    }

    /** Drop the statements of both directions and prepare one per level of the current one, from
        the deepest level down. */
    method PrepareLevels()
      requires 1 <= t.columns
      modifies this`skipFwd, this`skipBwd, this`indexLevel
      ensures |skipFwd| == |skipBwd| == t.columns && indexLevel == 0
      ensures forall l :: 0 <= l < t.columns ==>
                var text := Prepared(Join(LevelAtoms(t, recordListDirection, l + 1)));
                && skipFwd[l] == (if recordListDirection.Forward? then text else Free)
                && skipBwd[l] == (if recordListDirection.Forward? then Free else text)
    {
      hide LevelAtoms, Join;
      skipFwd, skipBwd := seq(t.columns, _ => Free), seq(t.columns, _ => Free);
      indexLevel := t.columns;
      for i := 1 to t.columns + 1
        invariant indexLevel == t.columns - (i - 1)
        invariant |skipFwd| == |skipBwd| == t.columns
        invariant forall l :: 0 <= l < t.columns ==>
                    var text := if l < indexLevel then Free
                                else Prepared(Join(LevelAtoms(t, recordListDirection, l + 1)));
                    && skipFwd[l] == (if recordListDirection.Forward? then text else Free)
                    && skipBwd[l] == (if recordListDirection.Forward? then Free else text)
      {
        var text := Join(LevelAtoms(t, recordListDirection, indexLevel));
        if recordListDirection.Forward? {
          skipFwd := skipFwd[indexLevel - 1 := Prepared(text)];
        } else {
          skipBwd := skipBwd[indexLevel - 1 := Prepared(text)];
        }
        indexLevel := indexLevel - 1;
      }
    }

    /** CreateSkipStmt: nothing to do while the statements of this direction are in place. */
    method CreateSkipStmt() returns (created: bool)
      requires Valid()
      modifies this`lBofAt, this`lEofAt, this`orderChanged, this`skipFwd, this`skipBwd, this`indexLevel
      ensures Valid() && Abs() == CreateSkip(old(Abs()))
      ensures created <==> old(Abs()).orderChanged || old(Abs()).ready != Some(old(Abs()).dir)
    {
      hide Table.Valid, LevelAtoms, Join;
      created := orderChanged || (if recordListDirection.Forward? then skipFwd[0].Free? else skipBwd[0].Free?);
      if created {
        lBofAt, lEofAt, orderChanged := 0, 0, false;
        PrepareLevels();
      }
    }

    /** The search of sqlExGoTo in the current list; it may move recordListPos in vain. */
    method SearchList(recno: int) returns (found: bool)
      requires Valid()
      modifies this`recordListPos
      ensures Valid() && Abs() == old(Abs()).(pos := Abs().pos)
      ensures found <==> Index(old(Abs()).Window(), recno) < old(Abs()).size && recno in t.stored
      ensures found ==> Abs().pos == Index(old(Abs()).Window(), recno)
    {
      hide Table.Valid, SlotsOk;
      ghost var window := Abs().Window();
      var i := 0;
      while i < recordListSize
        invariant 0 <= i <= recordListSize
        invariant if recordListSize == 0 then recordListPos == 0 else recordListPos < recordListSize
        invariant recno in t.stored ==> forall k :: 0 <= k < i ==> window[k] != recno
      {
        if recordList[i] == recno {
          recordListPos := i;
          var ok := UpdateRecordBuffer();
          if ok {
            IndexIs(window, recno, i);
            return true;
          }
        }
        i := i + 1;
      }
      if recno in t.stored {
        IndexIs(window, recno, i);
      }
      return false;
    }

    /** sqlExGoTo. */
    method GoTo(recno: int)
      requires Valid()
      modifies this, recordList
      ensures Valid() && Abs() == Spec.GoTo(t, old(Abs()), recno)
    {
      hide Valid, Abs;
      SetInteracted();
      if recno == 0 {
        GetCleanBuffer();
        SetFlags(true, true);
        return;
      }
      var found := SearchList(recno);
      if found {
        SetFlags(false, false);
        return;
      }
      var stored := ListOnly(recno);
      if stored {
        SetFlags(false, false);
        return;
      }
      GetCleanBuffer();
      SetFlags(true, true);
    }

    /** sqlExGoTop; it fails when the record it stops at cannot be read. */
    method GoTop() returns (ok: bool)
      requires Valid()
      modifies this, recordList
      ensures Valid() && Abs() == Spec.GoTop(t, old(Abs()))
      ensures ok <==> Abs().size == 0 || Abs().Here() in t.stored
    {
      hide Valid, Spec.GoTo, Spec.GetRecordList, EndRows;
      SetInteracted();
      if lBofAt != 0 {
        GoTo(lBofAt);
      } else {
        SetDirection(Forward);
        GetRecordList(END_PAGE);
      }
      ok := Arrive(Forward);
    }

    /** sqlExGoBottom. */
    method GoBottom() returns (ok: bool)
      requires Valid()
      modifies this, recordList
      ensures Valid() && Abs() == Spec.GoBottom(t, old(Abs()))
      ensures ok <==> Abs().size == 0 || Abs().Here() in t.stored
    {
      hide Valid, Spec.GoTo, Spec.GetRecordList, EndRows;
      SetInteracted();
      if lEofAt != 0 {
        GoTo(lEofAt);
      } else {
        SetDirection(Backward);
        GetRecordList(END_PAGE);
      }
      ok := Arrive(Backward);
    }

    method SetLevel(level: int)
      requires Valid()
      modifies this`indexLevel
      ensures Valid() && Abs() == old(Abs()) && indexLevel == level
    {
      hide Table.Valid, SlotsOk;
      indexLevel := level;
    }

    /** The level loop of sqlExSkipRaw: the statement executed is that of slot 0 at every level. */
    method FetchByLevels() returns (code: Code)
      requires Valid() && Abs().ready == Some(Abs().dir)
      modifies this`indexLevel, this`recordListSize, this`recordListPos, this`lBofAt, this`lEofAt, recordList
      ensures Valid() && (Abs(), code) == GetByLevels(old(Abs()), LevelOne(t, old(Abs())), t.columns)
    {
      assert 1 <= t.columns == |skipFwd| == |skipBwd| && recordListDirection == Abs().dir;
      assert (if recordListDirection.Forward? then skipFwd else skipBwd)[0].Prepared?;
      hide Valid, Abs, LevelOne, GetPrepared;
      ghost var c := Abs();
      ghost var result := LevelOne(t, c);
      SetLevel(t.columns);
      code := GetPreparedRecordList(RECORD_LIST_SIZE);
      LevelsAlike(c, result, t.columns, t.columns);
      SetLevel(indexLevel - 1);
      while code.Nothing? && indexLevel > 0
        invariant Valid() && 0 <= indexLevel < t.columns
        invariant if code.Nothing? && indexLevel > 0 then
                    Abs() == c && GetPrepared(c, result, RECORD_LIST_SIZE, t.columns).1.Nothing?
                  else (Abs(), code) == GetByLevels(c, result, t.columns)
      {
        code := GetPreparedRecordList(RECORD_LIST_SIZE);
        LevelsAlike(c, result, indexLevel, t.columns);
        SetLevel(indexLevel - 1);
      }
    }

    /** sqlExSkipRaw, from where neither the list nor a remembered end served the skip. */
    method SkipMiss(toSkip: int)
      requires Valid() && (toSkip == 1 || toSkip == -1)
      modifies this, recordList
      ensures Valid() && Abs() == Spec.SkipMiss(t, old(Abs()), toSkip)
    {
      hide Valid, Abs, LevelOne, GoEnd, GetByLevels;
      SetDirection(if toSkip > 0 then Forward else Backward);
      var created := CreateSkipStmt();
      var code := FetchByLevels();
      if code.Found? {
        return;
      }
      if code.Retry? {
        if toSkip > 0 {
          GetCleanBuffer();
        } else {
          var top := GoTop();
        }
      }
      if toSkip < 0 {
        StayAtBof();
      } else {
        GetCleanBuffer();
      }
    }

    /** sqlExSkipRaw. */
    method SkipRaw(toSkip: int) returns (ok: bool)
      requires Valid() && (toSkip == 1 || toSkip == -1)
      modifies this, recordList
      ensures Valid() && Abs() == Spec.SkipRaw(t, old(Abs()), toSkip)
      ensures ok == !StepFails(t, old(Abs()), toSkip)
    {
      hide Table.Valid, SlotsOk, GoEnd, TryCache, Spec.SkipMiss;
      ok := true;
      if toSkip < 0 && lCurrentRecord == lLastRec {
        ok := GoBottom();
        return;
      }
      var served := TrySkippingOnCache(toSkip);
      if !served {
        SkipMiss(toSkip);
      }
    }

    /** The loop of sqlExSkip. */
    method SkipLoop(step: int, count: nat) returns (ok: bool)
      requires Valid() && (step == 1 || step == -1)
      modifies this, recordList
      ensures Valid() && (Abs(), ok) == StepsTaken(t, old(Abs()), step, count)
    {
      hide Table.Valid, SlotsOk, Spec.SkipRaw, StepFails;
      ok := true;
      var left := count;
      ghost var goal := StepsTaken(t, Abs(), step, count);
      while left > 0
        invariant Valid() && ok && StepsTaken(t, Abs(), step, left) == goal
        decreases left
      {
        ok := SkipRaw(step);
        if !ok {
          return;
        }
        left := left - 1;
        if fBof || fEof {
          return;
        }
      }
    }

    /** The first movement of a work area starts from the top. */
    method StartFromTop()
      requires Valid()
      modifies this, recordList
      ensures Valid() && Abs() == if old(Abs()).firstInteract then Spec.GoTop(t, old(Abs())) else old(Abs())
    {
      hide Table.Valid, SlotsOk, GoEnd;
      if firstInteract {
        var top := GoTop();
        GoEndDone(t, old(Abs()), Forward);
        SetInteracted();
      }
    }

    /** sqlExSkip: the skip, unless one of its steps failed; then the state of that step. */
    method Skip(toSkip: int) returns (ok: bool)
      requires Valid()
      modifies this, recordList
      ensures Valid() && (Abs(), ok) == SkipTaken(t, old(Abs()), toSkip)
    {
      assert 1 <= t.columns;
      hide Valid, GoEnd, StepsTaken;
      ok := true;
      StartFromTop();
      if toSkip == 0 {
        return;
      }
      SaveCurrent();
      SetFlags(false, false);
      if toSkip > 0 {
        ok := SkipLoop(1, toSkip);
        if ok { SetFlags(false, fEof); }
      } else {
        ok := SkipLoop(-1, -toSkip);
        if ok { SetFlags(fBof, false); }
      }
    }
  }

  /** Above level 1 every level fetches alike, and an empty fetch changes nothing. */
  lemma LevelsAlike(c: Cursor, result: seq<int>, level: int, other: int)
    requires c.Shaped()
    ensures level != 1 && other != 1 ==>
              GetPrepared(c, result, RECORD_LIST_SIZE, level) == GetPrepared(c, result, RECORD_LIST_SIZE, other)
    ensures level != 1 && GetPrepared(c, result, RECORD_LIST_SIZE, level).1.Nothing? ==>
              GetPrepared(c, result, RECORD_LIST_SIZE, level).0 == c
  {
  }

  lemma GoEndDone(t: Table, c: Cursor, dir: Direction)
    requires c.Shaped()
    ensures !GoEnd(t, c, dir).firstInteract
  {
  }
}
