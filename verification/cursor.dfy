/** The record-list cursor as a function of its state: what each movement of the work area
    leaves in the fetched window, the end marks and the flags.  The class in workarea.dfy
    computes exactly these functions; cursorpages.dfy to refinement.dfy relate them to a position in the
    ordered table. */
module Cursor {
  import opened Common
  import opened Keys
  import opened Query
  import opened Rdbms
  import opened Statement

  const RECORD_LIST_SIZE: nat := 250
  const END_PAGE: nat := RECORD_LIST_SIZE / 10

  function Recno(key: Key): int {
    if key == [] then 0 else key[|key| - 1]
  }

  /** The table as one work area sees it during a run: the rows of the current order that pass
      the filters, ascending by key with the record number as last column (in natural order it
      is the only column), and the record numbers stored, filtered out or not. */
  datatype Table = Table(columns: nat, rows: seq<Key>, reverse: bool, stored: set<int>, lastRecno: nat,
                         system: Database, blank: int)
  {
    ghost predicate Valid() {
      && 1 <= columns && Sorted(true, rows, columns)
      && (forall i :: 0 <= i < |rows| ==> Recno(rows[i]) in stored)
      && (forall i, j :: 0 <= i < j < |rows| ==> Recno(rows[i]) != Recno(rows[j]))
      && (forall r :: r in stored ==> 0 < r <= lastRecno)
    }

    predicate Ascending(dir: Direction) {
      dir.Forward? != reverse
    }

    /** ORDER BY of a movement in direction `dir`. */
    function Scan(dir: Direction): (keys: seq<Key>)
      ensures |keys| == |rows|
    {
      if Ascending(dir) then rows else Reverse(rows)
    }

    /** The record numbers in the order a movement in direction `dir` meets them. */
    function Order(dir: Direction): (recnos: seq<int>)
      ensures |recnos| == |rows|
    {
      Recnos(Scan(dir))
    }
  }

  function Recnos(keys: seq<Key>): (r: seq<int>)
    ensures |r| == |keys|
    ensures forall i :: 0 <= i < |keys| ==> r[i] == Recno(keys[i])
  {
    seq(|keys|, i requires 0 <= i < |keys| => Recno(keys[i]))
  }

  /** The rows that satisfy a clause, in order. */
  function Select(keys: seq<Key>, atoms: seq<Atom>, params: seq<int>): seq<Key> {
    if keys == [] then []
    else (if Eval(atoms, Key2Row(keys[0], {}), params) then [keys[0]] else []) + Select(keys[1..], atoms, params)
  }

  /** The conditions of the statement in slot `level - 1` of a direction. */
  function LevelAtoms(t: Table, dir: Direction, level: nat): seq<Atom>
    requires level <= t.columns
  {
    var cols := seq(t.columns, _ => Column(Double, false, false));
    var nulls := seq(t.columns, _ => false);
    ColumnAtoms(cols, nulls, level, t.Ascending(dir), t.Ascending(dir), level) + RestrictionAtoms([])
  }

  /** Execution of a prepared record-list statement with its parameters bound. */
  function Execute(t: Table, text: seq<Token>, dir: Direction, params: seq<int>): seq<int> {
    match Parse(text)
    case Bad => []
    case Conjunction(atoms) =>
      Recnos(Limited(SetResultSetLimit(t.system, RECORD_LIST_SIZE), Select(t.Scan(dir), atoms, params)))
  }

  /** Execution of the filter-only statement of the movements to either end. */
  function EndRows(t: Table, dir: Direction): seq<int> {
    Limited(SetResultSetLimit(t.system, END_PAGE), t.Order(dir))
  }

  function Index(s: seq<int>, x: int): (i: nat)
    ensures i <= |s|
    ensures i < |s| ==> s[i] == x
    ensures forall k :: 0 <= k < i ==> s[k] != x
  {
    if s == [] || s[0] == x then 0 else 1 + Index(s[1..], x)
  }

  datatype Code = Found | Nothing | Retry   // RESULTSET_OK, HB_SUCCESS, SR_HB_RETRY

  /** The fields of the work area that the movements read and write. */
  datatype Cursor = Cursor(
    list: seq<int>,          // recordList, all RECORD_LIST_SIZE slots
    size: nat,               // recordListSize
    pos: nat,                // recordListPos
    dir: Direction,          // recordListDirection
    bofAt: int,              // lBofAt
    eofAt: int,              // lEofAt
    current: int,            // lCurrentRecord
    lastRec: int,            // lLastRec
    fBof: bool,
    fEof: bool,
    firstInteract: bool,
    orderChanged: bool,
    ready: Option<Direction> // the direction whose skip statements are prepared
  )
  {
    predicate Shaped() {
      |list| == RECORD_LIST_SIZE && size <= RECORD_LIST_SIZE && (if size == 0 then pos == 0 else pos < size)
    }

    function Here(): int
      requires Shaped()
    {
      list[pos]
    }

    function Window(): seq<int>
      requires Shaped()
    {
      list[..size]
    }
  }

  function Dir(step: int): Direction {
    if step > 0 then Forward else Backward
  }

  function RecordNum(c: Cursor): int
    requires c.Shaped()
  {
    if c.fEof then c.lastRec else c.Here()
  }

  /** sqlGetCleanBuffer: move to the phantom record. */
  function CleanBuffer(t: Table, c: Cursor): Cursor {
    c.(lastRec := t.lastRecno + 1, fEof := true)
  }

  /** Remember `rec` as the end of the table in the list's direction. */
  function Mark(c: Cursor, really: bool, rec: int): Cursor {
    if !really then c
    else if c.dir.Forward? then c.(eofAt := rec)
    else c.(bofAt := rec)
  }

  function Load(c: Cursor, page: seq<int>): (c': Cursor)
    requires c.Shaped() && 0 < |page| <= RECORD_LIST_SIZE
    ensures c'.Shaped() && c'.Window() == page
  {
    c.(list := page + c.list[|page|..], size := |page|, pos := 0)
  }

  function Min(a: nat, b: nat): nat {
    if a < b then a else b
  }

  /** getPreparedRecordList: read past the current record, then load up to `max` records. */
  function GetPrepared(c: Cursor, result: seq<int>, max: nat, level: int): (r: (Cursor, Code))
    requires c.Shaped() && 0 < max <= RECORD_LIST_SIZE
    ensures r.0.Shaped()
  {
    var j := Index(result, c.current);
    if j == |result| then (c, Retry)
    else
      var rest := result[j + 1..];
      var n := Min(max, |rest|);
      if n > 0 then (Mark(Load(c, rest[..n]), n < max && level == 1, rest[n - 1]), Found)
      else (Mark(c, level == 1 && c.size > 0, c.Here()), Nothing)
  }

  /** getRecordList: load the first records of a result. */
  function GetRecordList(c: Cursor, result: seq<int>, max: nat): (c': Cursor)
    requires c.Shaped() && 0 < max <= RECORD_LIST_SIZE
    ensures c'.Shaped()
  {
    var n := Min(max, |result|);
    if n > 0 then Mark(Load(c, result[..n]), n < max, result[n - 1]) else c
  }

  function GoTo(t: Table, c: Cursor, recno: int): (c': Cursor)
    requires c.Shaped()
    ensures c'.Shaped()
  {
    var c := c.(firstInteract := false);
    if recno == 0 then CleanBuffer(t, c).(fBof := true)
    else
      var i := Index(c.Window(), recno);
      if i < c.size && recno in t.stored then c.(pos := i, fEof := false, fBof := false)
      else
        var c := Load(c, [recno]).(dir := Forward);
        if recno in t.stored then c.(fEof := false, fBof := false) else CleanBuffer(t, c).(fBof := true)
  }

  /** The remembered record at the start of the order in direction `dir`. */
  function StartMark(c: Cursor, dir: Direction): int {
    if dir.Forward? then c.bofAt else c.eofAt
  }

  function GoEnd(t: Table, c: Cursor, dir: Direction): (c': Cursor)
    requires c.Shaped()
    ensures c'.Shaped()
  {
    var c := c.(firstInteract := false);
    var c := if StartMark(c, dir) != 0 then GoTo(t, c, StartMark(c, dir))
             else GetRecordList(c.(dir := dir), EndRows(t, dir), END_PAGE);
    if c.size == 0 then CleanBuffer(t, c.(fEof := true, fBof := true))
    else
      var c := c.(fEof := false, fBof := false);
      if dir.Forward? then c.(bofAt := c.Here()) else c.(eofAt := c.Here())
  }

  function GoTop(t: Table, c: Cursor): (c': Cursor)
    requires c.Shaped()
    ensures c'.Shaped()
  {
    GoEnd(t, c, Forward)
  }

  function GoBottom(t: Table, c: Cursor): (c': Cursor)
    requires c.Shaped()
    ensures c'.Shaped()
  {
    GoEnd(t, c, Backward)
  }

  /** trySkippingOnCache: a move inside the window, or a remembered end. */
  function TryCache(t: Table, c: Cursor, skip: int): (r: Option<Cursor>)
    requires c.Shaped()
    ensures r.Some? ==> r.value.Shaped()
  {
    var supposed := if c.dir.Forward? then c.pos + skip else c.pos - skip;
    if 0 <= supposed < c.size then Some(c.(pos := supposed))
    else if c.dir.Forward? then
      if supposed < 0 && c.list[0] == c.bofAt then Some(c.(fBof := true))
      else if supposed >= 0 && c.Here() == c.eofAt then Some(CleanBuffer(t, c))
      else None
    else
      if supposed < 0 && c.list[0] == c.eofAt then Some(CleanBuffer(t, c))
      else if supposed >= 0 && c.Here() == c.bofAt then Some(c.(fBof := true))
      else None
  }

  /** CreateSkipStmt: building statements forgets both ends, and the other direction. */
  function CreateSkip(c: Cursor): Cursor {
    if c.orderChanged || c.ready != Some(c.dir) then
      c.(bofAt := 0, eofAt := 0, orderChanged := false, ready := Some(c.dir))
    else c
  }

  /** The value bound to the level-1 statement: the first key column of the current record. */
  function FirstColumn(t: Table, c: Cursor): int
    requires c.Shaped()
  {
    var i := Index(t.Order(Forward), c.Here());
    if t.columns == 1 then c.Here()
    else if c.current == t.lastRecno + 1 || i == |t.rows| || t.Scan(Forward)[i] == [] then t.blank
    else t.Scan(Forward)[i][0]
  }

  /** The result the fetch reads, whatever the level: always that of the level-1 statement. */
  function LevelOne(t: Table, c: Cursor): seq<int>
    requires c.Shaped() && 1 <= t.columns
  {
    Execute(t, Join(LevelAtoms(t, c.dir, 1)), c.dir, [FirstColumn(t, c)])
  }

  /** The level loop of sqlExSkipRaw; an empty fetch changes nothing before level 1. */
  function GetByLevels(c: Cursor, result: seq<int>, columns: nat): (r: (Cursor, Code))
    requires c.Shaped()
    ensures r.0.Shaped()
  {
    var first := GetPrepared(c, result, RECORD_LIST_SIZE, columns);
    if first.1.Nothing? then GetPrepared(c, result, RECORD_LIST_SIZE, 1) else first
  }

  /** sqlExSkipRaw after the window and the remembered ends were of no use: fetch a page. */
  function SkipMiss(t: Table, c: Cursor, step: int): (c': Cursor)
    requires c.Shaped() && 1 <= t.columns
    ensures c'.Shaped()
  {
    var c := CreateSkip(c.(dir := Dir(step)));
    var (c, code) := GetByLevels(c, LevelOne(t, c), t.columns);
    if code.Found? then c
    else if step > 0 then CleanBuffer(t, c)
    else
      var c := (if code.Retry? then GoTop(t, c) else c).(fBof := true);
      if c.size > 0 then c.(bofAt := c.Here()) else c
  }

  function SkipRaw(t: Table, c: Cursor, step: int): (c': Cursor)
    requires c.Shaped() && 1 <= t.columns
    ensures c'.Shaped()
  {
    if step < 0 && c.current == c.lastRec then GoBottom(t, c)
    else
      var cached := TryCache(t, c, step);
      if cached.Some? then cached.value else SkipMiss(t, c, step)
  }

  /** The loop of sqlExSkip: `count` single steps, stopping at either end. */
  function SkipSteps(t: Table, c: Cursor, step: int, count: nat): (c': Cursor)
    requires c.Shaped() && 1 <= t.columns
    ensures c'.Shaped()
    decreases count
  {
    if count == 0 then c
    else
      var c := SkipRaw(t, c, step);
      if c.fBof || c.fEof then c else SkipSteps(t, c, step, count - 1)
  }

  function Skip(t: Table, c: Cursor, n: int): (c': Cursor)
    requires c.Shaped() && 1 <= t.columns
    ensures c'.Shaped()
  {
    var c := if c.firstInteract then GoTop(t, c) else c;
    if n == 0 then c
    else
      var c := c.(current := RecordNum(c), fBof := false, fEof := false);
      if n > 0 then SkipSteps(t, c, 1, n).(fBof := false)
      else SkipSteps(t, c, -1, -n).(fEof := false)
  }
}
