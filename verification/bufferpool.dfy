/** The row cache of the work area: which columns a page of records is read with, how the rows
    enter the pool, and what reading a field gives. */
module BufferPool {
  import opened Common

  /** A field of a buffer: not read yet, or the value read. */
  datatype Item = Nil | Val(value: int)

  datatype Col = Recno | Deleted | Field(index: nat)

  /** iColumnListStatus. */
  datatype Status = Learning | Stable | Changed | NewValueRead

  /** The fields below `n` that the SELECT list names: all of them while learning, then those read. */
  function Fields(mask: seq<bool>, all: bool, n: nat): seq<Col>
    requires n <= |mask|
  {
    if n == 0 then [] else Fields(mask, all, n - 1) + (if all || mask[n - 1] then [Field(n - 1)] else [])
  }

  /** Record number first, then the deleted mark if the table has one, then the fields. */
  function ColumnList(mask: seq<bool>, all: bool, deleted: bool): seq<Col> {
    Leading(deleted) + Fields(mask, all, |mask|)
  }

  function Leading(deleted: bool): seq<Col> {
    [Recno] + (if deleted then [Deleted] else [])
  }

  lemma {:induction false} FieldsPrefix(mask: seq<bool>, all: bool, m: nat, n: nat)
    requires m <= n <= |mask|
    ensures Fields(mask, all, m) <= Fields(mask, all, n)
  {
    if m < n {
      FieldsPrefix(mask, all, m, n - 1);
    }
  }

  /** Where the column counter of the reading loop stands when it reads a field, the list names
      that field. */
  lemma CounterAgrees(mask: seq<bool>, all: bool, deleted: bool, i: nat)
    requires i < |mask| && (all || mask[i])
    ensures var k := |Leading(deleted)| + |Fields(mask, all, i)|;
            k < |ColumnList(mask, all, deleted)| && ColumnList(mask, all, deleted)[k] == Field(i)
  {
    FieldsPrefix(mask, all, i + 1, |mask|);
    assert Fields(mask, all, i + 1)[|Fields(mask, all, i)|] == Field(i);
  }

  /** A buffer that holds nothing but NIL and the values of the row. */
  predicate Shows(buffer: seq<Item>, row: seq<int>) {
    |buffer| == |row| && forall i :: 0 <= i < |row| ==> buffer[i] == Nil || buffer[i] == Val(row[i])
  }

  /** The buffer that a fetch makes of a row. */
  function Masked(mask: seq<bool>, all: bool, row: seq<int>): (buffer: seq<Item>)
    requires |mask| == |row|
    ensures Shows(buffer, row) && |buffer| == |row|
  {
    seq(|row|, i requires 0 <= i < |row| => if all || mask[i] then Val(row[i]) else Nil)
  }

  predicate NoDuplicate(s: seq<int>) {
    forall i, j :: 0 <= i < j < |s| ==> s[i] != s[j]
  }

  function SetOf(s: seq<int>): (r: set<int>)
    ensures forall x :: x in r <==> x in s
    ensures |r| <= |s|
  {
    if s == [] then {} else SetOf(s[..|s| - 1]) + {s[|s| - 1]}
  }

  lemma {:induction false} DistinctSize(s: seq<int>)
    requires NoDuplicate(s)
    ensures |SetOf(s)| == |s|
  {
    if s != [] {
      DistinctSize(s[..|s| - 1]);
    }
  }

  lemma SubsetSize(a: set<int>, b: set<int>)
    requires a <= b
    ensures |a| <= |b|
  {
    assert b == a + (b - a);
  }

  function PageOf(list: seq<int>, pos: nat, size: nat): (page: seq<int>)
    ensures |page| == size
  {
    seq(size, i requires 0 <= i < size => if pos + i < |list| then list[pos + i] else 0)
  }

  /** The pool after the rows of `answer` entered it. */
  function Added(pool: map<int, seq<Item>>, answer: seq<int>, mask: seq<bool>, all: bool,
                 rows: map<int, seq<int>>): map<int, seq<Item>>
    requires forall i :: 0 <= i < |answer| ==> answer[i] in rows && |rows[answer[i]]| == |mask|
  {
    if answer == [] then pool
    else
      var r := answer[|answer| - 1];
      Added(pool, answer[..|answer| - 1], mask, all, rows)[r := Masked(mask, all, rows[r])]
  }

  lemma AddedNothing(pool: map<int, seq<Item>>, mask: seq<bool>, all: bool, rows: map<int, seq<int>>)
    ensures Added(pool, [], mask, all, rows) == pool
  {
  }

  lemma AddedStep(pool: map<int, seq<Item>>, answer: seq<int>, r: int, mask: seq<bool>, all: bool,
                  rows: map<int, seq<int>>)
    requires r in rows && |rows[r]| == |mask|
    requires forall i :: 0 <= i < |answer| ==> answer[i] in rows && |rows[answer[i]]| == |mask|
    ensures Added(pool, answer + [r], mask, all, rows)
            == Added(pool, answer, mask, all, rows)[r := Masked(mask, all, rows[r])]
  {
    assert (answer + [r])[..|answer|] == answer;
  }

  /** It holds the old rows and the new ones, every field NIL or the table's, and no more rows than
      both together. */
  lemma {:induction false} AddedFacts(pool: map<int, seq<Item>>, answer: seq<int>, mask: seq<bool>, all: bool,
                                      rows: map<int, seq<int>>)
    requires forall i :: 0 <= i < |answer| ==> answer[i] in rows && |rows[answer[i]]| == |mask|
    requires forall r :: r in pool ==> r in rows && Shows(pool[r], rows[r])
    ensures var after := Added(pool, answer, mask, all, rows);
            && |after| <= |pool| + |answer|
            && (forall r :: r in after <==> r in pool || r in answer)
            && (forall r :: r in after ==> r in rows && Shows(after[r], rows[r]))
  {
    hide Masked, Shows;
    if answer != [] {
      var front, r := answer[..|answer| - 1], answer[|answer| - 1];
      AddedFacts(pool, front, mask, all, rows);
      assert answer == front + [r];
      UpdateSize(Added(pool, front, mask, all, rows), r, Masked(mask, all, rows[r]));
    }
  }

  lemma UpdateSize(pool: map<int, seq<Item>>, r: int, buffer: seq<Item>)
    ensures |pool[r := buffer]| <= |pool| + 1
  {
    if r in pool {
      assert pool[r := buffer].Keys == pool.Keys;
    } else {
      assert pool[r := buffer].Keys == pool.Keys + {r};
    }
  }

  class BufferArea {
    const rows: map<int, seq<int>>         // the table: record number to field values
    const marks: map<int, int>             // the deleted mark of each record, 0 for an empty one
    const fieldCount: nat
    const hasDeleted: bool                 // ulhDeleted > 0
    const pageReadSize: nat
    const bufferPoolSize: nat

    var recordList: seq<int>               // its first recordListSize slots
    var recordListPos: nat
    var deletedList: seq<int>              // per slot, the mark last read
    var lRecordToRetrieve: seq<int>        // the values bound to the IN list
    var hBufferPool: map<int, seq<Item>>
    var aBuffer: seq<Item>
    var uiFieldList: seq<bool>
    var iColumnListStatus: Status
    var sFields: Option<seq<Col>>
    var hStmtBuffer: Option<seq<Col>>      // the column list it was prepared with

    ghost predicate Valid()
      reads this
    {
      && 1 <= fieldCount == |uiFieldList| == |aBuffer| && 1 <= pageReadSize && recordListPos < |recordList|
      && |deletedList| == |recordList| && marks.Keys == rows.Keys
      && 0 !in rows && (forall r :: r in rows ==> |rows[r]| == fieldCount)
      && (forall r :: r in hBufferPool ==> r in rows && Shows(hBufferPool[r], rows[r]))
      && |hBufferPool| <= bufferPoolSize + pageReadSize
      && ListsAgree()
    }

    /** Between two reads the prepared statement names the fields the reading loop will count. */
    ghost predicate ListsAgree()
      requires |uiFieldList| == fieldCount
      reads this
    {
      match iColumnListStatus
      case Learning =>
        && (sFields.Some? ==> sFields.value == ColumnList(uiFieldList, true, hasDeleted))
        && (hStmtBuffer.Some? ==> sFields.Some? && hStmtBuffer == sFields)
      case Stable => sFields == hStmtBuffer == Some(ColumnList(uiFieldList, false, hasDeleted))
      case _ => true in uiFieldList
    }

    function Current(): int
      requires recordListPos < |recordList|
      reads this
    {
      recordList[recordListPos]
    }

    /** The parameters of the IN list: the next records of the list, or 0. */
    function Page(): seq<int>
      reads this
    {
      PageOf(recordList, recordListPos, pageReadSize)
    }

    /** The records an IN-list query returns: those of the page that exist, once each, in any order. */
    ghost predicate IsAnswer(answer: seq<int>)
      reads this
    {
      && NoDuplicate(answer) && (forall i :: 0 <= i < |answer| ==> answer[i] in Page() && answer[i] in rows)
      && (forall i :: 0 <= i < pageReadSize && Page()[i] in rows ==> Page()[i] in answer)
    }

    /** The value the database has in a column of a record. */
    function Cell(col: Col, r: int): Item
      requires r in rows && r in marks && (col.Field? ==> col.index < |rows[r]|)
    {
      match col
      case Recno => Val(r)
      case Deleted => Val(marks[r])
      case Field(i) => Val(rows[r][i])
    }

    /** The list as the two branches of SR_getColumnList build it. */
    method BuildFields(all: bool) returns (cols: seq<Col>)
      requires |uiFieldList| == fieldCount
      requires all || true in uiFieldList
      requires fieldCount >= 1
      ensures cols == ColumnList(uiFieldList, all, hasDeleted)
    {
      cols := [];
      var uiFlds := 0;
      for n := 0 to fieldCount
        invariant uiFlds == |Fields(uiFieldList, all, n)|
        invariant cols == if uiFlds == 0 then [] else Leading(hasDeleted) + Fields(uiFieldList, all, n)
      {
        if all || uiFieldList[n] {
          if uiFlds == 0 {
            cols := (if hasDeleted then [Recno, Deleted] else [Recno]) + [Field(n)];
          } else {
            cols := cols + [Field(n)];
          }
          uiFlds := uiFlds + 1;
        }
      }
      SomeField(uiFieldList, all);
    }

    /** SR_getColumnList. */
    method GetColumnList() returns (changed: bool)
      requires Valid()
      modifies this`sFields, this`iColumnListStatus
      ensures changed == old((iColumnListStatus.Learning? && sFields.None?)
                             || iColumnListStatus.Changed? || iColumnListStatus.NewValueRead?)
      ensures iColumnListStatus == if old(iColumnListStatus).Learning? then Learning else Stable
      ensures sFields == Some(ColumnList(uiFieldList, iColumnListStatus.Learning?, hasDeleted))
    {
      changed := false;
      if iColumnListStatus.Learning? {
        if sFields.None? {
          var cols := BuildFields(true);
          sFields := Some(cols);
          return true;
        }
      } else if iColumnListStatus.Changed? || iColumnListStatus.NewValueRead? {
        var cols := BuildFields(false);
        sFields := Some(cols);
        iColumnListStatus := Stable;
        return true;
      }
    }

    /** The reading loop of one fetched row: a field takes the next column, or NIL. */
    method ReadRow(r: int) returns (aRecord: seq<Item>)
      requires |uiFieldList| == fieldCount && r in rows && r in marks && |rows[r]| == fieldCount
      requires hStmtBuffer == Some(ColumnList(uiFieldList, iColumnListStatus.Learning?, hasDeleted))
      ensures aRecord == Masked(uiFieldList, iColumnListStatus.Learning?, rows[r])
    {
      hide ColumnList;
      var all := iColumnListStatus.Learning?;
      var iIndex := if hasDeleted then 2 else 1;
      aRecord := [];
      for i := 0 to fieldCount
        invariant iIndex == |Leading(hasDeleted)| + |Fields(uiFieldList, all, i)|
        invariant aRecord == Masked(uiFieldList, all, rows[r])[..i]
      {
        if uiFieldList[i] == false && !iColumnListStatus.Learning? {
          aRecord := aRecord + [Nil];
        } else {
          CounterAgrees(uiFieldList, all, hasDeleted, i);
          iIndex := iIndex + 1;
          aRecord := aRecord + [Cell(hStmtBuffer.value[iIndex - 1], r)];
        }
      }
    }

    /** Every record of the answer fits the page. */
    lemma AnswerFits(answer: seq<int>)
      requires IsAnswer(answer)
      ensures |answer| <= pageReadSize
    {
      DistinctSize(answer);
      SubsetSize(SetOf(answer), SetOf(Page()));
    }

    /** What reading the current record does to its deleted mark: an empty mark counts as a blank. */
    function MarkRead(list: seq<int>, fetched: bool): seq<int>
      requires recordListPos < |recordList| == |list| && (fetched ==> Current() in marks)
      reads this
    {
      if fetched && hasDeleted then list[recordListPos := if marks[Current()] == 0 then 32 else marks[Current()]]
      else list
    }

    /** The second column of a fetched row, kept only for the current record. */
    method ReadMark(r: int)
      requires recordListPos < |recordList| == |deletedList| && r in marks && r in rows
      requires hStmtBuffer == Some(ColumnList(uiFieldList, iColumnListStatus.Learning?, hasDeleted))
      modifies this`deletedList
      ensures deletedList == MarkRead(old(deletedList), Current() == r)
    {
      if hasDeleted && Current() == r {
        var mark := Cell(hStmtBuffer.value[1], r).value;
        if mark == 0 {
          deletedList := deletedList[recordListPos := 32];
        } else {
          deletedList := deletedList[recordListPos := mark];
        }
      }
    }

    /** One row of the answer enters the pool, and the buffer too if it is the current record's. */
    method FetchRow(r: int)
      requires recordListPos < |recordList| == |deletedList| && |uiFieldList| == fieldCount
      requires r in marks && r in rows && |rows[r]| == fieldCount
      requires hStmtBuffer == Some(ColumnList(uiFieldList, iColumnListStatus.Learning?, hasDeleted))
      modifies this`hBufferPool, this`aBuffer, this`deletedList
      ensures deletedList == MarkRead(old(deletedList), Current() == r)
      ensures hBufferPool == old(hBufferPool)[r := Masked(uiFieldList, iColumnListStatus.Learning?, rows[r])]
      ensures aBuffer == if Current() == r then hBufferPool[r] else old(aBuffer)
    {
      ReadMark(r);
      var aRecord := ReadRow(r);
      hBufferPool := hBufferPool[r := aRecord];
      if Current() == r {
        aBuffer := aRecord;
      }
    }

    /** The fetch loop: each row enters the pool; the current record's goes to the buffer too. */
    method FetchRows(answer: seq<int>)
      requires Valid() && |hBufferPool| <= bufferPoolSize && IsAnswer(answer)
      requires forall i :: 0 <= i < |answer| ==> answer[i] in rows && |rows[answer[i]]| == fieldCount
      requires hStmtBuffer == Some(ColumnList(uiFieldList, iColumnListStatus.Learning?, hasDeleted))
      modifies this`hBufferPool, this`aBuffer, this`deletedList
      ensures Valid()
      ensures deletedList == MarkRead(old(deletedList), Current() in answer)
      ensures hBufferPool == Added(old(hBufferPool), answer, uiFieldList, iColumnListStatus.Learning?, rows)
      ensures aBuffer == if Current() in answer
                         then Masked(uiFieldList, iColumnListStatus.Learning?, rows[Current()]) else old(aBuffer)
    {
      hide ColumnList, Masked, Added, Shows, PageOf, NoDuplicate;
      AnswerFits(answer);
      ghost var pool, all := hBufferPool, iColumnListStatus.Learning?;
      AddedNothing(pool, uiFieldList, all, rows);
      var iRow := 0;
      while iRow < pageReadSize && iRow < |answer|
        invariant 0 <= iRow <= |answer|
        invariant hBufferPool == Added(pool, answer[..iRow], uiFieldList, all, rows)
        invariant deletedList == MarkRead(old(deletedList), Current() in answer[..iRow])
        invariant aBuffer == if Current() in answer[..iRow]
                             then Masked(uiFieldList, iColumnListStatus.Learning?, rows[Current()]) else old(aBuffer)
      {
        FetchRow(answer[iRow]);
        AddedStep(pool, answer[..iRow], answer[iRow], uiFieldList, all, rows);
        assert answer[..iRow + 1] == answer[..iRow] + [answer[iRow]];
        iRow := iRow + 1;
      }
      assert answer[..|answer|] == answer;
      AddedFacts(old(hBufferPool), answer, uiFieldList, iColumnListStatus.Learning?, rows);
    }

    lemma AnswerRows(answer: seq<int>)
      requires Valid() && IsAnswer(answer)
      ensures forall i :: 0 <= i < |answer| ==> answer[i] in rows && |rows[answer[i]]| == fieldCount
      ensures Current() in answer <==> Current() in rows
    {
      assert Current() == Page()[0];
    }

    /** The bound values: the next records of the list, and zeros behind its end. */
    method BindPage()
      modifies this`lRecordToRetrieve
      ensures lRecordToRetrieve == Page()
    {
      lRecordToRetrieve := [];
      for i := 0 to pageReadSize
        invariant lRecordToRetrieve == Page()[..i]
      {
        if recordListPos + i < |recordList| {
          lRecordToRetrieve := lRecordToRetrieve + [recordList[recordListPos + i]];
        } else {
          lRecordToRetrieve := lRecordToRetrieve + [0];
        }
      }
    }

    /** Statement and column list brought up to date, a full pool dropped. */
    method PrepareFetch()
      requires Valid()
      modifies this`hBufferPool, this`sFields, this`iColumnListStatus, this`hStmtBuffer
      ensures Valid() && |hBufferPool| <= bufferPoolSize
      ensures hBufferPool == if |old(hBufferPool)| > bufferPoolSize then map[] else old(hBufferPool)
      ensures hStmtBuffer == Some(ColumnList(uiFieldList, iColumnListStatus.Learning?, hasDeleted))
    {
      hide ColumnList, Shows;
      if |hBufferPool| > bufferPoolSize {
        hBufferPool := map[];
      }
      var changed := GetColumnList();
      if changed || hStmtBuffer.None? {
        hStmtBuffer := sFields;
      }
    }

    /** updateRecordBuffer, with the answer of the database to the page query.  It succeeds when any
        record of the page exists; the buffer then shows the current record if that one does, and
        is left as it was if it does not. */
    method UpdateRecordBuffer(updateDeleted: bool, answer: seq<int>) returns (ok: bool)
      requires Valid() && IsAnswer(answer)
      modifies this`hBufferPool, this`aBuffer, this`deletedList, this`lRecordToRetrieve, this`sFields,
               this`iColumnListStatus, this`hStmtBuffer
      ensures Valid()
      ensures ok <==> answer != [] || (!updateDeleted && Current() in old(hBufferPool))
      ensures Current() in rows ==> ok && Shows(aBuffer, rows[Current()])
      ensures Current() !in rows ==> aBuffer == old(aBuffer)
      ensures forall i :: 0 <= i < |answer| ==> answer[i] in rows && |rows[answer[i]]| == fieldCount
      ensures var hit := !updateDeleted && Current() in old(hBufferPool);
              && (if !hit && Current() in rows && hasDeleted
                  then deletedList
                       == old(deletedList)[recordListPos := if marks[Current()] == 0 then 32 else marks[Current()]]
                  else deletedList == old(deletedList))
              && (!hit && Current() in rows
                  ==> aBuffer == Masked(uiFieldList, iColumnListStatus.Learning?, rows[Current()]))
              && hBufferPool == if hit then old(hBufferPool)
                                else Added(if |old(hBufferPool)| > bufferPoolSize then map[] else old(hBufferPool),
                                           answer, uiFieldList, iColumnListStatus.Learning?, rows)
    {
      hide ColumnList, Added, Masked, PageOf, NoDuplicate;
      AnswerRows(answer);
      if !updateDeleted && Current() in hBufferPool {
        aBuffer := hBufferPool[Current()];
        return true;
      }
      PrepareFetch();
      BindPage();
      assert Page() == old(Page());
      ghost var base := hBufferPool;
      FetchRows(answer);
      AddedFacts(base, answer, uiFieldList, iColumnListStatus.Learning?, rows);
      ok := answer != [];
    }

    /** For a record that is not in the pool, success is existence if and only if the record exists
        or no record of the page does. */
    lemma SuccessIsExistence(answer: seq<int>)
      requires Valid() && IsAnswer(answer)
      ensures (answer != [] <==> Current() in rows)
              <==> Current() in rows || forall k :: 0 <= k < pageReadSize ==> Page()[k] !in rows
      ensures (recordListPos + 1 == |recordList|
               || forall k :: recordListPos <= k < |recordList| ==> recordList[k] in rows)
              ==> (answer != [] <==> Current() in rows)
    {
      AnswerRows(answer);
      if answer != [] {
        assert answer[0] in Page();
      }
    }

    /** getMissingColumn: one field of the current record, straight from the table. */
    method GetMissingColumn(fieldNum: nat)
      requires Valid() && fieldNum < fieldCount && Current() in rows && Shows(aBuffer, rows[Current()])
      modifies this`aBuffer
      ensures Valid() && aBuffer == old(aBuffer)[fieldNum := Val(rows[Current()][fieldNum])]
              && Shows(aBuffer, rows[Current()])
    {
      aBuffer := aBuffer[fieldNum := Val(rows[Current()][fieldNum])];
    }

    /** sqlExGetValue: whatever was pooled, and whatever list it was read with, the field's value. */
    method GetValue(fieldNum: nat) returns (value: int)
      requires Valid() && fieldNum < fieldCount && Current() in rows && Shows(aBuffer, rows[Current()])
      modifies this`aBuffer, this`uiFieldList, this`iColumnListStatus
      ensures Valid() && value == rows[Current()][fieldNum] && Shows(aBuffer, rows[Current()])
      ensures uiFieldList == old(uiFieldList)[fieldNum := true]
      ensures iColumnListStatus == if old(uiFieldList)[fieldNum] then old(iColumnListStatus) else NewValueRead
    {
      if aBuffer[fieldNum].Nil? {
        GetMissingColumn(fieldNum);
      }
      value := aBuffer[fieldNum].value;
      if !uiFieldList[fieldNum] {
        uiFieldList := uiFieldList[fieldNum := true];
        iColumnListStatus := NewValueRead;
        assert uiFieldList[fieldNum];
      }
    }
  }

  lemma {:induction false} SomeField(mask: seq<bool>, all: bool)
    requires mask != [] && (all || true in mask)
    ensures Fields(mask, all, |mask|) != []
  {
    if !all {
      var i :| 0 <= i < |mask| && mask[i];
      FieldsPrefix(mask, all, i + 1, |mask|);
    }
  }
}
