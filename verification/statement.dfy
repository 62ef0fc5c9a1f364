/** Building and binding the prepared statements of a work area: the skip statements of every
    index level, and the seek statement. */
module Statement {
  import opened Query
  import opened Rdbms

  datatype Direction = Forward | Backward
  datatype ListType = FromTop | FromBottom | SkipFwd | SkipBwd
  datatype Slot = Free | Prepared(text: seq<Token>)

  /** The '?' numbers (from 1) that were bound, each with the column bound to it. */
  type Binding = map<nat, nat>

  /** Every '?' of the text is bound to the column that produced it, and nothing else is bound. */
  ghost predicate Aligned(text: seq<Token>, bound: Binding) {
    match Parse(text)
    case Bad => false
    case Conjunction(atoms) =>
      var marks := Placeholders(atoms);
      && (forall k :: k in bound <==> 1 <= k <= |marks|)
      && (forall k :: k in bound ==> bound[k] == marks[k - 1])
  }

  /** What a binding loop over columns 1..upTo leaves: the k-th non-NULL column at '?' number k,
      except that a column of a type the switch does not list leaves its number unbound. */
  ghost predicate BoundInOrder(cols: seq<Column>, nulls: seq<bool>, upTo: nat, skip: bool, bound: Binding)
    requires upTo <= |cols| == |nulls|
  {
    BoundTo(NonNull(nulls, upTo), cols, skip, bound)
  }

  /** '?' number k is bound to the k-th column of `order`, if that column's type is listed. */
  ghost predicate BoundTo(order: seq<nat>, cols: seq<Column>, skip: bool, bound: Binding) {
    && (forall k :: k in bound <==>
          1 <= k <= |order| && 1 <= order[k - 1] <= |cols| && Bindable(skip, cols[order[k - 1] - 1].ctype))
    && (forall k :: k in bound ==> bound[k] == order[k - 1])
  }

  /** The types the binding switch lists: the one of a seek has no SQL_C_SHORT. */
  predicate Bindable(skip: bool, t: CType) {
    !t.Binary? && (skip || !t.Short?)
  }

  predicate NoNull(nulls: seq<bool>, upTo: nat)
    requires upTo <= |nulls|
  {
    forall i :: 0 <= i < upTo ==> !nulls[i]
  }

  /** Every column among the first `upTo` that gets a placeholder has one of the types. */
  predicate AllAmong(cols: seq<Column>, nulls: seq<bool>, upTo: nat, types: set<CType>)
    requires upTo <= |cols| == |nulls|
  {
    forall i :: 0 <= i < upTo && !nulls[i] ==> cols[i].ctype in types
  }

  /** The k-th '?' of a generated statement is bound to the column that produced it, and the
      counts agree, if and only if every column bound is of a character, double, timestamp, date or
      bit type, or, for a skip, short. */
  lemma AlignedIff(cols: seq<Column>, nulls: seq<bool>, level: nat, fwd: bool, free: bool, texts: seq<string>,
                   skip: bool, bound: Binding)
    requires level <= |cols| == |nulls|
    requires BoundInOrder(cols, nulls, level, skip, bound)
    ensures Aligned(Join(ColumnAtoms(cols, nulls, level, fwd, free, level) + RestrictionAtoms(texts)), bound)
            <==> AllAmong(cols, nulls, level, if skip then {Char, Double, Timestamp, Date, Short, Bit}
                                              else {Char, Double, Timestamp, Date, Bit})
  {
    var atoms := ColumnAtoms(cols, nulls, level, fwd, free, level) + RestrictionAtoms(texts);
    JoinParses(atoms);
    PlaceholdersAreNonNullColumns(cols, nulls, level, fwd, free, level, texts);
    BoundIff(cols, nulls, level, skip, bound);
  }

  lemma BoundIff(cols: seq<Column>, nulls: seq<bool>, level: nat, skip: bool, bound: Binding)
    requires level <= |cols| == |nulls|
    requires BoundInOrder(cols, nulls, level, skip, bound)
    ensures (forall k :: k in bound <==> 1 <= k <= |NonNull(nulls, level)|)
            <==> AllAmong(cols, nulls, level, if skip then {Char, Double, Timestamp, Date, Short, Bit}
                                              else {Char, Double, Timestamp, Date, Bit})
  {
    var order := NonNull(nulls, level);
    NonNullRange(nulls, level);
    if forall k :: k in bound <==> 1 <= k <= |order| {
      forall i | 0 <= i < level && !nulls[i] ensures Bindable(skip, cols[i].ctype) {
        var k := NonNullIndex(nulls, level, i + 1);
        assert k + 1 in bound;
      }
    }
    TypesListed(skip);
  }

  lemma SamePrefix(a: seq<int>, b: seq<int>, n: nat)
    requires n <= |a| == |b|
    ensures a[..n] == b[..n] <==> forall i :: 0 <= i < n ==> a[i] == b[i]
  {
    if a[..n] == b[..n] {
      forall i | 0 <= i < n ensures a[i] == b[i] {
        assert a[i] == a[..n][i];
      }
    }
  }

  lemma BoundNothing(cols: seq<Column>, nulls: seq<bool>, skip: bool)
    requires |cols| == |nulls|
    ensures |NonNull(nulls, 0)| == 0 && BoundInOrder(cols, nulls, 0, skip, map[])
  {
  }

  /** One column of the binding loop. */
  lemma BoundStep(cols: seq<Column>, nulls: seq<bool>, c: nat, skip: bool, bound: Binding)
    requires 1 <= c <= |cols| == |nulls| && BoundInOrder(cols, nulls, c - 1, skip, bound)
    ensures var n := |NonNull(nulls, c - 1)|;
            && |NonNull(nulls, c)| == (if nulls[c - 1] then n else n + 1)
            && BoundInOrder(cols, nulls, c, skip,
                            if !nulls[c - 1] && Bindable(skip, cols[c - 1].ctype) then bound[n + 1 := c] else bound)
  {
    hide BoundTo;
    var order := NonNull(nulls, c - 1);
    if nulls[c - 1] {
      assert order + [] == order;
    } else {
      BoundOneMore(order, c, cols, skip, bound);
    }
  }

  lemma BoundOneMore(order: seq<nat>, c: nat, cols: seq<Column>, skip: bool, bound: Binding)
    requires 1 <= c <= |cols| && BoundTo(order, cols, skip, bound)
    ensures var more := if Bindable(skip, cols[c - 1].ctype) then bound[|order| + 1 := c] else bound;
            BoundTo(order + [c], cols, skip, more)
  {
    var all := order + [c];
    assert forall i :: 0 <= i < |order| ==> all[i] == order[i];
    assert all[|order|] == c && |order| + 1 !in bound;
  }

  lemma TypesListed(skip: bool)
    ensures forall t :: Bindable(skip, t) <==> t in if skip then {Char, Double, Timestamp, Date, Short, Bit}
                                               else {Char, Double, Timestamp, Date, Bit}
  {
  }

  lemma {:induction false} NonNullIndex(nulls: seq<bool>, upTo: nat, c: nat) returns (k: nat)
    requires 1 <= c <= upTo <= |nulls| && !nulls[c - 1]
    ensures k < |NonNull(nulls, upTo)| && NonNull(nulls, upTo)[k] == c
  {
    if c == upTo {
      k := |NonNull(nulls, upTo)| - 1;
    } else {
      k := NonNullIndex(nulls, upTo - 1, c);
    }
  }

  class StatementArea {
    const system: Database
    const natural: bool              // hOrdCurrent == 0
    const columns: seq<Column>       // of the current index; the record number alone in natural order
    const reverseIndex: bool
    /** The filter texts in the order they are solved: the FOR clause, the filter, the scope of
        the current index (none in natural order), the area's scope and the user filter; "" is
        an inactive one. */
    const restrictions: seq<string>

    var sWhere: seq<Token>
    var indexLevel: int
    var recordListDirection: Direction
    var isArgumentNull: seq<bool>    // per column
    var orderChanged: bool
    var conditionChanged1: bool
    var skipFwd: seq<Slot>
    var skipBwd: seq<Slot>
    var skipBound: seq<Binding>      // per level, in the direction last bound
    var seekText: seq<Token>
    var seekBound: Binding

    predicate Valid()
      reads this
    {
      && |restrictions| == 5 && 1 <= |columns| == |isArgumentNull| == |skipFwd| == |skipBwd|
      && (natural ==> columns == [Column(Double, false, false)] && isArgumentNull == [false] && restrictions[2] == "")
    }

    function Ascending(dir: Direction): bool {
      dir.Forward? != reverseIndex
    }

    /** Which columns of the current record count as NULL: an empty value in a nullable column. */
    function ArgumentNulls(itemNull: seq<bool>): (nulls: seq<bool>)
      requires |itemNull| == |columns|
      ensures |nulls| == |columns|
      ensures forall i :: 0 <= i < |columns| ==> (nulls[i] <==> !natural && columns[i].nullable && itemNull[i])
    {
      seq(|columns|, i requires 0 <= i < |columns| => !natural && columns[i].nullable && itemNull[i])
    }

    function SkipAtoms(nulls: seq<bool>, level: nat, dir: Direction): seq<Atom>
      requires level <= |columns| == |nulls|
    {
      ColumnAtoms(columns, nulls, level, Ascending(dir), Ascending(dir), level) + RestrictionAtoms(restrictions)
    }

    function SeekAtoms(level: nat, dir: Direction): seq<Atom>
      requires level <= |columns| == |isArgumentNull|
      reads this
    {
      ColumnAtoms(columns, isArgumentNull, level, Ascending(dir), dir.Forward?, level) + RestrictionAtoms(restrictions)
    }

    /** With no NULL in the current record, the statement of a level selects the rows that equal it
        in the columns before the last, and in the last one are at or after it in a forward skip
        over a plain index or a backward skip over a reversed one, else at or before it. */
    lemma SkipAtomsMeaning(itemNull: seq<bool>, level: nat, dir: Direction, cur: seq<int>, row: seq<int>,
                           meets: set<string>)
      requires |itemNull| == |columns| == |cur| == |row| && 1 <= level <= |columns|
      requires forall i :: 0 <= i < |itemNull| ==> !itemNull[i]
      ensures Eval(SkipAtoms(ArgumentNulls(itemNull), level, dir), Key2Row(row, meets),
                   Params(ArgumentNulls(itemNull), cur, level))
              <==> && (forall i :: 0 <= i < level - 1 ==> row[i] == cur[i])
                   && (if (dir == Forward && !reverseIndex) || (dir == Backward && reverseIndex)
                       then row[level - 1] >= cur[level - 1] else row[level - 1] <= cur[level - 1])
                   && (forall i :: 0 <= i < |restrictions| && restrictions[i] != "" ==> restrictions[i] in meets)
    {
      var nulls := ArgumentNulls(itemNull);
      assert nulls == seq(|columns|, _ => false);
      var asc := Ascending(dir);
      WhereIsLevel(columns, level, asc, asc, cur, row, meets, restrictions);
      SamePrefix(row, cur, level - 1);
    }

    /** The same for the statement of a seek, whose column values are the pieces of the key. */
    lemma SeekAtomsMeaning(level: nat, dir: Direction, cur: seq<int>, row: seq<int>, meets: set<string>)
      requires |isArgumentNull| == |columns| == |cur| == |row| && 1 <= level <= |columns|
      requires forall i :: 0 <= i < |columns| ==> !isArgumentNull[i]
      ensures Eval(SeekAtoms(level, dir), Key2Row(row, meets), Params(isArgumentNull, cur, level))
              <==> && (forall i :: 0 <= i < level - 1 ==> row[i] == cur[i])
                   && (if (dir == Forward && !reverseIndex) || (dir == Backward && reverseIndex)
                       then row[level - 1] >= cur[level - 1] else row[level - 1] <= cur[level - 1])
                   && (forall i :: 0 <= i < |restrictions| && restrictions[i] != "" ==> restrictions[i] in meets)
    {
      assert isArgumentNull == seq(|columns|, _ => false);
      WhereIsLevel(columns, level, Ascending(dir), dir.Forward?, cur, row, meets, restrictions);
      SamePrefix(row, cur, level - 1);
    }

    /** One sprintf step: the separator depends on whether the clause has begun. */
    method AddCondition(where: bool, atom: Atom, ghost atoms: seq<Atom>) returns (where': bool)
      requires sWhere == Join(atoms) && (where <==> atoms != [])
      modifies this`sWhere
      ensures where' && sWhere == Join(atoms + [atom])
    {
      JoinStep(atoms, atom);
      sWhere := (if where then sWhere else [Where]) + (if where then [And] else []) + [Cond(atom)];
      where' := true;
    }

    /** SR_SolveFilters: each active filter in turn. */
    method SolveFilters(where: bool, ghost atoms: seq<Atom>)
      requires sWhere == Join(atoms) && (where <==> atoms != [])
      modifies this`sWhere
      ensures sWhere == Join(atoms + RestrictionAtoms(restrictions))
    {
      var texts := restrictions;
      var w := where;
      ghost var all := atoms;
      RestrictionsFrom(atoms, texts);
      for i := 0 to |texts|
        invariant all == WithRestrictions(atoms, texts, i)
        invariant sWhere == Join(all) && (w <==> all != [])
      {
        if texts[i] != "" {
          w := AddCondition(w, Restriction(texts[i]), all);
          all := all + [Restriction(texts[i])];
        }
      }
    }

    /** One pass of the column loop: the condition of column `col`, if it has one. */
    method AddColumn(where: bool, isNull: bool, level: nat, fwd: bool, free: bool, col: nat,
                     ghost nulls: seq<bool>, ghost atoms: seq<Atom>) returns (where': bool)
      requires 1 <= col <= level <= |columns| == |nulls| && isNull == nulls[col - 1]
      requires sWhere == Join(atoms) && (where <==> atoms != [])
      modifies this`sWhere
      ensures var more := atoms + ColumnAtom(columns, nulls, level, fwd, free, col);
              sWhere == Join(more) && (where' <==> more != [])
    {
      where' := where;
      var last := col == level;
      if isNull {
        if columns[col - 1].ctype.Double? {
          where' := AddCondition(where, if last then ZeroOrNull(col, if fwd then Ge else Le) else NullOrNull(col),
                                 atoms);
        } else if last && free {
          // everything is greater than or equal to NULL: no restriction
          assert atoms + [] == atoms;
        } else {
          where' := AddCondition(where, IsNull(col), atoms);
        }
      } else {
        where' := AddCondition(where, Compare(col, if last then (if fwd then Ge else Le) else Eq), atoms);
      }
    }

    /** The column loop of a skip's WHERE clause; records the NULL status of the last column. */
    method AddLevelConditions(fwd: bool, itemNull: seq<bool>) returns (where: bool)
      requires Valid() && !natural && |itemNull| == |columns| && 1 <= indexLevel <= |columns|
      requires sWhere == []
      modifies this`sWhere, this`isArgumentNull
      ensures Valid()
      ensures var atoms := ColumnAtoms(columns, ArgumentNulls(itemNull), indexLevel, fwd, fwd, indexLevel);
              sWhere == Join(atoms) && (where <==> atoms != [])
      ensures isArgumentNull == old(isArgumentNull)[indexLevel - 1 := ArgumentNulls(itemNull)[indexLevel - 1]]
    {
      hide Join, ColumnAtom;
      ghost var nulls := ArgumentNulls(itemNull);
      ghost var atoms: seq<Atom> := [];
      where := false;
      JoinEmpty([]);
      for col := 1 to indexLevel + 1
        invariant atoms == ColumnAtoms(columns, nulls, indexLevel, fwd, fwd, col - 1)
        invariant sWhere == Join(atoms) && (where <==> atoms != [])
        invariant isArgumentNull == if col <= indexLevel then old(isArgumentNull)
                                    else old(isArgumentNull)[indexLevel - 1 := nulls[indexLevel - 1]]
      {
        var argumentIsNull := columns[col - 1].nullable && itemNull[col - 1];
        if col == indexLevel {
          isArgumentNull := isArgumentNull[col - 1 := argumentIsNull];
        }
        where := AddColumn(where, argumentIsNull, indexLevel, fwd, fwd, col, nulls, atoms);
        atoms := atoms + ColumnAtom(columns, nulls, indexLevel, fwd, fwd, col);
      }
    }

    /** The WHERE clause of the current level for a skip, or of the filters alone for the
        movements from either end. */
    method GetWhereExpression(listType: ListType, itemNull: seq<bool>)
      requires Valid() && |itemNull| == |columns|
      requires listType.SkipFwd? || listType.SkipBwd? ==> 1 <= indexLevel <= |columns|
      modifies this`sWhere, this`recordListDirection, this`isArgumentNull, this`indexLevel, this`conditionChanged1
      ensures Valid() && !conditionChanged1
      ensures recordListDirection == (if listType.FromTop? || listType.SkipFwd? then Forward else Backward)
      ensures listType.SkipFwd? || listType.SkipBwd? ==>
                && indexLevel == old(indexLevel)
                && sWhere == Join(SkipAtoms(ArgumentNulls(itemNull), indexLevel, recordListDirection))
                && isArgumentNull == old(isArgumentNull)[indexLevel - 1 := ArgumentNulls(itemNull)[indexLevel - 1]]
      ensures listType.FromTop? || listType.FromBottom? ==>
                indexLevel == -1 && sWhere == Join([] + RestrictionAtoms(restrictions))
                && isArgumentNull == old(isArgumentNull)
    {
      hide Join, ColumnAtoms, RestrictionAtoms;
      var where := false;
      ghost var atoms: seq<Atom> := [];
      sWhere := [];
      JoinEmpty([]);
      conditionChanged1 := false;
      if listType.SkipFwd? || listType.SkipBwd? {
        recordListDirection := if listType.SkipFwd? then Forward else Backward;
        var fwd := listType.SkipFwd?;
        if reverseIndex {
          fwd := !fwd;
        }
        atoms := ColumnAtoms(columns, ArgumentNulls(itemNull), indexLevel, fwd, fwd, indexLevel);
        if natural {
          OneColumn(columns, ArgumentNulls(itemNull), fwd);
          where := AddCondition(where, Compare(1, if fwd then Ge else Le), []);
        } else {
          where := AddLevelConditions(fwd, itemNull);
        }
      } else {
        indexLevel := -1;
      }
      if listType.FromTop? {
        recordListDirection := Forward;
      } else if listType.FromBottom? {
        recordListDirection := Backward;
      }
      SolveFilters(where, atoms);
    }

    /** Whether CreateSkipStmt must build the statements again. */
    predicate SkipStale()
      requires Valid()
      reads this
    {
      orderChanged || conditionChanged1
      || (if recordListDirection.Forward? then skipFwd[0].Free? else skipBwd[0].Free?)
    }

    /** One statement per level of the index, in the current direction; every statement of
        either direction is dropped first. */
    method CreateSkipStmt(itemNull: seq<bool>) returns (created: bool)
      requires Valid() && |itemNull| == |columns|
      modifies this`sWhere, this`recordListDirection, this`isArgumentNull, this`indexLevel, this`conditionChanged1,
               this`orderChanged, this`skipFwd, this`skipBwd
      ensures Valid() && recordListDirection == old(recordListDirection)
      ensures created == old(SkipStale())
      ensures created <==> old(orderChanged) || old(conditionChanged1)
                           || (if old(recordListDirection).Forward? then old(skipFwd)[0] else old(skipBwd)[0]) == Free
      ensures !created ==>
                && isArgumentNull == old(isArgumentNull) && skipFwd == old(skipFwd) && skipBwd == old(skipBwd)
                && !orderChanged && !conditionChanged1
      ensures created ==>
                && !orderChanged && !conditionChanged1 && indexLevel == 0
                && isArgumentNull == ArgumentNulls(itemNull)
                && (forall l :: 0 <= l < |columns| ==>
                      var text := Prepared(Join(SkipAtoms(ArgumentNulls(itemNull), l + 1, recordListDirection)));
                      && skipFwd[l] == (if recordListDirection.Forward? then text else Free)
                      && skipBwd[l] == (if recordListDirection.Forward? then Free else text))
    {
      hide Join, ColumnAtoms, RestrictionAtoms;
      created := SkipStale();
      if created {
        orderChanged := false;
        skipFwd, skipBwd := seq(|columns|, _ => Free), seq(|columns|, _ => Free);
        indexLevel := |columns|;
        var dir := recordListDirection;
        ghost var nulls := ArgumentNulls(itemNull);
        conditionChanged1 := false;
        for i := 1 to |columns| + 1
          invariant Valid() && recordListDirection == dir && !conditionChanged1 && !orderChanged
          invariant indexLevel == |columns| - (i - 1)
          invariant forall l :: indexLevel <= l < |columns| ==> isArgumentNull[l] == nulls[l]
          invariant forall l :: 0 <= l < |columns| ==>
                      var text := if l < indexLevel then Free else Prepared(Join(SkipAtoms(nulls, l + 1, dir)));
                      && skipFwd[l] == (if dir.Forward? then text else Free)
                      && skipBwd[l] == (if dir.Forward? then Free else text)
        {
          GetWhereExpression(if recordListDirection.Forward? then SkipFwd else SkipBwd, itemNull);
          if recordListDirection.Forward? {
            skipFwd := skipFwd[indexLevel - 1 := Prepared(sWhere)];
          } else {
            skipBwd := skipBwd[indexLevel - 1 := Prepared(sWhere)];
          }
          indexLevel := indexLevel - 1;
        }
        assert isArgumentNull == nulls;
      }
    }

    /** The binding loop shared by the levels of a skip and by a seek: the parameter number
        advances on every column that is not NULL, bound or not. */
    method BindColumns(upTo: nat, skip: bool) returns (bound: Binding)
      requires Valid() && upTo <= |columns|
      ensures BoundInOrder(columns, isArgumentNull, upTo, skip, bound)
    {
      hide BoundInOrder, NonNull;
      bound := map[];
      var iBind := 1;
      BoundNothing(columns, isArgumentNull, skip);
      for loop := 1 to upTo + 1
        invariant iBind == |NonNull(isArgumentNull, loop - 1)| + 1
        invariant BoundInOrder(columns, isArgumentNull, loop - 1, skip, bound)
      {
        BoundStep(columns, isArgumentNull, loop, skip, bound);
        if !isArgumentNull[loop - 1] {
          var listed := false;
          match columns[loop - 1].ctype {
            case Char => listed := true;
            case Double => listed := true;
            case Timestamp => listed := true;
            case Date => listed := true;
            case Short => listed := skip;
            case Bit => listed := true;
            case Binary =>
          }
          if listed {
            bound := bound[iBind := loop];
          }
          iBind := iBind + 1;
        }
      }
    }

    method BindAllIndexStmts()
      requires Valid()
      modifies this`skipBound
      ensures |skipBound| == |columns|
      ensures forall l :: 0 <= l < |columns| ==> BoundInOrder(columns, isArgumentNull, l + 1, true, skipBound[l])
    {
      skipBound := [];
      for col := 1 to |columns| + 1
        invariant Valid() && |skipBound| == col - 1
        invariant forall l :: 0 <= l < col - 1 ==> BoundInOrder(columns, isArgumentNull, l + 1, true, skipBound[l])
      {
        var bound := BindColumns(col, true);
        skipBound := skipBound + [bound];
      }
    }

    /** What holds between skips: statements that are not stale were built for the NULL columns on
        record, and are bound in order. */
    ghost predicate Ready()
      requires Valid()
      reads this
    {
      !SkipStale() ==>
        && |skipBound| == |columns|
        && forall l :: 0 <= l < |columns| ==>
             && (if recordListDirection.Forward? then skipFwd[l] else skipBwd[l])
                == Prepared(Join(SkipAtoms(isArgumentNull, l + 1, recordListDirection)))
             && BoundInOrder(columns, isArgumentNull, l + 1, true, skipBound[l])
    }

    /** The current record has a NULL in a column the statements were built to compare. */
    predicate MustRebuild(itemNull: seq<bool>)
      requires Valid() && |itemNull| == |columns|
      reads this
    {
      exists i :: 0 <= i < |columns| && ArgumentNulls(itemNull)[i] && !isArgumentNull[i]
    }

    /** FeedCurrentRecordToBindings: prepared statements take the current record's values; a new
        NULL rebuilds them all, a NULL that is gone does not. */
    method FeedCurrentRecordToBindings(itemNull: seq<bool>)
      requires Valid() && Ready() && !SkipStale() && |itemNull| == |columns|
      modifies this`sWhere, this`recordListDirection, this`isArgumentNull, this`indexLevel, this`conditionChanged1,
               this`orderChanged, this`skipFwd, this`skipBwd, this`skipBound
      ensures Valid() && Ready() && !SkipStale() && recordListDirection == old(recordListDirection)
      ensures isArgumentNull == if old(MustRebuild(itemNull)) then ArgumentNulls(itemNull) else old(isArgumentNull)
      decreases MustRebuild(itemNull)
    {
      hide Join, ColumnAtoms, RestrictionAtoms, BoundInOrder;
      ghost var rebuild := MustRebuild(itemNull);
      for col := 1 to |columns| + 1
        invariant Valid() && Ready() && !SkipStale() && recordListDirection == old(recordListDirection)
        invariant isArgumentNull == old(isArgumentNull) || (rebuild && isArgumentNull == ArgumentNulls(itemNull))
        invariant forall i :: 0 <= i < col - 1 && ArgumentNulls(itemNull)[i] ==> isArgumentNull[i]
      {
        if !natural && columns[col - 1].nullable && itemNull[col - 1] && !isArgumentNull[col - 1] {
          assert ArgumentNulls(itemNull)[col - 1];
          conditionChanged1 := true;
          var created := CreateSkipStmt(itemNull);
          BindAllIndexStmts();
          FeedCurrentRecordToBindings(itemNull);
        }
      }
    }

    /** The prepare-and-bind step of a skip, whether the statements are built again or fed: each
        level's parameters line up with its text exactly when the types of its non-NULL columns are
        ones the bind switch lists. */
    method PrepareSkip(itemNull: seq<bool>)
      requires Valid() && Ready() && |itemNull| == |columns|
      modifies this
      ensures Valid() && Ready() && !SkipStale() && recordListDirection == old(recordListDirection)
      ensures isArgumentNull == if old(SkipStale() || MustRebuild(itemNull)) then ArgumentNulls(itemNull)
              else old(isArgumentNull)
      ensures forall l :: 0 <= l < |columns| ==>
                var slot := if recordListDirection.Forward? then skipFwd[l] else skipBwd[l];
                && slot == Prepared(Join(SkipAtoms(isArgumentNull, l + 1, recordListDirection)))
                && (Aligned(slot.text, skipBound[l]) <==> AllAmong(columns, isArgumentNull, l + 1,
                                                              {Char, Double, Timestamp, Date, Short, Bit}))
    {
      hide Join, ColumnAtoms, RestrictionAtoms, BoundInOrder, Aligned, AllAmong;
      var created := CreateSkipStmt(itemNull);
      if created {
        BindAllIndexStmts();
      } else {
        FeedCurrentRecordToBindings(itemNull);
      }
      forall l | 0 <= l < |columns|
        ensures var text := Join(SkipAtoms(isArgumentNull, l + 1, recordListDirection));
                Aligned(text, skipBound[l]) <==> AllAmong(columns, isArgumentNull, l + 1,
                                                          {Char, Double, Timestamp, Date, Short, Bit})
      {
        var asc := Ascending(recordListDirection);
        AlignedIff(columns, isArgumentNull, l + 1, asc, asc, restrictions, true, skipBound[l]);
      }
    }

    /** What PrepareSkip leaves means the level of the current record if and only if none of the
        level's columns went from NULL to a value since the statements were built. */
    lemma PreparedMeansCurrent(itemNull: seq<bool>, level: nat, cur: seq<int>)
      requires Valid() && |itemNull| == |columns| == |cur| && 1 <= level <= |columns|
      requires !MustRebuild(itemNull)
      ensures var asc := Ascending(recordListDirection);
              (forall row :: Selects(columns, isArgumentNull, level, asc, asc, cur, restrictions, row)
                             == Selects(columns, ArgumentNulls(itemNull), level, asc, asc, cur, restrictions, row))
              <==> forall i :: 0 <= i < level && isArgumentNull[i] ==> ArgumentNulls(itemNull)[i]
    {
      hide Selects;
      var asc := Ascending(recordListDirection);
      ReusedClauseExact(columns, isArgumentNull, ArgumentNulls(itemNull), level, asc, asc, cur, restrictions);
    }

    /** The WHERE clause of a seek over the first `queryLevel` columns; the optimizer hints are
        given up as soon as a NULL argument appears. */
    method GetSeekWhereExpression(listType: ListType, queryLevel: nat, hints: bool) returns (useHints: bool)
      requires Valid() && !natural && 1 <= queryLevel <= |columns| && (listType.SkipFwd? || listType.SkipBwd?)
      modifies this`sWhere, this`recordListDirection
      ensures Valid() && recordListDirection == (if listType.SkipFwd? then Forward else Backward)
      ensures sWhere == Join(SeekAtoms(queryLevel, recordListDirection))
      ensures useHints <==> hints && NoNull(isArgumentNull, queryLevel)
    {
      hide Join, ColumnAtom, RestrictionAtoms;
      useHints := hints;
      var where := false;
      sWhere := [];
      JoinEmpty([]);
      recordListDirection := if listType.SkipFwd? then Forward else Backward;
      var fwd := listType.SkipFwd?;
      if reverseIndex {
        fwd := !fwd;
      }
      ghost var atoms: seq<Atom> := [];
      for col := 1 to queryLevel + 1
        invariant recordListDirection == (if listType.SkipFwd? then Forward else Backward)
        invariant atoms == ColumnAtoms(columns, isArgumentNull, queryLevel, fwd, listType.SkipFwd?, col - 1)
        invariant sWhere == Join(atoms) && (col <= queryLevel ==> (where <==> atoms != []))
        invariant useHints <==> hints && NoNull(isArgumentNull, col - 1)
      {
        if isArgumentNull[col - 1] {
          useHints := false;
        }
        where := AddColumn(where, isArgumentNull[col - 1], queryLevel, fwd, listType.SkipFwd?, col, isArgumentNull,
            atoms);
        atoms := atoms + ColumnAtom(columns, isArgumentNull, queryLevel, fwd, listType.SkipFwd?, col);
        MiddleColumnHasAtom(columns, isArgumentNull, queryLevel, fwd, listType.SkipFwd?, col);
        where := true;
      }
      where := |sWhere| > 0;
      JoinEmpty(atoms);
      SolveFilters(where, atoms);
    }

    /** The seek statement and its bindings.  With hints, "AND ROWNUM <= 1" is appended to the
        clause with no test that there is one. */
    method PrepareSeek(queryLevel: nat)
      requires Valid() && !natural && 1 <= queryLevel <= |columns|
      modifies this`sWhere, this`recordListDirection, this`seekText, this`seekBound, this`conditionChanged1
      ensures Valid() && recordListDirection == old(recordListDirection) && conditionChanged1
      ensures var hints := system.Oracle? && NoNull(isArgumentNull, queryLevel);
              Parse(seekText)
              == Conjunction(SeekAtoms(queryLevel, recordListDirection) + if hints then [FirstRowOnly] else [])
      ensures Aligned(seekText, seekBound) <==>
              AllAmong(columns, isArgumentNull, queryLevel, {Char, Double, Timestamp, Date, Bit})
    {
      hide Join, ColumnAtoms, RestrictionAtoms, AllAmong, BoundInOrder, Aligned, Parse;
      conditionChanged1 := true;
      var hints := system.Oracle?;
      hints := GetSeekWhereExpression(if recordListDirection.Forward? then SkipFwd else SkipBwd, queryLevel, hints);
      seekText := sWhere + (if hints then [And, Cond(FirstRowOnly)] else []);
      seekBound := BindColumns(queryLevel, false);
      SeekAligned(columns, isArgumentNull, queryLevel, Ascending(recordListDirection), recordListDirection.Forward?,
                  restrictions, hints, seekBound);
    }
  }

  /** The seek statement parses, ROWNUM condition included, and its parameters line up. */
  lemma SeekAligned(cols: seq<Column>, nulls: seq<bool>, level: nat, fwd: bool, free: bool, texts: seq<string>,
                    hints: bool, bound: Binding)
    requires 1 <= level <= |cols| == |nulls| && (hints ==> NoNull(nulls, level))
    requires BoundInOrder(cols, nulls, level, false, bound)
    ensures var atoms := ColumnAtoms(cols, nulls, level, fwd, free, level) + RestrictionAtoms(texts);
            var text := Join(atoms) + (if hints then [And, Cond(FirstRowOnly)] else []);
            && Parse(text) == Conjunction(atoms + if hints then [FirstRowOnly] else [])
            && (Aligned(text, bound) <==> AllAmong(cols, nulls, level, {Char, Double, Timestamp, Date, Bit}))
  {
    hide Join, Parse, Placeholders, ColumnAtoms, RestrictionAtoms, NonNull;
    if hints {
      ColumnAtomsNotEmpty(cols, nulls, level, fwd, free);
    }
    SeekTextParses(ColumnAtoms(cols, nulls, level, fwd, free, level) + RestrictionAtoms(texts), hints);
    AlignedIff(cols, nulls, level, fwd, free, texts, false, bound);
  }

  lemma OneColumn(cols: seq<Column>, nulls: seq<bool>, fwd: bool)
    requires |cols| == |nulls| == 1 && !nulls[0]
    ensures ColumnAtoms(cols, nulls, 1, fwd, fwd, 1) == [] + [Compare(1, LastOp(fwd))]
  {
  }

  /** A clause that is not empty still parses after "AND ROWNUM <= 1", with no new placeholder. */
  lemma SeekTextParses(atoms: seq<Atom>, hints: bool)
    requires hints ==> atoms != []
    ensures var all := atoms + (if hints then [FirstRowOnly] else []);
            && Parse(Join(atoms)) == Conjunction(atoms)
            && Parse(Join(atoms) + (if hints then [And, Cond(FirstRowOnly)] else [])) == Conjunction(all)
            && Placeholders(all) == Placeholders(atoms)
  {
    JoinParses(atoms);
    if hints {
      JoinStep(atoms, FirstRowOnly);
      JoinParses(atoms + [FirstRowOnly]);
      PlaceholdersAppend(atoms, [FirstRowOnly]);
      assert Join(atoms) + [And, Cond(FirstRowOnly)] == Join(atoms + [FirstRowOnly]);
      assert Placeholders([FirstRowOnly]) == [];
    } else {
      assert atoms + [] == atoms && Join(atoms) + [] == Join(atoms);
    }
  }

  /** Every column before the last adds its condition. */
  lemma MiddleColumnHasAtom(cols: seq<Column>, nulls: seq<bool>, level: nat, fwd: bool, free: bool, c: nat)
    requires 1 <= c <= level <= |cols| == |nulls|
    ensures c < level ==> ColumnAtom(cols, nulls, level, fwd, free, c) != []
  {
  }

  /** With no NULL argument every column adds its condition, so the clause is not empty. */
  lemma ColumnAtomsNotEmpty(cols: seq<Column>, nulls: seq<bool>, level: nat, fwd: bool, free: bool)
    requires 1 <= level <= |cols| == |nulls| && !nulls[level - 1]
    ensures ColumnAtoms(cols, nulls, level, fwd, free, level) != []
  {
  }
}
