/** WHERE clauses as the source assembles them, condition by condition, and their meaning.

    A clause text is modelled as its sequence of tokens: the keyword WHERE, the keyword AND,
    and one token per condition.  A '?' of the text belongs to exactly one condition, so the
    k-th placeholder of a text is the k-th placeholder condition. */
module Query {
  import opened Keys

  datatype CType = Char | Double | Timestamp | Date | Short | Bit | Binary

  /** An index column; an expression component stands for its SQL text instead of a name. */
  datatype Column = Column(ctype: CType, nullable: bool, isExpr: bool)

  datatype Op = Eq | Ge | Le

  /** Columns are numbered from 1, as the index binding loops number them. */
  datatype Atom =
    | Compare(col: nat, op: Op)        // column op ?
    | ZeroOrNull(col: nat, op: Op)     // ( column op 0 OR column IS NULL )
    | NullOrNull(col: nat)             // ( column IS NULL OR column IS NULL )
    | IsNull(col: nat)                 // column IS NULL
    | Restriction(text: string)        // ( filter text )
    | FirstRowOnly                     // ROWNUM <= 1

  datatype Token = Where | And | Cond(atom: Atom)

  // ----- the text and its conjuncts

  /** The only shape a clause may have: nothing, or WHERE c1 AND c2 AND ... */
  function Join(atoms: seq<Atom>): seq<Token> {
    if atoms == [] then []
    else (if |atoms| == 1 then [Where] else Join(atoms[..|atoms| - 1]) + [And]) + [Cond(atoms[|atoms| - 1])]
  }

  datatype Parsed = Bad | Conjunction(atoms: seq<Atom>)

  /** c1 AND c2 AND ... AND cn, n >= 1. */
  function ParseConjuncts(text: seq<Token>): Parsed {
    if text == [] || !text[0].Cond? then Bad
    else if |text| == 1 then Conjunction([text[0].atom])
    else if !text[1].And? then Bad
    else match ParseConjuncts(text[2..])
      case Bad => Bad
      case Conjunction(rest) => Conjunction([text[0].atom] + rest)
  }

  /** The reader of a clause, independent of how it was written. */
  function Parse(text: seq<Token>): Parsed {
    if text == [] then Conjunction([])
    else if !text[0].Where? then Bad
    else ParseConjuncts(text[1..])
  }

  lemma {:induction false} ParseConjunctsAppend(text: seq<Token>, atom: Atom)
    requires ParseConjuncts(text).Conjunction?
    ensures ParseConjuncts(text + [And, Cond(atom)]) == Conjunction(ParseConjuncts(text).atoms + [atom])
  {
    var more := text + [And, Cond(atom)];
    if |text| == 1 {
      assert more[2..] == [Cond(atom)];
    } else {
      ParseConjunctsAppend(text[2..], atom);
      assert more[2..] == text[2..] + [And, Cond(atom)];
    }
  }

  /** Assembled text is well formed, with exactly the conditions that were added, in order. */
  lemma {:induction false} JoinParses(atoms: seq<Atom>)
    ensures Parse(Join(atoms)) == Conjunction(atoms)
    ensures atoms != [] <==> Join(atoms) != []
    ensures atoms != [] ==> Join(atoms)[0] == Where
  {
    if |atoms| == 1 {
      assert Join(atoms)[1..] == [Cond(atoms[0])];
      assert atoms == [atoms[0]];
    } else if |atoms| > 1 {
      var front, last := atoms[..|atoms| - 1], atoms[|atoms| - 1];
      JoinParses(front);
      ParseConjunctsAppend(Join(front)[1..], last);
      assert Join(atoms)[1..] == Join(front)[1..] + [And, Cond(last)];
      assert atoms == front + [last];
    }
  }

  /** One sprintf step of the assembly: the separator depends on the flag alone. */
  lemma JoinStep(atoms: seq<Atom>, atom: Atom)
    ensures Join(atoms + [atom]) == (if atoms == [] then [Where] else Join(atoms) + [And]) + [Cond(atom)]
  {
    assert (atoms + [atom])[..|atoms|] == atoms;
  }

  lemma JoinEmpty(atoms: seq<Atom>)
    ensures atoms != [] <==> Join(atoms) != []
  {
  }

  // ----- meaning

  datatype Value = Null | Val(v: int)

  /** A table row: the values of the index columns and the filter texts it satisfies. */
  datatype Row = Row(values: seq<Value>, meets: set<string>)

  predicate Sat(op: Op, x: Value, y: int) {
    match op
    case Eq => x == Val(y)
    case Ge => x.Val? && x.v >= y
    case Le => x.Val? && x.v <= y
  }

  function Field(row: Row, col: nat): Value {
    if 1 <= col <= |row.values| then row.values[col - 1] else Null
  }

  /** A condition is true of a row (an unknown comparison with NULL is not true). */
  predicate Holds(atom: Atom, row: Row, param: int) {
    match atom
    case Compare(c, op) => Sat(op, Field(row, c), param)
    case ZeroOrNull(c, op) => Sat(op, Field(row, c), 0) || Field(row, c).Null?
    case NullOrNull(c) => Field(row, c).Null? || Field(row, c).Null?
    case IsNull(c) => Field(row, c).Null?
    case Restriction(t) => t in row.meets
    case FirstRowOnly => true
  }

  /** The database's evaluation: placeholders take the bound values from left to right. */
  predicate Eval(atoms: seq<Atom>, row: Row, params: seq<int>) {
    if atoms == [] then true
    else if atoms[0].Compare? then
      params != [] && Holds(atoms[0], row, params[0]) && Eval(atoms[1..], row, params[1..])
    else Holds(atoms[0], row, 0) && Eval(atoms[1..], row, params)
  }

  /** The columns behind the placeholders of a text, in text order. */
  function Placeholders(atoms: seq<Atom>): seq<nat> {
    if atoms == [] then []
    else (if atoms[0].Compare? then [atoms[0].col] else []) + Placeholders(atoms[1..])
  }

  lemma {:induction false} PlaceholdersAppend(a: seq<Atom>, b: seq<Atom>)
    ensures Placeholders(a + b) == Placeholders(a) + Placeholders(b)
  {
    if a == [] {
      assert a + b == b;
    } else {
      var first := if a[0].Compare? then [a[0].col] else [];
      PlaceholdersAppend(a[1..], b);
      assert Placeholders(a + b) == first + Placeholders(a[1..] + b) by {
        assert (a + b)[1..] == a[1..] + b;
      }
    }
  }

  lemma {:induction false} EvalAppend(a: seq<Atom>, b: seq<Atom>, row: Row, p: seq<int>, q: seq<int>)
    requires |Placeholders(a)| == |p|
    ensures Eval(a + b, row, p + q) <==> Eval(a, row, p) && Eval(b, row, q)
  {
    if a == [] {
      assert a + b == b && p + q == q;
    } else {
      assert (a + b)[1..] == a[1..] + b;
      if a[0].Compare? {
        assert (p + q)[1..] == p[1..] + q;
        EvalAppend(a[1..], b, row, p[1..], q);
      } else {
        EvalAppend(a[1..], b, row, p, q);
      }
    }
  }

  // ----- the conditions of one index level

  function LastOp(fwd: bool): Op {
    if fwd then Ge else Le
  }

  /** The condition, if any, that column `c` contributes at level `level`; `free` says whether a
      NULL non-numeric last column goes unrestricted. */
  function ColumnAtom(cols: seq<Column>, nulls: seq<bool>, level: nat, fwd: bool, free: bool, c: nat): seq<Atom>
    requires 1 <= c <= |cols| == |nulls|
  {
    if !nulls[c - 1] then [Compare(c, if c == level then LastOp(fwd) else Eq)]
    else if cols[c - 1].ctype.Double? then [if c == level then ZeroOrNull(c, LastOp(fwd)) else NullOrNull(c)]
    else if c == level && free then []
    else [IsNull(c)]
  }

  function ColumnAtoms(cols: seq<Column>, nulls: seq<bool>, level: nat, fwd: bool, free: bool, upTo: nat): seq<Atom>
    requires upTo <= |cols| == |nulls|
  {
    if upTo == 0 then []
    else ColumnAtoms(cols, nulls, level, fwd, free, upTo - 1) + ColumnAtom(cols, nulls, level, fwd, free, upTo)
  }

  function RestrictionAtoms(texts: seq<string>): seq<Atom> {
    if texts == [] then []
    else RestrictionAtoms(texts[..|texts| - 1])
         + (if texts[|texts| - 1] == "" then [] else [Restriction(texts[|texts| - 1])])
  }

  /** `atoms` followed by the conditions of the first `upTo` filter texts. */
  function WithRestrictions(atoms: seq<Atom>, texts: seq<string>, upTo: nat): seq<Atom>
    requires upTo <= |texts|
  {
    if upTo == 0 then atoms
    else WithRestrictions(atoms, texts, upTo - 1)
         + (if texts[upTo - 1] == "" then [] else [Restriction(texts[upTo - 1])])
  }

  lemma RestrictionsFrom(atoms: seq<Atom>, texts: seq<string>)
    ensures WithRestrictions(atoms, texts, |texts|) == atoms + RestrictionAtoms(texts)
  {
    RestrictionsUpTo(atoms, texts, |texts|);
    assert texts[..|texts|] == texts;
  }

  lemma {:induction false} RestrictionsUpTo(atoms: seq<Atom>, texts: seq<string>, upTo: nat)
    requires upTo <= |texts|
    ensures WithRestrictions(atoms, texts, upTo) == atoms + RestrictionAtoms(texts[..upTo])
  {
    if upTo > 0 {
      RestrictionsUpTo(atoms, texts, upTo - 1);
      assert texts[..upTo][..upTo - 1] == texts[..upTo - 1];
    }
  }

  /** The columns that are not NULL, in index order. */
  function NonNull(nulls: seq<bool>, upTo: nat): seq<nat>
    requires upTo <= |nulls|
  {
    if upTo == 0 then [] else NonNull(nulls, upTo - 1) + (if nulls[upTo - 1] then [] else [upTo])
  }

  lemma NonNullRange(nulls: seq<bool>, upTo: nat)
    requires upTo <= |nulls|
    ensures |NonNull(nulls, upTo)| <= upTo
    ensures forall k :: 0 <= k < |NonNull(nulls, upTo)| ==>
              1 <= NonNull(nulls, upTo)[k] <= upTo && !nulls[NonNull(nulls, upTo)[k] - 1]
  {
  }

  lemma {:induction false} RestrictionsHaveNoPlaceholder(texts: seq<string>)
    ensures Placeholders(RestrictionAtoms(texts)) == []
  {
    if texts != [] {
      RestrictionsHaveNoPlaceholder(texts[..|texts| - 1]);
      var last := texts[|texts| - 1];
      PlaceholdersAppend(RestrictionAtoms(texts[..|texts| - 1]), if last == "" then [] else [Restriction(last)]);
    }
  }

  /** Every placeholder of a generated statement comes from a column that is not NULL, in index
      order, and from nothing else, whatever the NULL pattern and the filters. */
  lemma {:induction false} PlaceholdersAreNonNullColumns(
      cols: seq<Column>, nulls: seq<bool>, level: nat, fwd: bool, free: bool, upTo: nat, texts: seq<string>)
    requires upTo <= |cols| == |nulls|
    ensures Placeholders(ColumnAtoms(cols, nulls, level, fwd, free, upTo)) == NonNull(nulls, upTo)
    ensures Placeholders(ColumnAtoms(cols, nulls, level, fwd, free, upTo) + RestrictionAtoms(texts))
            == NonNull(nulls, upTo)
  {
    hide Placeholders, ColumnAtom, RestrictionAtoms;
    if upTo > 0 {
      ColumnPlaceholder(cols, nulls, level, fwd, free, upTo);
      PlaceholdersAreNonNullColumns(cols, nulls, level, fwd, free, upTo - 1, texts);
      PlaceholdersAppend(ColumnAtoms(cols, nulls, level, fwd, free, upTo - 1),
                         ColumnAtom(cols, nulls, level, fwd, free, upTo));
    }
    assert Placeholders(ColumnAtoms(cols, nulls, level, fwd, free, upTo)) == NonNull(nulls, upTo) by {
      if upTo == 0 { NoPlaceholders(); }
    }
    RestrictionsHaveNoPlaceholder(texts);
    PlaceholdersAppend(ColumnAtoms(cols, nulls, level, fwd, free, upTo), RestrictionAtoms(texts));
  }

  lemma NoPlaceholders()
    ensures Placeholders([]) == []
  {
  }

  lemma ColumnPlaceholder(cols: seq<Column>, nulls: seq<bool>, level: nat, fwd: bool, free: bool, c: nat)
    requires 1 <= c <= |cols| == |nulls|
    ensures Placeholders(ColumnAtom(cols, nulls, level, fwd, free, c)) == if nulls[c - 1] then [] else [c]
  {
  }

  /** The values bound to the statement: the current row's value of each placeholder column. */
  function Params(nulls: seq<bool>, cur: seq<int>, upTo: nat): seq<int>
    requires upTo <= |nulls| == |cur|
  {
    if upTo == 0 then [] else Params(nulls, cur, upTo - 1) + (if nulls[upTo - 1] then [] else [cur[upTo - 1]])
  }

  /** What column `c` of a matching row must satisfy at level `level`. */
  predicate ColumnMatches(cols: seq<Column>, nulls: seq<bool>, level: nat, fwd: bool, free: bool,
                          cur: seq<int>, row: Row, c: nat)
    requires 1 <= c <= |cols| == |nulls| == |cur|
  {
    var x := Field(row, c);
    if !nulls[c - 1] then Sat(if c == level then LastOp(fwd) else Eq, x, cur[c - 1])
    else if c < level then x.Null?
    else if cols[c - 1].ctype.Double? then x.Null? || Sat(LastOp(fwd), x, 0)
    else free || x.Null?
  }

  /** With its parameters bound in order, the generated WHERE clause selects exactly the rows
      that satisfy every column's condition and every active filter. */
  lemma {:induction false} WhereMeaning(cols: seq<Column>, nulls: seq<bool>, level: nat, fwd: bool, free: bool,
                                        cur: seq<int>, row: Row, upTo: nat, texts: seq<string>)
    requires upTo <= level <= |cols| == |nulls| == |cur|
    ensures Eval(ColumnAtoms(cols, nulls, level, fwd, free, upTo) + RestrictionAtoms(texts), row,
                 Params(nulls, cur, upTo))
            <==> (forall c :: 1 <= c <= upTo ==> ColumnMatches(cols, nulls, level, fwd, free, cur, row, c))
                 && (forall i :: 0 <= i < |texts| && texts[i] != "" ==> texts[i] in row.meets)
  {
    PlaceholdersAreNonNullColumns(cols, nulls, level, fwd, free, upTo, texts);
    ParamsMatch(nulls, cur, upTo);
    EvalAppend(ColumnAtoms(cols, nulls, level, fwd, free, upTo), RestrictionAtoms(texts), row,
               Params(nulls, cur, upTo), []);
    assert Params(nulls, cur, upTo) + [] == Params(nulls, cur, upTo);
    ColumnsMeaning(cols, nulls, level, fwd, free, cur, row, upTo);
    RestrictionsMeaning(texts, row);
  }

  lemma ParamsMatch(nulls: seq<bool>, cur: seq<int>, upTo: nat)
    requires upTo <= |nulls| == |cur|
    ensures |Params(nulls, cur, upTo)| == |NonNull(nulls, upTo)|
    ensures forall k :: 0 <= k < |NonNull(nulls, upTo)| ==>
              1 <= NonNull(nulls, upTo)[k] <= upTo && Params(nulls, cur, upTo)[k] == cur[NonNull(nulls, upTo)[k] - 1]
  {
  }

  lemma ColumnMeaning(cols: seq<Column>, nulls: seq<bool>, level: nat, fwd: bool, free: bool,
                      cur: seq<int>, row: Row, c: nat)
    requires 1 <= c <= level <= |cols| == |nulls| == |cur|
    ensures Eval(ColumnAtom(cols, nulls, level, fwd, free, c), row, if nulls[c - 1] then [] else [cur[c - 1]])
            <==> ColumnMatches(cols, nulls, level, fwd, free, cur, row, c)
  {
    var atoms := ColumnAtom(cols, nulls, level, fwd, free, c);
    if atoms != [] {
      assert atoms[1..] == [];
    }
  }

  lemma {:induction false} ColumnsMeaning(cols: seq<Column>, nulls: seq<bool>, level: nat, fwd: bool, free: bool,
                                          cur: seq<int>, row: Row, upTo: nat)
    requires upTo <= level <= |cols| == |nulls| == |cur|
    ensures Eval(ColumnAtoms(cols, nulls, level, fwd, free, upTo), row, Params(nulls, cur, upTo))
            <==> forall c :: 1 <= c <= upTo ==> ColumnMatches(cols, nulls, level, fwd, free, cur, row, c)
  {
    hide Eval, Placeholders, ColumnMatches, ColumnAtom;
    if upTo == 0 {
      EvalNothing(row);
    } else {
      var front := ColumnAtoms(cols, nulls, level, fwd, free, upTo - 1);
      var last := ColumnAtom(cols, nulls, level, fwd, free, upTo);
      var p, q := Params(nulls, cur, upTo - 1), if nulls[upTo - 1] then [] else [cur[upTo - 1]];
      ColumnsMeaning(cols, nulls, level, fwd, free, cur, row, upTo - 1);
      ColumnMeaning(cols, nulls, level, fwd, free, cur, row, upTo);
      assert |Placeholders(front)| == |p| by {
        PlaceholdersAreNonNullColumns(cols, nulls, level, fwd, free, upTo - 1, []);
        ParamsMatch(nulls, cur, upTo - 1);
      }
      EvalAppend(front, last, row, p, q);
    }
  }

  lemma EvalNothing(row: Row)
    ensures Eval([], row, [])
  {
  }

  lemma {:induction false} RestrictionsMeaning(texts: seq<string>, row: Row)
    ensures Eval(RestrictionAtoms(texts), row, []) <==>
            forall i :: 0 <= i < |texts| && texts[i] != "" ==> texts[i] in row.meets
  {
    if texts != [] {
      var front, last := texts[..|texts| - 1], texts[|texts| - 1];
      RestrictionsMeaning(front, row);
      RestrictionsHaveNoPlaceholder(front);
      var tail := if last == "" then [] else [Restriction(last)];
      var none: seq<int> := [];
      EvalAppend(RestrictionAtoms(front), tail, row, none, none);
      assert none + none == none;
      assert Eval(tail, row, []) <==> (last != "" ==> last in row.meets) by {
        if tail != [] { assert tail[1..] == []; }
      }
      assert forall i :: 0 <= i < |front| ==> texts[i] == front[i];
    }
  }

  /** The current record as a table row that passes every filter. */
  function CurrentRow(nulls: seq<bool>, cur: seq<int>, texts: seq<string>): (row: Row)
    requires |nulls| == |cur|
    ensures |row.values| == |cur|
  {
    Row(seq(|cur|, i requires 0 <= i < |cur| => if nulls[i] then Null else Val(cur[i])), set t | t in texts)
  }

  /** A clause built when the columns `was` were NULL, reused for a record whose NULL columns `now`
      are among them, selects what the clause of that record's own level would select if and only
      if none of the level's columns went from NULL to a value. */
  lemma ReusedClauseExact(cols: seq<Column>, was: seq<bool>, now: seq<bool>, level: nat, fwd: bool, free: bool,
                          cur: seq<int>, texts: seq<string>)
    requires 1 <= level <= |cols| == |was| == |now| == |cur|
    requires forall i :: 0 <= i < level && now[i] ==> was[i]
    ensures (forall row :: Selects(cols, was, level, fwd, free, cur, texts, row)
                           == Selects(cols, now, level, fwd, free, cur, texts, row))
            <==> forall i :: 0 <= i < level && was[i] ==> now[i]
  {
    hide Selects;
    if i :| 0 <= i < level && was[i] && !now[i] {
      StaleClauseDiffers(cols, was, now, level, fwd, free, cur, texts, i);
    } else {
      forall row ensures Selects(cols, was, level, fwd, free, cur, texts, row)
                         == Selects(cols, now, level, fwd, free, cur, texts, row)
      {
        SelectsMeaning(cols, was, level, fwd, free, cur, texts, row);
        SelectsMeaning(cols, now, level, fwd, free, cur, texts, row);
        forall c | 1 <= c <= level
          ensures ColumnMatches(cols, was, level, fwd, free, cur, row, c)
                  <==> ColumnMatches(cols, now, level, fwd, free, cur, row, c)
        {
          assert was[c - 1] == now[c - 1];
        }
      }
    }
  }

  /** The clause of a level, for given NULL columns and a current record, holds of a row. */
  predicate Selects(cols: seq<Column>, nulls: seq<bool>, level: nat, fwd: bool, free: bool, cur: seq<int>,
                    texts: seq<string>, row: Row)
    requires level <= |cols| == |nulls| == |cur|
  {
    Eval(ColumnAtoms(cols, nulls, level, fwd, free, level) + RestrictionAtoms(texts), row, Params(nulls, cur, level))
  }

  lemma SelectsMeaning(cols: seq<Column>, nulls: seq<bool>, level: nat, fwd: bool, free: bool, cur: seq<int>,
                       texts: seq<string>, row: Row)
    requires level <= |cols| == |nulls| == |cur|
    ensures Selects(cols, nulls, level, fwd, free, cur, texts, row)
            <==> (forall c :: 1 <= c <= level ==> ColumnMatches(cols, nulls, level, fwd, free, cur, row, c))
                 && (forall i :: 0 <= i < |texts| && texts[i] != "" ==> texts[i] in row.meets)
  {
    hide Eval, ColumnAtoms, RestrictionAtoms, Params, ColumnMatches;
    WhereMeaning(cols, nulls, level, fwd, free, cur, row, level, texts);
  }

  /** The witness: the current record itself, or the same with the level's last column NULL. */
  lemma StaleClauseDiffers(cols: seq<Column>, was: seq<bool>, now: seq<bool>, level: nat, fwd: bool, free: bool,
                           cur: seq<int>, texts: seq<string>, i: nat)
    requires 1 <= level <= |cols| == |was| == |now| == |cur| && i < level && was[i] && !now[i]
    requires forall j :: 0 <= j < level && now[j] ==> was[j]
    ensures exists row :: Selects(cols, was, level, fwd, free, cur, texts, row)
                          != Selects(cols, now, level, fwd, free, cur, texts, row)
  {
    hide Selects;
    if i < level - 1 {
      var row := CurrentRow(now, cur, texts);
      SelectsMeaning(cols, was, level, fwd, free, cur, texts, row);
      SelectsMeaning(cols, now, level, fwd, free, cur, texts, row);
      assert !ColumnMatches(cols, was, level, fwd, free, cur, row, i + 1);
    } else if j :| 0 <= j < level - 1 && was[j] && !now[j] {
      StaleClauseDiffers(cols, was, now, level, fwd, free, cur, texts, j);
    } else {
      var row := CurrentRow(now[i := true], cur, texts);
      SelectsMeaning(cols, was, level, fwd, free, cur, texts, row);
      SelectsMeaning(cols, now, level, fwd, free, cur, texts, row);
      assert !ColumnMatches(cols, now, level, fwd, free, cur, row, level);
    }
  }

  function Key2Row(key: seq<int>, meets: set<string>): Row {
    Row(seq(|key|, i requires 0 <= i < |key| => Val(key[i])), meets)
  }

  /** Without NULLs, the clause of level `level` is the level predicate of the index order,
      restricted to the rows that pass the filters. */
  lemma WhereIsLevel(cols: seq<Column>, level: nat, fwd: bool, free: bool, cur: Key, row: Key,
                     meets: set<string>, texts: seq<string>)
    requires 1 <= level <= |cols| == |cur| == |row|
    ensures var nulls := seq(|cols|, _ => false);
            Eval(ColumnAtoms(cols, nulls, level, fwd, free, level) + RestrictionAtoms(texts),
                 Key2Row(row, meets), Params(nulls, cur, level))
            <==> InLevel(fwd, level, cur, row) && (forall i :: 0 <= i < |texts| && texts[i] != "" ==> texts[i] in meets)
  {
    var nulls := seq(|cols|, _ => false);
    var r := Key2Row(row, meets);
    WhereMeaning(cols, nulls, level, fwd, free, cur, r, level, texts);
    assert forall c :: 1 <= c < level ==> (ColumnMatches(cols, nulls, level, fwd, free, cur, r, c)
           <==> row[c - 1] == cur[c - 1]);
    assert ColumnMatches(cols, nulls, level, fwd, free, cur, r, level) <==> !Lt(fwd, row[level - 1], cur[level - 1]);
    if forall c :: 1 <= c < level ==> ColumnMatches(cols, nulls, level, fwd, free, cur, r, c) {
      assert forall i :: 0 <= i < level - 1 ==> row[i] == cur[i] by {
        forall i | 0 <= i < level - 1 ensures row[i] == cur[i] {
          assert ColumnMatches(cols, nulls, level, fwd, free, cur, r, i + 1);
        }
      }
      assert row[..level - 1] == cur[..level - 1];
    } else {
      var c :| 1 <= c < level && !ColumnMatches(cols, nulls, level, fwd, free, cur, r, c);
      assert row[..level - 1][c - 1] != cur[..level - 1][c - 1];
    }
  }
}
