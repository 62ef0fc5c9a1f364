/** The seek clause that the statement generator writes, read as the column conditions of a
    character seek: texts are compared through their rank among texts of the same width. */
module SeekClause {
  import opened Common
  import opened Keys
  import opened Query
  import Seek

  ghost predicate AreBytes(s: Bytes) {
    forall i :: 0 <= i < |s| ==> 0 <= s[i] < 256
  }

  function Pow256(n: nat): (r: nat)
    ensures r >= 1
  {
    if n == 0 then 1 else 256 * Pow256(n - 1)
  }

  /** The place of a text among all texts of its width, in binary collation. */
  function Rank(s: Bytes): int {
    if s == [] then 0 else s[0] * Pow256(|s| - 1) + Rank(s[1..])
  }

  lemma {:induction false} RankRange(s: Bytes)
    requires AreBytes(s)
    ensures 0 <= Rank(s) < Pow256(|s|)
  {
    if s != [] {
      RankRange(s[1..]);
      Digit(s[0], Rank(s[1..]), Pow256(|s| - 1));
    }
  }

  lemma Digit(d: int, rest: int, unit: nat)
    requires 0 <= d < 256 && 0 <= rest < unit
    ensures 0 <= d * unit + rest < 256 * unit
  {
    assert 0 <= d * unit <= 255 * unit;
  }

  lemma DigitOrder(d: int, e: int, x: int, y: int, unit: nat)
    requires 0 <= x < unit && 0 <= y < unit
    ensures d < e ==> d * unit + x < e * unit + y
  {
    if d < e {
      Times(e - d, unit);
      assert e * unit == d * unit + (e - d) * unit;
    }
  }

  lemma Times(k: int, unit: nat)
    requires k >= 1
    ensures k * unit >= unit
  {
    assert (k - 1) * unit >= 0;
  }

  /** Ranks order texts of one width as their bytes do. */
  lemma {:induction false} RankOrder(a: Bytes, b: Bytes)
    requires |a| == |b| && AreBytes(a) && AreBytes(b)
    ensures Before(true, a, b) <==> Rank(a) < Rank(b)
    ensures a == b <==> Rank(a) == Rank(b)
  {
    if a != [] {
      var x, y, unit := Rank(a[1..]), Rank(b[1..]), Pow256(|a| - 1);
      RankOrder(a[1..], b[1..]);
      RankRange(a[1..]);
      RankRange(b[1..]);
      DigitOrder(a[0], b[0], x, y, unit);
      DigitOrder(b[0], a[0], y, x, unit);
      assert a == [a[0]] + a[1..] && b == [b[0]] + b[1..];
    }
  }

  /** Column `i` of an index key. */
  function Column(widths: seq<nat>, key: Bytes, i: nat): (c: Bytes)
    requires |key| == Seek.Total(widths) && i < |widths|
    ensures |c| == widths[i]
    ensures AreBytes(key) ==> AreBytes(c)
  {
    if i == 0 then key[..widths[0]] else Column(widths[1..], key[widths[0]..], i - 1)
  }

  /** What a piece is compared as in its column. */
  function Want(widths: seq<nat>, pieces: seq<Bytes>, i: nat): (w: Bytes)
    requires i < |pieces| <= |widths|
    ensures |w| == widths[i]
  {
    Seek.Padded(Seek.Bound(pieces[i]), widths[i])
  }

  lemma WantIsBytes(widths: seq<nat>, pieces: seq<Bytes>, i: nat)
    requires i < |pieces| <= |widths| && AreBytes(pieces[i])
    ensures AreBytes(Want(widths, pieces, i))
  {
    var n := Seek.TrimmedLength(pieces[i]);
    assert AreBytes(pieces[i][..n]);
  }

  /** The condition on column `i`: equal to its piece, or at or after it when the piece is the last. */
  predicate ColumnFits(widths: seq<nat>, pieces: seq<Bytes>, key: Bytes, i: nat)
    requires i < |pieces| <= |widths| && |key| == Seek.Total(widths)
  {
    if i < |pieces| - 1 then Column(widths, key, i) == Want(widths, pieces, i)
    else !Before(true, Column(widths, key, i), Want(widths, pieces, i))
  }

  lemma NextFits(widths: seq<nat>, pieces: seq<Bytes>, key: Bytes, i: nat)
    requires i + 1 < |pieces| <= |widths| && |key| == Seek.Total(widths)
    ensures ColumnFits(widths, pieces, key, i + 1) <==> ColumnFits(widths[1..], pieces[1..], key[widths[0]..], i)
  {
    hide Before, Want;
    WantShifts(widths, pieces, i);
    assert Column(widths, key, i + 1) == Column(widths[1..], key[widths[0]..], i);
  }

  lemma WantShifts(widths: seq<nat>, pieces: seq<Bytes>, i: nat)
    requires i + 1 < |pieces| <= |widths|
    ensures Want(widths, pieces, i + 1) == Want(widths[1..], pieces[1..], i)
  {
  }

  /** The seek's matching rule, column by column. */
  lemma {:induction false} MatchesColumns(widths: seq<nat>, pieces: seq<Bytes>, key: Bytes)
    requires pieces != [] && |pieces| <= |widths| && |key| == Seek.Total(widths)
    ensures Seek.Matches(widths, pieces, key) <==> forall i :: 0 <= i < |pieces| ==> ColumnFits(widths, pieces, key, i)
  {
    MatchesFirst(widths, pieces, key);
    if |pieces| > 1 {
      hide Seek.Matches, ColumnFits;
      MatchesColumns(widths[1..], pieces[1..], key[widths[0]..]);
      FitsShifted(widths, pieces, key);
    }
  }

  lemma FitsShifted(widths: seq<nat>, pieces: seq<Bytes>, key: Bytes)
    requires 1 < |pieces| <= |widths| && |key| == Seek.Total(widths)
    ensures (forall i :: 0 <= i < |pieces| ==> ColumnFits(widths, pieces, key, i))
            <==> ColumnFits(widths, pieces, key, 0)
                 && forall i :: 0 <= i < |pieces[1..]| ==> ColumnFits(widths[1..], pieces[1..], key[widths[0]..], i)
  {
    hide ColumnFits;
    var w, p, k := widths[1..], pieces[1..], key[widths[0]..];
    if forall i :: 0 <= i < |pieces| ==> ColumnFits(widths, pieces, key, i) {
      forall i | 0 <= i < |p| ensures ColumnFits(w, p, k, i) {
        NextFits(widths, pieces, key, i);
      }
    } else if ColumnFits(widths, pieces, key, 0) {
      var i :| 0 <= i < |pieces| && !ColumnFits(widths, pieces, key, i);
      NextFits(widths, pieces, key, i - 1);
    }
  }

  lemma MatchesFirst(widths: seq<nat>, pieces: seq<Bytes>, key: Bytes)
    requires pieces != [] && |pieces| <= |widths| && |key| == Seek.Total(widths)
    ensures Seek.Matches(widths, pieces, key)
            <==> ColumnFits(widths, pieces, key, 0)
                 && (|pieces| == 1 || Seek.Matches(widths[1..], pieces[1..], key[widths[0]..]))
  {
    hide Before, Seek.Bound, Seek.Padded;
  }

  /** A table row, and the values bound to the seek, as ranks. */
  function RankedRow(widths: seq<nat>, key: Bytes, meets: set<string>): Row
    requires |key| == Seek.Total(widths)
  {
    Row(seq(|widths|, i requires 0 <= i < |widths| => Val(Rank(Column(widths, key, i)))), meets)
  }

  function RankedPieces(widths: seq<nat>, pieces: seq<Bytes>): (r: seq<int>)
    requires |pieces| <= |widths|
    ensures |r| == |widths|
  {
    seq(|widths|, i requires 0 <= i < |widths| => if i < |pieces| then Rank(Want(widths, pieces, i)) else 0)
  }

  /** The clause generated for a forward seek over the columns of the pieces, with no NULL argument
      and the pieces bound to it, selects exactly the rows the seek's matching rule selects, among
      those that pass the filters. */
  lemma GeneratedClauseMatches(cols: seq<Query.Column>, widths: seq<nat>, pieces: seq<Bytes>, key: Bytes,
                               meets: set<string>, texts: seq<string>)
    requires pieces != [] && |pieces| <= |widths| == |cols| && |key| == Seek.Total(widths)
    requires AreBytes(key) && forall i :: 0 <= i < |pieces| ==> AreBytes(pieces[i])
    ensures var level, nulls := |pieces|, seq(|cols|, _ => false);
            Eval(ColumnAtoms(cols, nulls, level, true, true, level) + RestrictionAtoms(texts),
                 RankedRow(widths, key, meets), Params(nulls, RankedPieces(widths, pieces), level))
            <==> Seek.Matches(widths, pieces, key)
                 && forall i :: 0 <= i < |texts| && texts[i] != "" ==> texts[i] in meets
  {
    hide Eval, ColumnAtoms, RestrictionAtoms, Params, Seek.Matches, ColumnMatches, ColumnFits;
    var level, nulls := |pieces|, seq(|cols|, _ => false);
    var row, cur := RankedRow(widths, key, meets), RankedPieces(widths, pieces);
    WhereMeaning(cols, nulls, level, true, true, cur, row, level, texts);
    MatchesColumns(widths, pieces, key);
    forall i | 0 <= i < level
      ensures ColumnMatches(cols, nulls, level, true, true, cur, row, i + 1) <==> ColumnFits(widths, pieces, key, i)
    {
      RankedColumn(cols, widths, pieces, key, meets, i);
    }
    forall c | 1 <= c <= level
      ensures ColumnMatches(cols, nulls, level, true, true, cur, row, c) <==> ColumnFits(widths, pieces, key, c - 1)
    {
      assert ColumnMatches(cols, nulls, level, true, true, cur, row, (c - 1) + 1)
             <==> ColumnFits(widths, pieces, key, c - 1);
    }
  }

  lemma RankedColumn(cols: seq<Query.Column>, widths: seq<nat>, pieces: seq<Bytes>, key: Bytes, meets: set<string>,
      i: nat)
    requires i < |pieces| <= |widths| == |cols| && |key| == Seek.Total(widths)
    requires AreBytes(key) && AreBytes(pieces[i])
    ensures ColumnMatches(cols, seq(|cols|, _ => false), |pieces|, true, true, RankedPieces(widths, pieces),
                          RankedRow(widths, key, meets), i + 1)
            <==> ColumnFits(widths, pieces, key, i)
  {
    hide Rank, Before, Column, Want;
    WantIsBytes(widths, pieces, i);
    RankOrder(Column(widths, key, i), Want(widths, pieces, i));
  }
}
