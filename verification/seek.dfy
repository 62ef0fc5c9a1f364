/** Seeking a character key: the key is cut over the index columns, each piece is bound to a
    lower-bound query, and the record found is checked by comparing key prefixes. */
module Seek {
  import opened Common
  import opened Keys

  const BLANK := 32

  // ----- the index key and its order

  function Total(widths: seq<nat>): nat {
    if widths == [] then 0 else widths[0] + Total(widths[1..])
  }

  /** A row: its index key, the concatenation of the blank-padded columns, and its number. */
  datatype Row = Row(key: Bytes, recno: int)

  /** Every column at its width, every byte at or above the blank. */
  ghost predicate ValidRow(widths: seq<nat>, row: Row) {
    |row.key| == Total(widths) && forall i :: 0 <= i < |row.key| ==> BLANK <= row.key[i] < 256
  }

  ghost predicate PositiveWidths(widths: seq<nat>) {
    widths != [] && forall i :: 0 <= i < |widths| ==> widths[i] > 0
  }

  /** ORDER BY column 1, column 2, ...: the binary collation, column by column. */
  predicate ColumnsBefore(widths: seq<nat>, a: Bytes, b: Bytes)
    requires |a| == |b| == Total(widths)
  {
    widths != [] &&
    var w := widths[0];
    Before(true, a[..w], b[..w]) || (a[..w] == b[..w] && ColumnsBefore(widths[1..], a[w..], b[w..]))
  }

  ghost predicate IndexOrder(widths: seq<nat>, rows: seq<Row>) {
    && (forall i :: 0 <= i < |rows| ==> ValidRow(widths, rows[i]))
    && (forall i, j :: 0 <= i < j < |rows| ==> !ColumnsBefore(widths, rows[j].key, rows[i].key))
  }

  /** Comparing a long key is comparing its head, then its tail. */
  lemma {:induction false} BeforeSplit(a: Bytes, b: Bytes, m: nat)
    requires |a| == |b| && m <= |a|
    ensures Before(true, a, b) <==> Before(true, a[..m], b[..m]) || (a[..m] == b[..m] && Before(true, a[m..], b[m..]))
  {
    if m == 0 {
      assert a[0..] == a && b[0..] == b;
    } else {
      BeforeSplit(a[1..], b[1..], m - 1);
      HeadAndTail(a, m);
      HeadAndTail(b, m);
    }
  }

  lemma HeadAndTail(a: Bytes, m: nat)
    requires 1 <= m <= |a|
    ensures a[..m] == [a[0]] + a[1..][..m - 1] && a[..m][1..] == a[1..][..m - 1] && a[1..][m - 1..] == a[m..]
  {
  }

  /** Fixed widths: the column order is the byte order of the concatenated keys. */
  lemma {:induction false} ColumnOrderIsKeyOrder(widths: seq<nat>, a: Bytes, b: Bytes)
    requires |a| == |b| == Total(widths)
    ensures ColumnsBefore(widths, a, b) <==> Before(true, a, b)
  {
    if widths != [] {
      BeforeSplit(a, b, widths[0]);
      ColumnOrderIsKeyOrder(widths[1..], a[widths[0]..], b[widths[0]..]);
    }
  }

  // ----- cutting the key

  /** The level at which the cumulative width reaches the key length, else the last column. */
  function QueryLevel(widths: seq<nat>, key: Bytes): (level: nat)
    requires widths != []
    ensures 1 <= level <= |widths|
  {
    if |widths| == 1 || |key| <= widths[0] then 1 else 1 + QueryLevel(widths[1..], key[widths[0]..])
  }

  function Piece(width: nat, key: Bytes): Bytes {
    if |key| > width then key[..width] else key
  }

  function Pieces(widths: seq<nat>, key: Bytes): (pieces: seq<Bytes>)
    requires widths != []
    ensures |pieces| == QueryLevel(widths, key)
  {
    if |widths| == 1 || |key| <= widths[0] then [Piece(widths[0], key)]
    else [Piece(widths[0], key)] + Pieces(widths[1..], key[widths[0]..])
  }

  function Concat(pieces: seq<Bytes>): Bytes {
    if pieces == [] then [] else pieces[0] + Concat(pieces[1..])
  }

  /** One column of the cut. */
  lemma PiecesStep(widths: seq<nat>, key: Bytes)
    requires widths != []
    ensures var pieces := Pieces(widths, key);
            && pieces[0] == Piece(widths[0], key)
            && (|pieces| > 1 <==> |widths| > 1 && |key| > widths[0])
            && (|pieces| > 1 ==> pieces[1..] == Pieces(widths[1..], key[widths[0]..]))
  {
  }

  /** The pieces partition the key, or its prefix of the total width; every piece before the last
      fills its column. */
  lemma {:induction false} PiecesPartition(widths: seq<nat>, key: Bytes)
    requires widths != []
    ensures var pieces := Pieces(widths, key);
            && Concat(pieces) == (if |key| <= Total(widths) then key else key[..Total(widths)])
            && (forall i :: 0 <= i < |pieces| - 1 ==> |pieces[i]| == widths[i])
            && |pieces[|pieces| - 1]| <= widths[|pieces| - 1]
  {
    hide Pieces, QueryLevel;
    PiecesStep(widths, key);
    var w, pieces := widths[0], Pieces(widths, key);
    if |pieces| == 1 {
      assert pieces[1..] == [];
    } else {
      var rest, tail := widths[1..], key[w..];
      PiecesPartition(rest, tail);
      assert forall i :: 0 <= i < |pieces| - 1 ==> pieces[i + 1] == pieces[1..][i] && widths[i + 1] == rest[i];
      assert key[..w] + tail == key;
      assert |tail| > Total(rest) ==> key[..w] + tail[..Total(rest)] == key[..Total(widths)];
    }
  }

  /** The level is the least one whose cumulative width reaches the key, else the last. */
  lemma {:induction false} LevelIsLeast(widths: seq<nat>, key: Bytes)
    requires widths != []
    ensures forall l :: 1 <= l < QueryLevel(widths, key) ==> Total(widths[..l]) < |key|
    ensures QueryLevel(widths, key) < |widths| ==> |key| <= Total(widths[..QueryLevel(widths, key)])
  {
    TotalPrefix(widths, 1);
    assert widths[1..][..0] == [];
    if |widths| > 1 && |key| > widths[0] {
      LevelIsLeast(widths[1..], key[widths[0]..]);
      forall l | 1 <= l <= |widths| ensures Total(widths[..l]) == widths[0] + Total(widths[1..][..l - 1]) {
        TotalPrefix(widths, l);
      }
    }
  }

  lemma TotalPrefix(widths: seq<nat>, l: nat)
    requires 1 <= l <= |widths|
    ensures Total(widths[..l]) == widths[0] + Total(widths[1..][..l - 1])
  {
    assert widths[..l][1..] == widths[1..][..l - 1];
  }

  // ----- binding a piece

  function TrimmedLength(s: Bytes): (n: nat)
    ensures n <= |s|
    ensures n > 0 ==> s[n - 1] != BLANK
    ensures forall i :: n <= i < |s| ==> s[i] == BLANK
  {
    if s == [] || s[|s| - 1] != BLANK then |s| else TrimmedLength(s[..|s| - 1])
  }

  /** A bound string ends at its first NUL. */
  function CString(s: Bytes): (r: Bytes)
    ensures r <= s
    ensures 0 !in s ==> r == s
  {
    if s == [] || s[0] == 0 then [] else [s[0]] + CString(s[1..])
  }

  /** The text bound for a piece in a column that takes no NULL: one blank stands for nothing. */
  function Bound(piece: Bytes): Bytes {
    var n := TrimmedLength(piece);
    if n == 0 then [BLANK] else CString(piece[..n])
  }

  function Blanks(n: nat): Bytes {
    seq(n, _ => BLANK)
  }

  /** SQL comparison pads the shorter operand with blanks. */
  function Padded(value: Bytes, width: nat): (r: Bytes)
    ensures |r| == width
  {
    if |value| >= width then value[..width] else value + Blanks(width - |value|)
  }

  /** The WHERE clause of a forward seek: equal columns, and a last one at or after its piece. */
  predicate Matches(widths: seq<nat>, pieces: seq<Bytes>, key: Bytes)
    requires pieces != [] && |pieces| <= |widths| && |key| == Total(widths)
  {
    var w, p := widths[0], Padded(Bound(pieces[0]), widths[0]);
    if |pieces| == 1 then !Before(true, key[..w], p)
    else key[..w] == p && Matches(widths[1..], pieces[1..], key[w..])
  }

  /** What a piece of printable bytes is compared as. */
  lemma PaddedBound(piece: Bytes, width: nat)
    requires |piece| <= width && width > 0 && forall i :: 0 <= i < |piece| ==> piece[i] >= BLANK
    ensures |Bound(piece)| <= width && Padded(Bound(piece), width) == piece + Blanks(width - |piece|)
  {
    var n := TrimmedLength(piece);
    assert 0 !in piece[..n];
    if n > 0 {
      assert piece == piece[..n] + Blanks(|piece| - n);
    } else {
      assert piece == Blanks(|piece|);
    }
  }

  // ----- the record found

  /** sqlKeyCompareEx on character keys, not exact: lengths are kept in one byte. */
  predicate KeyCompare(recordKey: Bytes, key: Bytes) {
    var len1, len2 := |recordKey| % 256, |key| % 256;
    var limit := if len1 > len2 then len2 else len1;
    recordKey[..limit] == key[..limit] && len1 >= len2
  }

  /** The first matching row in index order, or |rows|. */
  function FirstMatch(widths: seq<nat>, pieces: seq<Bytes>, rows: seq<Row>): (i: nat)
    requires pieces != [] && |pieces| <= |widths|
    requires forall i :: 0 <= i < |rows| ==> |rows[i].key| == Total(widths)
    ensures i <= |rows| && (i < |rows| ==> Matches(widths, pieces, rows[i].key))
    ensures forall k :: 0 <= k < i ==> !Matches(widths, pieces, rows[k].key)
  {
    if rows == [] || Matches(widths, pieces, rows[0].key) then 0 else 1 + FirstMatch(widths, pieces, rows[1..])
  }

  /** A row whose key starts with the search key satisfies the generated clause. */
  lemma {:induction false} PrefixMatches(widths: seq<nat>, key: Bytes, k: Bytes)
    requires PositiveWidths(widths) && |key| <= |k| == Total(widths) && key <= k
    requires forall i :: 0 <= i < |k| ==> k[i] >= BLANK
    ensures Matches(widths, Pieces(widths, key), k)
  {
    var w := widths[0];
    var piece := Piece(w, key);
    assert forall i :: 0 <= i < |piece| ==> piece[i] == k[i];
    PaddedBound(piece, w);
    if |widths| == 1 || |key| <= w {
      TotalAtLeast(widths);
      NotBeforePadded(k[..w], piece);
    } else {
      assert k[..w] == key[..w] + Blanks(0);
      assert Pieces(widths, key)[1..] == Pieces(widths[1..], key[w..]);
      assert key[w..] <= k[w..];
      PrefixMatches(widths[1..], key[w..], k[w..]);
    }
  }

  lemma {:induction false} NotBeforeBlanks(s: Bytes)
    requires forall i :: 0 <= i < |s| ==> s[i] >= BLANK
    ensures !Before(true, s, Blanks(|s|))
  {
    if s != [] {
      NotBeforeBlanks(s[1..]);
      assert Blanks(|s|)[1..] == Blanks(|s| - 1);
    }
  }

  /** A printable field that starts with `piece` is not before `piece` padded. */
  lemma NotBeforePadded(field: Bytes, piece: Bytes)
    requires piece <= field && forall i :: 0 <= i < |field| ==> field[i] >= BLANK
    ensures !Before(true, field, piece + Blanks(|field| - |piece|))
  {
    var m, p := |piece|, piece + Blanks(|field| - |piece|);
    BeforeSplit(field, p, m);
    assert p[..m] == piece == field[..m] && p[m..] == Blanks(|field| - m);
    BeforeIsStrict(true, piece, piece);
    NotBeforeBlanks(field[m..]);
  }

  /** A matching row at or before a row that starts with the key starts with the key itself. */
  lemma {:induction false} BetweenIsPrefix(widths: seq<nat>, key: Bytes, x: Bytes, y: Bytes)
    requires PositiveWidths(widths) && |x| == |y| == Total(widths) && |key| <= |y| && key <= y
    requires forall i :: 0 <= i < |y| ==> y[i] >= BLANK
    requires Matches(widths, Pieces(widths, key), x) && !Before(true, y, x)
    ensures key <= x
  {
    var w := widths[0];
    if |widths| == 1 || |key| <= w {
      BetweenLast(widths, key, x, y);
    } else {
      BetweenFirst(widths, key, x, y);
      BetweenIsPrefix(widths[1..], key[w..], x[w..], y[w..]);
      PrefixFromParts(key, x, w);
    }
  }

  /** The seek clause, one column at a time. */
  lemma MatchesStep(widths: seq<nat>, key: Bytes, x: Bytes)
    requires widths != [] && |x| == Total(widths)
    ensures widths[0] <= |x|
    ensures var w := widths[0]; var p := Padded(Bound(Piece(w, key)), w);
            Matches(widths, Pieces(widths, key), x)
            <==> if |widths| == 1 || |key| <= w then !Before(true, x[..w], p)
                 else x[..w] == p && Matches(widths[1..], Pieces(widths[1..], key[w..]), x[w..])
  {
    hide Before, Bound, Padded;
    PiecesStep(widths, key);
  }

  /** The column in which the key ends. */
  lemma BetweenLast(widths: seq<nat>, key: Bytes, x: Bytes, y: Bytes)
    requires PositiveWidths(widths) && |x| == |y| == Total(widths) && |key| <= |y| && key <= y
    requires forall i :: 0 <= i < |y| ==> y[i] >= BLANK
    requires Matches(widths, Pieces(widths, key), x) && !Before(true, y, x) && (|widths| == 1 || |key| <= widths[0])
    ensures key <= x
  {
    hide Before, Bound, Padded, Matches, Pieces;
    var w := widths[0];
    TotalAtLeast(widths);
    MatchesStep(widths, key, x);
    EndsInField(key, x, y, w);
  }

  lemma EndsInField(key: Bytes, x: Bytes, y: Bytes, w: nat)
    requires |key| <= w <= |x| == |y| && w > 0 && key <= y && forall i :: 0 <= i < |y| ==> y[i] >= BLANK
    requires !Before(true, x[..w], Padded(Bound(key), w)) && !Before(true, y, x)
    ensures key <= x
  {
    hide Before, Bound, Padded;
    PaddedBound(key, w);
    BeforeSplit(y, x, w);
    LastPieceIsPrefix(key, x[..w], y[..w]);
    assert x[..w][..|key|] == x[..|key|];
  }

  /** A column the key fills, and goes on. */
  lemma BetweenFirst(widths: seq<nat>, key: Bytes, x: Bytes, y: Bytes)
    requires PositiveWidths(widths) && |x| == |y| == Total(widths) && |key| <= |y| && key <= y
    requires forall i :: 0 <= i < |y| ==> y[i] >= BLANK
    requires Matches(widths, Pieces(widths, key), x) && !Before(true, y, x) && |widths| > 1 && |key| > widths[0]
    ensures var w := widths[0];
            && x[..w] == key[..w] == y[..w] && !Before(true, y[w..], x[w..])
            && Matches(widths[1..], Pieces(widths[1..], key[w..]), x[w..])
  {
    hide Before, Bound, Padded, Matches, Pieces;
    MatchesStep(widths, key, x);
    FillsField(key, x, y, widths[0]);
  }

  lemma FillsField(key: Bytes, x: Bytes, y: Bytes, w: nat)
    requires 0 < w <= |key| <= |x| == |y| && key <= y && forall i :: 0 <= i < |y| ==> y[i] >= BLANK
    requires x[..w] == Padded(Bound(key[..w]), w) && !Before(true, y, x)
    ensures x[..w] == key[..w] == y[..w] && !Before(true, y[w..], x[w..])
  {
    hide Before, Bound, Padded;
    var piece := key[..w];
    assert forall i :: 0 <= i < w ==> piece[i] == y[i];
    PaddedBound(piece, w);
    BeforeSplit(y, x, w);
    assert piece + Blanks(0) == piece == y[..w];
  }

  lemma PrefixFromParts(key: Bytes, x: Bytes, w: nat)
    requires w <= |key| <= |x| && x[..w] == key[..w] && key[w..] <= x[w..]
    ensures key <= x
  {
    assert forall i :: w <= i < |key| ==> key[i] == key[w..][i - w] && x[i] == x[w..][i - w];
    assert forall i :: 0 <= i < w ==> key[i] == key[..w][i] && x[i] == x[..w][i];
  }

  lemma TotalAtLeast(widths: seq<nat>)
    requires widths != []
    ensures widths[0] <= Total(widths) && (|widths| == 1 ==> Total(widths) == widths[0])
  {
  }

  lemma LastPieceIsPrefix(piece: Bytes, x: Bytes, y: Bytes)
    requires piece <= y && |x| == |y| && !Before(true, x, piece + Blanks(|x| - |piece|)) && !Before(true, y, x)
    ensures piece <= x
  {
    var m, p := |piece|, piece + Blanks(|x| - |piece|);
    BeforeSplit(x, p, m);
    BeforeSplit(y, x, m);
    assert p[..m] == piece == y[..m];
    BeforeIsTotal(true, x[..m], piece);
  }

  /** The comparison is the prefix test on the first |key| % 256 bytes of the key, against a record
      key that is only as long as its low byte says. */
  lemma CompareIsPrefix(recordKey: Bytes, key: Bytes)
    ensures KeyCompare(recordKey, key) <==> key[..|key| % 256] <= recordKey && |key| % 256 <= |recordKey| % 256
  {
    var m := |key| % 256;
    if m <= |recordKey| % 256 {
      assert key[..m] <= recordKey <==> recordKey[..m] == key[..m];
    }
  }

  /** The first row the query returns is at or before every row that starts with the key, and
      starts with the key itself if there is one. */
  lemma FirstMatchStarts(widths: seq<nat>, key: Bytes, rows: seq<Row>, i: nat)
    requires PositiveWidths(widths) && IndexOrder(widths, rows) && i < |rows| && key <= rows[i].key
    ensures var r := FirstMatch(widths, Pieces(widths, key), rows); r <= i && key <= rows[r].key
  {
    hide FirstMatch, Matches, Pieces, ColumnsBefore, Before;
    var r := FirstMatch(widths, Pieces(widths, key), rows);
    assert ValidRow(widths, rows[i]);
    PrefixMatches(widths, key, rows[i].key);
    if r < i {
      assert ValidRow(widths, rows[r]) && !ColumnsBefore(widths, rows[i].key, rows[r].key);
      ColumnOrderIsKeyOrder(widths, rows[i].key, rows[r].key);
      BetweenIsPrefix(widths, key, rows[r].key, rows[i].key);
    }
  }

  /** Where a forward hard seek ends: on the row fetched if its key compares, else nowhere. */
  function Found(widths: seq<nat>, key: Bytes, rows: seq<Row>): (r: (bool, nat))
    requires widths != [] && forall i :: 0 <= i < |rows| ==> |rows[i].key| == Total(widths)
    ensures r.0 ==> r.1 < |rows|
  {
    var i := FirstMatch(widths, Pieces(widths, key), rows);
    (i < |rows| && KeyCompare(rows[i].key, key), i)
  }

  /** A forward hard seek over a printable table, for a key of any length: it reports success if
      and only if the query has a row and that row's key starts with the first |key| % 256 bytes
      of the search key, no more than the low byte of the key width; and if some record starts
      with the whole key, that row is the first such record in index order. */
  lemma SeekFinds(widths: seq<nat>, key: Bytes, rows: seq<Row>)
    requires PositiveWidths(widths) && IndexOrder(widths, rows)
    ensures forall i :: 0 <= i < |rows| ==> |rows[i].key| == Total(widths)
    ensures var (found, r) := Found(widths, key, rows);
            && (found <==> r < |rows| && key[..|key| % 256] <= rows[r].key && |key| % 256 <= Total(widths) % 256)
            && (forall i :: 0 <= i < |rows| && key <= rows[i].key ==> r <= i && key <= rows[r].key)
  {
    hide FirstMatch, Pieces, KeyCompare;
    assert forall i :: 0 <= i < |rows| ==> ValidRow(widths, rows[i]);
    var r := FirstMatch(widths, Pieces(widths, key), rows);
    if r < |rows| {
      CompareIsPrefix(rows[r].key, key);
    }
    forall i | 0 <= i < |rows| && key <= rows[i].key ensures r <= i && key <= rows[r].key {
      FirstMatchStarts(widths, key, rows, i);
    }
  }

  predicate SomeRowStarts(key: Bytes, rows: seq<Row>) {
    exists i :: 0 <= i < |rows| && key <= rows[i].key
  }

  /** For a key under 256 bytes: success if and only if some record's key starts with the search key
      and the search key is no longer than the low byte of the key width; the seek is then on the
      first such record in index order. */
  lemma SeekExact(widths: seq<nat>, key: Bytes, rows: seq<Row>)
    requires PositiveWidths(widths) && IndexOrder(widths, rows) && |key| < 256
    ensures forall i :: 0 <= i < |rows| ==> |rows[i].key| == Total(widths)
    ensures var (found, r) := Found(widths, key, rows);
            && (found <==> SomeRowStarts(key, rows) && |key| <= Total(widths) % 256)
            && (found ==> key <= rows[r].key && forall i :: 0 <= i < r ==> !(key <= rows[i].key))
  {
    hide Found;
    SeekFinds(widths, key, rows);
    assert key[..|key|] == key;
  }

  /** For a key of 256 bytes or more, the seek tells the truth if and only if some record starts
      with the key and the key's length modulo 256 fits the low byte of the width, or no record does
      and the query's row, if any, does not even start with that many bytes of the key.  A key of a
      multiple of 256 bytes is found in whatever row the query has. */
  lemma LongKeyExact(widths: seq<nat>, key: Bytes, rows: seq<Row>)
    requires PositiveWidths(widths) && IndexOrder(widths, rows) && |key| >= 256
    ensures forall i :: 0 <= i < |rows| ==> |rows[i].key| == Total(widths)
    ensures var (found, r) := Found(widths, key, rows); var m := |key| % 256;
            && ((found <==> SomeRowStarts(key, rows))
                <==> if SomeRowStarts(key, rows) then m <= Total(widths) % 256
                     else r >= |rows| || !(key[..m] <= rows[r].key) || m > Total(widths) % 256)
            && (m == 0 ==> (found <==> r < |rows|))
  {
    hide Found;
    SeekFinds(widths, key, rows);
    var r := Found(widths, key, rows).1;
    if i :| 0 <= i < |rows| && key <= rows[i].key {
      assert r <= i && key <= rows[r].key && key[..|key| % 256] <= key;
    }
  }

  // ----- the code

  /** What the columns hold after the first `upTo` pieces of the key were pushed to them. */
  ghost predicate Fed(nullable: seq<bool>, pieces: seq<Bytes>, upTo: nat, values0: seq<Bytes>, values: seq<Bytes>,
                      nulls0: seq<bool>, nulls: seq<bool>)
    requires upTo <= |pieces| <= |nullable| == |values0| == |nulls0|
  {
    && |values| == |nulls| == |nullable|
    && forall i :: 0 <= i < |nullable| ==>
         var empty := i < upTo && TrimmedLength(pieces[i]) == 0;
         && values[i] == (if i >= upTo then values0[i] else if empty then (if nullable[i] then [] else [BLANK])
                          else pieces[i][..TrimmedLength(pieces[i])])
         && nulls[i] == (if i >= upTo then nulls0[i] else if empty then (nullable[i] || nulls0[i]) else false)
  }

  lemma FedStep(nullable: seq<bool>, pieces: seq<Bytes>, i: nat, values0: seq<Bytes>, values: seq<Bytes>,
                nulls0: seq<bool>, nulls: seq<bool>, text: Bytes)
    requires i < |pieces| <= |nullable| == |values0| == |nulls0|
             && Fed(nullable, pieces, i, values0, values, nulls0, nulls)
    requires text == pieces[i][..TrimmedLength(pieces[i])]
    ensures |values| == |nulls| == |nullable|
    ensures var values' := values[i := if text != [] then text else if nullable[i] then [] else [BLANK]];
            var nulls' := nulls[i := text == [] && (nullable[i] || nulls[i])];
            && Fed(nullable, pieces, i + 1, values0, values', nulls0, nulls')
            && (nulls' != nulls0 <==> nulls != nulls0 || nulls'[i] != nulls[i])
  {
    var nulls' := nulls[i := text == [] && (nullable[i] || nulls[i])];
    assert nulls[i] == nulls0[i];
    if nulls'[i] == nulls[i] {
      assert nulls' == nulls;
    }
    if nulls != nulls0 {
      var k :| 0 <= k < |nulls| && nulls[k] != nulls0[k];
      assert nulls'[k] == nulls[k];
    }
  }

  lemma FedStart(nullable: seq<bool>, pieces: seq<Bytes>, values: seq<Bytes>, nulls: seq<bool>)
    requires |pieces| <= |nullable| == |values| == |nulls|
    ensures Fed(nullable, pieces, 0, values, values, nulls, nulls)
  {
  }

  /** The work area of a seek over a character index whose columns take no NULL, or do. */
  class SeekArea {
    const widths: seq<nat>
    const nullable: seq<bool>
    const rows: seq<Row>              // the table, in index order

    var values: seq<Bytes>            // asChar.value of each column
    var isArgumentNull: seq<bool>
    var rebuildSeekQuery: bool
    var recno: int
    var fFound: bool
    var fBof: bool
    var fEof: bool

    predicate Valid()
      reads this
    {
      && widths != [] && |widths| == |nullable| == |values| == |isArgumentNull|
      && forall i :: 0 <= i < |rows| ==> |rows[i].key| == Total(widths)
    }

    /** The RTrim() loop on one piece. */
    method Trim(s: Bytes) returns (n: nat)
      ensures n == TrimmedLength(s)
    {
      n := |s|;
      var index := |s| - 1;
      while index >= 0
        invariant -1 <= index < |s|
        invariant TrimmedLength(s) == TrimmedLength(s[..index + 1])
      {
        if s[index] == 0 || s[index] != BLANK {
          return index + 1;
        }
        assert s[..index + 1][..index] == s[..index];
        index := index - 1;
      }
      return 0;
    }

    /** What the trimmed piece does to the bindings of its column. */
    method PushPiece(i: nat, text: Bytes)
      requires Valid() && i < |widths|
      modifies this`values, this`isArgumentNull, this`rebuildSeekQuery
      ensures Valid()
      ensures values == old(values)[i := if text != [] then text else if nullable[i] then [] else [BLANK]]
      ensures isArgumentNull == old(isArgumentNull)[i := text == [] && (nullable[i] || old(isArgumentNull)[i])]
      ensures rebuildSeekQuery == (old(rebuildSeekQuery) || isArgumentNull[i] != old(isArgumentNull)[i])
    {
      if text == [] {
        if !nullable[i] {
          values := values[i := [BLANK]];
        } else {
          values := values[i := []];
          if !isArgumentNull[i] {
            rebuildSeekQuery := true;
          }
          isArgumentNull := isArgumentNull[i := true];
        }
      } else {
        values := values[i := text];
        if isArgumentNull[i] {
          rebuildSeekQuery := true;
          isArgumentNull := isArgumentNull[i := false];
        }
      }
    }

    /** SR_FeedSeekKeyToBindings, for a string key over character columns. */
    method FeedSeekKeyToBindings(key: Bytes) returns (queryLevel: nat)
      requires Valid()
      modifies this`values, this`isArgumentNull, this`rebuildSeekQuery
      ensures Valid() && queryLevel == QueryLevel(widths, key)
      ensures Fed(nullable, Pieces(widths, key), queryLevel, old(values), values, old(isArgumentNull), isArgumentNull)
      ensures rebuildSeekQuery == (old(rebuildSeekQuery) || isArgumentNull != old(isArgumentNull))
    {
      hide Pieces, QueryLevel, Total, TrimmedLength, Fed;
      var szKey := key;
      queryLevel := |widths|;
      var i := 0;
      ghost var pieces := Pieces(widths, key);
      FedStart(nullable, pieces, values, isArgumentNull);
      while i < |widths|
        invariant 0 <= i < |pieces| && Valid() && queryLevel == |widths|
        invariant Pieces(widths[i..], szKey) == pieces[i..]
        invariant Fed(nullable, pieces, i, old(values), values, old(isArgumentNull), isArgumentNull)
        invariant rebuildSeekQuery == (old(rebuildSeekQuery) || isArgumentNull != old(isArgumentNull))
        decreases |widths| - i
      {
        var size := if |szKey| > widths[i] then widths[i] else |szKey|;
        var piece := szKey[..size];
        PiecesStep(widths[i..], szKey);
        assert piece == pieces[i..][0];
        var n := Trim(piece);
        FedStep(nullable, pieces, i, old(values), values, old(isArgumentNull), isArgumentNull, piece[..n]);
        PushPiece(i, piece[..n]);
        szKey := szKey[size..];
        i := i + 1;
        if |szKey| <= 0 {
          queryLevel := i;
          return;
        }
        if i == |widths| {
          return;
        }
        assert widths[i - 1..][1..] == widths[i..] && pieces[i - 1..][1..] == pieces[i..];
      }
    }

    /** SR_getPreparedSeek: the first row of the query over the bound columns, or |rows|. */
    method FetchFirst(level: nat, ghost pieces: seq<Bytes>) returns (i: nat)
      requires Valid() && 1 <= level == |pieces| <= |widths|
      requires forall k :: 0 <= k < level ==> Bound(values[k]) == Bound(pieces[k])
      ensures i == FirstMatch(widths, pieces, rows)
    {
      hide Bound, FirstMatch, Before;
      i := 0;
      var texts := values[..level];
      while i < |rows| && !Matches(widths, texts, rows[i].key)
        invariant 0 <= i <= |rows|
        invariant forall k :: 0 <= k < i ==> !Matches(widths, pieces, rows[k].key)
      {
        MatchesByBound(widths, texts, pieces, rows[i].key);
        i := i + 1;
      }
      if i < |rows| {
        MatchesByBound(widths, texts, pieces, rows[i].key);
      }
      FirstMatchIs(widths, pieces, rows, i);
    }

    /** sqlExSeek, searching forward with no NULL column, no filter and SET DELETED off. */
    method Seek(softSeek: bool, key: Bytes)
      requires Valid() && forall i :: 0 <= i < |widths| ==> !nullable[i] && !isArgumentNull[i]
      modifies this
      ensures Valid()
      ensures var (found, r) := Found(widths, key, rows);
              && fFound == found
              && recno == (if r < |rows| then rows[r].recno else old(recno))
              && (fEof <==> r == |rows| || (!found && !softSeek))
              && fBof == (if found then false else old(fBof))
    {
      hide FirstMatch, Pieces, KeyCompare, Bound;
      fEof, fFound := false, false;
      var level := FeedSeekKeyToBindings(key);
      ghost var pieces := Pieces(widths, key);
      forall i | 0 <= i < level ensures Bound(values[i]) == Bound(pieces[i]) {
        BoundOfTrimmed(pieces[i]);
      }
      var i := FetchFirst(level, pieces);
      if i < |rows| {
        recno := rows[i].recno;
        if KeyCompare(rows[i].key, key) {
          fFound, fBof, fEof := true, false, false;
        } else {
          fFound := false;
          if !softSeek {
            fEof := true;
          }
        }
      } else {
        fEof := true;
        fFound := false;
      }
    }
  }

  /** Trimming first changes nothing of what is bound. */
  lemma BoundOfTrimmed(piece: Bytes)
    ensures Bound(piece[..TrimmedLength(piece)]) == Bound(piece) && Bound([BLANK]) == Bound([])
    ensures TrimmedLength(piece) == 0 ==> Bound([BLANK]) == Bound(piece)
  {
    var n := TrimmedLength(piece);
    if n > 0 {
      assert TrimmedLength(piece[..n]) == n && piece[..n][..n] == piece[..n];
    }
    assert [BLANK][..0] == [];
  }

  lemma {:induction false} MatchesByBound(widths: seq<nat>, a: seq<Bytes>, b: seq<Bytes>, key: Bytes)
    requires a != [] && |a| == |b| <= |widths| && |key| == Total(widths)
    requires forall i :: 0 <= i < |a| ==> Bound(a[i]) == Bound(b[i])
    ensures Matches(widths, a, key) <==> Matches(widths, b, key)
  {
    if |a| > 1 {
      MatchesByBound(widths[1..], a[1..], b[1..], key[widths[0]..]);
    }
  }

  lemma {:induction false} FirstMatchIs(widths: seq<nat>, pieces: seq<Bytes>, rows: seq<Row>, i: nat)
    requires pieces != [] && |pieces| <= |widths| && i <= |rows|
    requires forall k :: 0 <= k < |rows| ==> |rows[k].key| == Total(widths)
    requires (forall k :: 0 <= k < i ==> !Matches(widths, pieces, rows[k].key))
             && (i < |rows| ==> Matches(widths, pieces, rows[i].key))
    ensures FirstMatch(widths, pieces, rows) == i
  {
    var f := FirstMatch(widths, pieces, rows);
    assert f >= i;
  }
}
