/** Quoted literals: per-dialect escaping into an output buffer, optional right-trimming, and the
    reading of the literal by the database.  The doubled quote is that of section 5.3 (<literal>)
    of ISO/IEC 9075:1992. */
module Escape {
  import opened Common
  import opened Rdbms

  const NUL := 0
  const LF := 10
  const CR := 13
  const SUB := 26
  const BLANK := 32
  const DQUOTE := 34
  const QUOTE := 39
  const BACKSLASH := 92

  /** escape_mysql, escape_pgs, escape_oci, escape_firebird and escape_db2, escape_single. */
  datatype Dialect = Backslashed | Pgs | Oci | Blanked | Single

  datatype Choice = NoCase | Case(dialect: Dialect)

  /** The switch of SR_QuoteTrimEscapeString. */
  function DialectOf(db: Database): (choice: Choice)
    ensures choice.NoCase? <==> db in {Unknown, Mssql6, SqlAny, Access, SqlBase, Azure}
  {
    match db
    case MySql | MariaDb => Case(Backslashed)
    case Firebird | Firebird3 | Firebird4 | Firebird5 | Db2 => Case(Blanked)
    case Oracle | Cache => Case(Oci)
    case Mssql7 | Ingres | Sybase | Adabas | Informix | Otterro | Pervasive | Cubrid => Case(Single)
    case Postgres => Case(Pgs)
    case _ => NoCase
  }

  /** What one input byte becomes. */
  function EscapedByte(d: Dialect, b: int): (r: Bytes)
    ensures |r| <= 2
  {
    match d
    case Backslashed =>
      if b == NUL then [BACKSLASH, 48]
      else if b == LF then [BACKSLASH, 110]
      else if b == CR then [BACKSLASH, 114]
      else if b == SUB then [BACKSLASH, 90]
      else if b == BACKSLASH || b == QUOTE || b == DQUOTE then [BACKSLASH, b]
      else [b]
    case Pgs => if b == QUOTE || b == BACKSLASH then [b, b] else if b == NUL then [] else [b]
    case Oci => if b == QUOTE then [b, b] else if b == NUL then [] else [b]
    case Blanked => if b == QUOTE then [b, b] else if b == NUL then [BLANK] else [b]
    case Single => if b == QUOTE then [b, b] else [b]
  }

  function Escaped(d: Dialect, s: Bytes): (r: Bytes)
    ensures |r| <= 2 * |s|
  {
    if s == [] then [] else EscapedByte(d, s[0]) + Escaped(d, s[1..])
  }

  /** What the database is meant to store: the input with its NULs kept, blanked or dropped. */
  function KeptByte(db: Database, b: int): Bytes {
    if b != NUL then [b]
    else if db in {Firebird, Firebird3, Firebird4, Firebird5, Db2} then [BLANK]
    else if db in {Oracle, Cache, Postgres} then []
    else [NUL]
  }

  function Kept(db: Database, s: Bytes): Bytes {
    if s == [] then [] else KeptByte(db, s[0]) + Kept(db, s[1..])
  }

  function RTrim(s: Bytes): (r: Bytes)
    ensures r <= s
    ensures r != [] ==> r[|r| - 1] != BLANK
    ensures forall i :: |r| <= i < |s| ==> s[i] == BLANK
  {
    if s == [] || s[|s| - 1] != BLANK then s else RTrim(s[..|s| - 1])
  }

  function Trimmed(s: Bytes, trim: bool): Bytes {
    if trim then RTrim(s) else s
  }

  // ----- the reader

  datatype Literal = Malformed | Value(bytes: Bytes)

  /** The databases whose literals know the backslash; two of them also give letters a meaning. */
  predicate UsesBackslash(db: Database) {
    db in {MySql, MariaDb, Postgres}
  }

  function Unescaped(db: Database, b: int): int {
    if db in {MySql, MariaDb} then
      (if b == 48 then NUL else if b == 110 then LF else if b == 114 then CR else if b == 90 then SUB else b)
    else b
  }

  /** Reading after the opening quote: the literal must end exactly at the end of the text. */
  function ReadBody(db: Database, text: Bytes): Literal {
    if text == [] then Malformed
    else if text[0] == QUOTE then
      if |text| == 1 then Value([])
      else if text[1] == QUOTE then More(QUOTE, ReadBody(db, text[2..]))
      else Malformed
    else if text[0] == BACKSLASH && UsesBackslash(db) then
      if |text| == 1 then Malformed else More(Unescaped(db, text[1]), ReadBody(db, text[2..]))
    else More(text[0], ReadBody(db, text[1..]))
  }

  function More(b: int, rest: Literal): Literal {
    match rest
    case Malformed => Malformed
    case Value(bytes) => Value([b] + bytes)
  }

  function Read(db: Database, text: Bytes): Literal {
    if text == [] || text[0] != QUOTE then Malformed else ReadBody(db, text[1..])
  }

  // ----- the round trip

  /** Bytes that the dialect can store as they are. */
  ghost predicate Storable(d: Dialect, s: Bytes) {
    d.Backslashed? || d.Single? || NUL !in s
  }

  /** The dialect a database is given treats NULs as that database needs. */
  lemma KeptByteIsStorable(db: Database, b: int)
    requires DialectOf(db).Case?
    ensures var d := DialectOf(db).dialect; var k := KeptByte(db, b);
            && Storable(d, k) && |k| <= 1
            && EscapedByte(d, b) == if k == [] then [] else EscapedByte(d, k[0])
  {
  }

  lemma {:induction false} KeptIsStorable(db: Database, s: Bytes)
    requires DialectOf(db).Case?
    ensures var d := DialectOf(db).dialect; Storable(d, Kept(db, s)) && Escaped(d, s) == Escaped(d, Kept(db, s))
  {
    if s != [] {
      hide EscapedByte, KeptByte, DialectOf;
      var first, rest := KeptByte(db, s[0]), Kept(db, s[1..]);
      KeptIsStorable(db, s[1..]);
      KeptByteIsStorable(db, s[0]);
      if first == [] {
        assert first + rest == rest;
        assert [] + Escaped(DialectOf(db).dialect, s[1..]) == Escaped(DialectOf(db).dialect, s[1..]);
      } else {
        assert (first + rest)[0] == first[0] && (first + rest)[1..] == rest;
      }
    }
  }

  /** The trimmed text is the prefix after which all is blank and which does not end in a blank. */
  lemma TrimIs(s: Bytes, n: nat)
    requires n <= |s| && (n > 0 ==> s[n - 1] != BLANK) && forall i :: n <= i < |s| ==> s[i] == BLANK
    ensures RTrim(s) == s[..n]
  {
    var r := RTrim(s);
    assert r == s[..|r|];
  }

  lemma TrimAppend(a: Bytes, b: Bytes)
    ensures RTrim(a + b) == if RTrim(b) == [] then RTrim(a) else a + RTrim(b)
  {
    var t := RTrim(b);
    if t == [] {
      TrimIs(a + b, |RTrim(a)|);
      assert (a + b)[..|RTrim(a)|] == RTrim(a);
    } else {
      TrimIs(a + b, |a + t|);
      assert (a + b)[..|a + t|] == a + t;
    }
  }

  lemma TrimByte(d: Dialect, b: int)
    requires Storable(d, [b])
    ensures EscapedByte(d, b) != []
    ensures RTrim(EscapedByte(d, b)) == if b == BLANK then [] else EscapedByte(d, b)
    ensures RTrim([b]) == if b == BLANK then [] else [b]
  {
    assert b in [b];
    var pair := EscapedByte(d, b);
    TrimIs(pair, if b == BLANK then 0 else |pair|);
    TrimIs([b], if b == BLANK then 0 else 1);
  }

  lemma EscapedCons(d: Dialect, b: int, s: Bytes)
    ensures Escaped(d, [b] + s) == EscapedByte(d, b) + Escaped(d, s)
  {
    assert ([b] + s)[1..] == s;
  }

  lemma StorableParts(d: Dialect, s: Bytes)
    requires Storable(d, s) && s != []
    ensures Storable(d, [s[0]]) && Storable(d, s[1..]) && Escaped(d, s) != []
    ensures forall t :: t <= s ==> Storable(d, t)
  {
    TrimByte(d, s[0]);
  }

  /** Trimming the escaped text is escaping the trimmed text: no escape pair ends in a blank, so
      none is ever cut. */
  lemma {:induction false} TrimEscaped(d: Dialect, s: Bytes)
    requires Storable(d, s)
    ensures RTrim(Escaped(d, s)) == Escaped(d, RTrim(s))
  {
    if s != [] {
      hide RTrim, EscapedByte, Storable;
      StorableParts(d, s);
      var b, rest := s[0], s[1..];
      TrimEscaped(d, rest);
      assert s == [b] + rest;
      TrimStep(d, b, rest);
    }
  }

  lemma TrimStep(d: Dialect, b: int, rest: Bytes)
    requires Storable(d, [b]) && Storable(d, rest) && RTrim(Escaped(d, rest)) == Escaped(d, RTrim(rest))
    ensures RTrim(Escaped(d, [b] + rest)) == Escaped(d, RTrim([b] + rest))
  {
    hide RTrim, EscapedByte, Escaped, Storable;
    var t := RTrim(rest);
    TrimByte(d, b);
    EscapedCons(d, b, rest);
    TrimAppend(EscapedByte(d, b), Escaped(d, rest));
    TrimAppend([b], rest);
    EscapedNothing(d);
    if t != [] {
      assert rest != [] && t <= rest;
      StorableParts(d, rest);
      StorableParts(d, t);
      EscapedCons(d, b, t);
    } else {
      EscapedCons(d, b, []);
      assert [b] + [] == [b] && EscapedByte(d, b) + [] == EscapedByte(d, b);
    }
  }

  lemma EscapedNothing(d: Dialect)
    ensures Escaped(d, []) == []
  {
  }

  /** What the reader does with a byte, and with a pair. */
  lemma ReadOne(db: Database, b: int, rest: Bytes)
    requires rest != [] && b != QUOTE && (b == BACKSLASH ==> !UsesBackslash(db))
    ensures ReadBody(db, [b] + rest) == More(b, ReadBody(db, rest))
  {
    assert ([b] + rest)[1..] == rest;
  }

  lemma ReadPair(db: Database, a: int, b: int, rest: Bytes)
    requires rest != [] && (a == b == QUOTE || (a == BACKSLASH && UsesBackslash(db)))
    ensures ReadBody(db, [a, b] + rest) == More(if a == QUOTE then QUOTE else Unescaped(db, b), ReadBody(db, rest))
  {
    var text := [a, b] + rest;
    assert text[0] == a && text[1] == b && text[2..] == rest;
  }

  /** An escaped byte is the byte itself, or a pair that the database reads as the byte. */
  lemma EscapedIsReadable(db: Database, b: int)
    requires DialectOf(db).Case? && Storable(DialectOf(db).dialect, [b])
    ensures var e := EscapedByte(DialectOf(db).dialect, b);
            || (e == [b] && b != QUOTE && (b == BACKSLASH ==> !UsesBackslash(db)))
            || (|e| == 2 && e[0] == e[1] == b == QUOTE)
            || (|e| == 2 && e[0] == BACKSLASH && UsesBackslash(db) && Unescaped(db, e[1]) == b)
  {
    assert b in [b];
  }

  /** The reader takes one escaped byte off the text and gives the byte back. */
  lemma ReadStep(db: Database, b: int, rest: Bytes)
    requires DialectOf(db).Case? && Storable(DialectOf(db).dialect, [b]) && rest != []
    ensures var e := EscapedByte(DialectOf(db).dialect, b); ReadBody(db, e + rest) == More(b, ReadBody(db, rest))
  {
    hide ReadBody, EscapedByte, DialectOf, Storable, Unescaped;
    EscapedIsReadable(db, b);
    var e := EscapedByte(DialectOf(db).dialect, b);
    if |e| == 2 {
      assert e == [e[0], e[1]];
      ReadPair(db, e[0], e[1], rest);
    } else {
      ReadOne(db, b, rest);
    }
  }

  /** The database reads an escaped body, up to the quote that closes it, as the text it was made from. */
  lemma {:induction false} ReadEscaped(db: Database, s: Bytes)
    requires DialectOf(db).Case? && Storable(DialectOf(db).dialect, s)
    ensures ReadBody(db, Escaped(DialectOf(db).dialect, s) + [QUOTE]) == Value(s)
  {
    var d := DialectOf(db).dialect;
    if s == [] {
      assert Escaped(d, []) + [QUOTE] == [QUOTE];
    } else {
      hide EscapedByte, ReadBody, DialectOf;
      var rest := Escaped(d, s[1..]) + [QUOTE];
      assert Storable(d, [s[0]]) && Storable(d, s[1..]);
      ReadEscaped(db, s[1..]);
      ReadStep(db, s[0], rest);
      assert Escaped(d, s) + [QUOTE] == EscapedByte(d, s[0]) + rest;
      assert [s[0]] + s[1..] == s;
    }
  }

  /** The literal written for `s`, as one byte string. */
  function Quoted(d: Dialect, s: Bytes, trim: bool): Bytes {
    [QUOTE] + Trimmed(Escaped(d, s), trim) + [QUOTE]
  }

  /** For every byte string and every database of the switch: one well-formed literal, of at most 2n
      content bytes, that the database reads as the input with its NULs treated as that database
      needs and, if asked, right-trimmed. */
  lemma LiteralRoundTrip(db: Database, s: Bytes, trim: bool)
    requires DialectOf(db).Case?
    ensures Read(db, Quoted(DialectOf(db).dialect, s, trim)) == Value(Trimmed(Kept(db, s), trim))
    ensures |Quoted(DialectOf(db).dialect, s, trim)| <= 2 * |s| + 2
  {
    hide EscapedByte, Escaped, Kept, ReadBody, RTrim, DialectOf;
    var d := DialectOf(db).dialect;
    var k := Kept(db, s);
    KeptIsStorable(db, s);
    TrimEscaped(d, k);
    var t := Trimmed(k, trim);
    assert t <= k;
    ReadEscaped(db, t);
    assert Quoted(d, s, trim)[1..] == Escaped(d, t) + [QUOTE];
  }

  // ----- the code

  /** The body of the escape_* loops: the switch on one input byte. */
  method EscapeByte(d: Dialect, to: array<int>, start: nat, b: int) returns (p: nat)
    requires start + 2 <= to.Length
    modifies to
    ensures p == start + |EscapedByte(d, b)|
    ensures to[..] == old(to[..])[..start] + EscapedByte(d, b) + old(to[..])[p..]
  {
    p := start;
    if d.Backslashed? {
      if b == NUL { to[p], to[p + 1] := BACKSLASH, 48; p := p + 2; }
      else if b == LF { to[p], to[p + 1] := BACKSLASH, 110; p := p + 2; }
      else if b == CR { to[p], to[p + 1] := BACKSLASH, 114; p := p + 2; }
      else if b == BACKSLASH { to[p], to[p + 1] := BACKSLASH, BACKSLASH; p := p + 2; }
      else if b == QUOTE { to[p], to[p + 1] := BACKSLASH, QUOTE; p := p + 2; }
      else if b == DQUOTE { to[p], to[p + 1] := BACKSLASH, DQUOTE; p := p + 2; }
      else if b == SUB { to[p], to[p + 1] := BACKSLASH, 90; p := p + 2; }
      else { to[p] := b; p := p + 1; }
    } else if b == QUOTE {
      to[p], to[p + 1] := QUOTE, QUOTE;
      p := p + 2;
    } else if d.Pgs? && b == BACKSLASH {
      to[p], to[p + 1] := BACKSLASH, BACKSLASH;
      p := p + 2;
    } else if b == NUL && (d.Pgs? || d.Oci?) {
      // dropped
    } else if b == NUL && d.Blanked? {
      to[p] := BLANK;
      p := p + 1;
    } else {
      to[p] := b;
      p := p + 1;
    }
  }

  /** The escape_* loops: one output pointer, moved by up to two places per input byte. */
  method EscapeInto(d: Dialect, to: array<int>, start: nat, from: Bytes) returns (size: nat)
    requires start + 2 * |from| + 1 <= to.Length
    modifies to
    ensures size == |Escaped(d, from)| <= 2 * |from|
    ensures to[..] == old(to[..])[..start] + Escaped(d, from) + [NUL] + old(to[..])[start + size + 1..]
  {
    hide EscapedByte, Written;
    var p := start;
    assert from[0..] == from;
    ghost var before, e := to[..], Escaped(d, from);
    assert Written(before, before, start, start, e, e) by { NothingWritten(before, start, e); }
    for i := 0 to |from|
      invariant start <= p <= start + 2 * i && Written(before, to[..], start, p, e, Escaped(d, from[i..]))
    {
      ghost var now, at := to[..], p;
      p := EscapeByte(d, to, p, from[i]);
      assert Escaped(d, from[i..]) == EscapedByte(d, from[i]) + Escaped(d, from[i + 1..]) by {
        assert from[i..][1..] == from[i + 1..];
      }
      Extended(before, now, to[..], start, at, p, e, EscapedByte(d, from[i]), Escaped(d, from[i + 1..]));
    }
    AllWritten(before, to[..], start, p, e);
    to[p] := NUL;
    size := p - start;
  }

  lemma NothingWritten(before: Bytes, start: nat, e: Bytes)
    requires start <= |before|
    ensures Written(before, before, start, start, e, e)
  {
  }

  lemma AllWritten(before: Bytes, to: Bytes, start: nat, p: nat, e: Bytes)
    requires Written(before, to, start, p, e, []) && p < |to|
    ensures p == start + |e| && to[p := NUL] == before[..start] + e + [NUL] + before[p + 1..]
  {
    assert to[start..p] == e;
  }

  /** The buffer holds the part of `e` before `rest` from `start` to `p`, and is as before elsewhere. */
  ghost predicate Written(before: Bytes, to: Bytes, start: nat, p: nat, e: Bytes, rest: Bytes) {
    && start <= p <= |to| == |before| && e == to[start..p] + rest
    && to == before[..start] + to[start..p] + before[p..]
  }

  lemma Extended(before: Bytes, now: Bytes, after: Bytes, start: nat, at: nat, p: nat, e: Bytes, piece: Bytes,
      rest: Bytes)
    requires at <= p == at + |piece| <= |before| && Written(before, now, start, at, e, piece + rest)
    requires after == now[..at] + piece + now[p..]
    ensures Written(before, after, start, p, e, rest)
  {
    assert now[p..] == before[p..];
    assert now[..at] == before[..start] + now[start..at];
    assert after[start..p] == now[start..at] + piece;
  }

  /** SR_QuoteTrimEscapeString, for a database with a case in its switch. */
  method QuoteTrimEscapeString(from: Bytes, db: Database, trim: bool) returns (buffer: array<int>, size: nat)
    requires DialectOf(db).Case?
    ensures size < buffer.Length == 2 * |from| + 3 && buffer[size] == NUL
    ensures buffer[..size] == Quoted(DialectOf(db).dialect, from, trim)
    ensures Read(db, buffer[..size]) == Value(Trimmed(Kept(db, from), trim))
  {
    hide EscapedByte, Escaped, RTrim, Read, Kept, DialectOf;
    var d := DialectOf(db).dialect;
    buffer := new int[2 * |from| + 3];
    buffer[0] := QUOTE;
    size := EscapeInto(d, buffer, 1, from);
    size := size + 1;
    ghost var e, before := Escaped(d, from), buffer[..];
    assert before[0] == QUOTE && before[1..size] == e;
    while trim && size > 1 && buffer[size - 1] == BLANK
      invariant 1 <= size <= |e| + 1 && buffer[..] == before
      invariant if trim then forall i :: size - 1 <= i < |e| ==> e[i] == BLANK else size == |e| + 1
    {
      size := size - 1;
      assert e[size - 1] == before[size];
    }
    if trim {
      TrimIs(e, size - 1);
    }
    CloseQuote(before, e, size, trim);
    buffer[size] := QUOTE;
    size := size + 1;
    buffer[size] := NUL;
    LiteralRoundTrip(db, from, trim);
  }

  lemma CloseQuote(before: Bytes, e: Bytes, size: nat, trim: bool)
    requires 1 <= size <= |e| + 1 < |before| && before[0] == QUOTE && before[1..|e| + 1] == e
    requires e[..size - 1] == Trimmed(e, trim)
    ensures before[size := QUOTE][..size + 1] == [QUOTE] + Trimmed(e, trim) + [QUOTE]
  {
    assert before[1..size] == e[..size - 1];
  }
}
