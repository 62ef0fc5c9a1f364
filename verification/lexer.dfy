/** The hand-written lexer of the SQL parser: one token per call, from the position the last call
    left.  The query handed to it ends in a NUL, which is itself read as the end marker. */
module Lexer {
  import opened Common

  /** A C string with its terminator. */
  ghost predicate IsQuery(q: string) {
    q != [] && q[|q| - 1] == '\0' && forall i :: 0 <= i < |q| - 1 ==> q[i] != '\0'
  }

  datatype Fault = BadNumber | BadString | BadQuoted | BadDate

  /** errMsg: no fault, or the last one. */
  datatype Maybe = NoFault | Last(fault: Fault)

  datatype Operation = Plus | Minus | Div | Eq | Ge | Gt | Le | Lt | Ne

  datatype Token =
    | EndOfFile
    | EndMarker
    | Error(fault: Fault)
    | Integer
    | Real
    | Text(text: string)
    | Quoted(text: string)
    | Date(text: string)
    | BindVar
    | Arithmetic(op: Operation)
    | Asterisk
    | Compare(op: Operation)
    | Bang
    | Param(number: nat, notNull: bool)
    | Keyword(index: nat)
    | Ident(text: string)
    | Single(c: char)

  predicate IsBlank(c: char) {
    c == ' ' || c == '\n' || c == '\r' || c == '\t' || c == '\U{0B}' || c == '\U{0C}'
  }

  predicate IsDigit(c: char) {
    '0' <= c <= '9'
  }

  predicate IsLetter(c: char) {
    'a' <= c <= 'z' || 'A' <= c <= 'Z'
  }

  predicate InWord(c: char) {
    IsLetter(c) || IsDigit(c) || c == '_'
  }

  /** Either case of a letter of a keyword. */
  predicate SameLetter(c: char, w: char) {
    c == w || ('a' <= w <= 'z' && c as int + 32 == w as int)
  }

  /** What must follow the letters of a keyword: the end of the word; a parenthesis that does not end
      the query, which is part of the token; or such a parenthesis that ends a word. */
  datatype Follow = WordEnds | Opens | OpensAndEnds

  datatype Entry = Entry(word: string, follow: Follow) {
    /** The length of the token. */
    function Length(): nat {
      |word| + if follow.WordEnds? then 0 else 1
    }
  }

  const KEYWORDS_A_TO_I: seq<Entry> := [
    Entry("all", WordEnds), Entry("and", WordEnds), Entry("asc", WordEnds), Entry("as", WordEnds),
    Entry("abs", Opens), Entry("avg", Opens), Entry("by", WordEnds), Entry("count", Opens),
    Entry("concat", WordEnds), Entry("desc", WordEnds), Entry("delete", WordEnds), Entry("distinct", WordEnds),
    Entry("date", Opens), Entry("from", WordEnds), Entry("group", WordEnds), Entry("isnull", Opens),
    Entry("is", WordEnds), Entry("into", WordEnds), Entry("in", WordEnds), Entry("insert", WordEnds)
  ]

  const KEYWORDS_J_TO_W: seq<Entry> := [
    Entry("join", WordEnds), Entry("left", WordEnds), Entry("lock", WordEnds), Entry("like", WordEnds),
    Entry("limit", WordEnds), Entry("max", Opens), Entry("min", Opens), Entry("not", WordEnds),
    Entry("null", WordEnds), Entry("or", WordEnds), Entry("order", WordEnds), Entry("outer", WordEnds),
    Entry("power", Opens), Entry("round", Opens), Entry("right", OpensAndEnds), Entry("set", WordEnds),
    Entry("select", WordEnds), Entry("substr", Opens), Entry("sum", Opens), Entry("trim", Opens),
    Entry("update", WordEnds), Entry("union", WordEnds), Entry("values", WordEnds), Entry("where", WordEnds)
  ]

  const KEYWORDS: seq<Entry> := KEYWORDS_A_TO_I + KEYWORDS_J_TO_W

  // ----- the tokens as a function of the position

  function SkipBlanks(q: string, i: nat): (j: nat)
    requires i <= |q|
    ensures i <= j <= |q| && (j < |q| ==> !IsBlank(q[j])) && forall k :: i <= k < j ==> IsBlank(q[k])
    decreases |q| - i
  {
    if i < |q| && IsBlank(q[i]) then SkipBlanks(q, i + 1) else i
  }

  function DigitsEnd(q: string, i: nat): (j: nat)
    requires i <= |q|
    ensures i <= j <= |q| && (j < |q| ==> !IsDigit(q[j])) && forall k :: i <= k < j ==> IsDigit(q[k])
    decreases |q| - i
  {
    if i < |q| && IsDigit(q[i]) then DigitsEnd(q, i + 1) else i
  }

  function WordEnd(q: string, i: nat): (j: nat)
    requires i <= |q|
    ensures i <= j <= |q| && (j < |q| ==> !InWord(q[j])) && forall k :: i <= k < j ==> InWord(q[k])
    decreases |q| - i
  {
    if i < |q| && InWord(q[i]) then WordEnd(q, i + 1) else i
  }

  /** One past the closing quote of a string whose content is read from `i`.  A backslash takes
      the next character with it, and an escaped quote takes one more. */
  function StringEnd(q: string, i: nat): (r: Option<nat>)
    requires i <= |q|
    ensures r.Some? ==> i < r.value <= |q| && q[r.value - 1] == '\''
    decreases |q| - i
  {
    if i == |q| then None
    else if q[i] == '\\' then
      if i + 1 == |q| then None
      else if q[i + 1] != '\'' then StringEnd(q, i + 2)
      else if i + 2 == |q| then None else StringEnd(q, i + 3)
    else if q[i] == '\'' then Some(i + 1)
    else StringEnd(q, i + 1)
  }

  /** The same for a quoted identifier, which has no escapes. */
  function QuotedEnd(q: string, i: nat): (r: Option<nat>)
    requires i <= |q|
    ensures r.Some? ==> i < r.value <= |q| && q[r.value - 1] == '"' && '"' !in q[i..r.value - 1]
    ensures r.None? ==> '"' !in q[i..]
    decreases |q| - i
  {
    if i == |q| then None else if q[i] == '"' then Some(i + 1) else QuotedEnd(q, i + 1)
  }

  predicate Spells(q: string, i: nat, word: string) {
    i + |word| <= |q| && forall k :: 0 <= k < |word| ==> SameLetter(q[i + k], word[k])
  }

  /** No word goes on at `i`. */
  predicate WordStops(q: string, i: nat) {
    i >= |q| || !InWord(q[i])
  }

  predicate Applies(q: string, i: nat, e: Entry) {
    var n := i + |e.word|;
    Spells(q, i, e.word) &&
    match e.follow
    case WordEnds => WordStops(q, n)
    case Opens => n + 1 < |q| && q[n] == '('
    case OpensAndEnds => n < |q| && q[n] == '(' && WordStops(q, n + 1)
  }

  /** The first keyword, from entry `k` on, that applies at `i`. */
  function FindKeyword(q: string, i: nat, k: nat): (r: nat)
    requires k <= |KEYWORDS|
    ensures k <= r <= |KEYWORDS| && (r < |KEYWORDS| ==> Applies(q, i, KEYWORDS[r]))
    ensures forall l :: k <= l < r ==> !Applies(q, i, KEYWORDS[l])
    decreases |KEYWORDS| - k
  {
    if k == |KEYWORDS| || Applies(q, i, KEYWORDS[k]) then k else FindKeyword(q, i, k + 1)
  }

  /** What sscanf reports for "%lf": the characters it consumed, none of them a NUL, or -1. */
  type Scanner = string -> int

  ghost predicate ScannerOk(scan: Scanner) {
    forall s :: scan(s) == -1 || (1 <= scan(s) <= |s| && '\0' !in s[..scan(s)])
  }

  predicate StartsNumber(q: string, i: nat)
    requires i < |q|
  {
    IsDigit(q[i]) || ((q[i] == '-' || q[i] == '.') && i + 1 < |q| && IsDigit(q[i + 1]))
  }

  function NumberAt(q: string, scan: Scanner, i: nat): (Token, int)
    requires i < |q|
  {
    var j := DigitsEnd(q, if q[i] == '-' then i + 1 else i);
    if j == |q| || (q[j] != '.' && q[j] != 'E' && q[j] != 'e') then (Integer, j)
    else if scan(q[i..]) == -1 then (Error(BadNumber), i)
    else (Real, i + scan(q[i..]))
  }

  function WordAt(q: string, i: nat): (Token, int)
    requires i < |q|
  {
    var k := FindKeyword(q, i, 0);
    if k < |KEYWORDS| then (Keyword(k), i + KEYWORDS[k].Length()) else (Ident(q[i..WordEnd(q, i)]), WordEnd(q, i))
  }

  predicate NextIs(q: string, i: nat, c: char) {
    i + 1 < |q| && q[i + 1] == c
  }

  /** The token at a character that is no blank, and where the lexer is left. */
  function LexAt(q: string, scan: Scanner, i: nat, params: nat): (Token, int)
    requires i < |q|
  {
    var c := q[i];
    if StartsNumber(q, i) then NumberAt(q, scan, i)
    else if c == '\'' then
      var end := StringEnd(q, i + 1);
      if end.None? then (Error(BadString), i) else (Text(q[i + 1..end.value - 1]), end.value)
    else if c == '"' then
      var end := QuotedEnd(q, i + 1);
      if end.None? then (Error(BadQuoted), i) else (Quoted(q[i + 1..end.value - 1]), end.value)
    else if c == '[' then
      if i + 9 < |q| && q[i + 9] == ']' then (Date(q[i + 1..i + 9]), i + 10) else (Error(BadDate), i)
    else if c == ':' then (BindVar, i + 1)
    else if c == '+' then (Arithmetic(Plus), i + 1)
    else if c == '-' then (Arithmetic(Minus), i + 1)
    else if c == '*' then (Asterisk, i + 1)
    else if c == '/' then (Arithmetic(Div), i + 1)
    else if c == '=' then (Compare(Eq), if NextIs(q, i, '=') then i + 2 else i + 1)
    else if c == '>' then if NextIs(q, i, '=') then (Compare(Ge), i + 2) else (Compare(Gt), i + 1)
    else if c == '<' then
      if NextIs(q, i, '=') then (Compare(Le), i + 2)
      else if NextIs(q, i, '>') then (Compare(Ne), i + 2)
      else (Compare(Lt), i + 1)
    else if c == '!' then if NextIs(q, i, '=') then (Compare(Ne), i + 2) else (Bang, i)
    else if c == '?' then (Param(params, NextIs(q, i, '?')), if NextIs(q, i, '?') then i + 2 else i + 1)
    else if IsLetter(c) || c == '_' then WordAt(q, i)
    else (if c == '\0' then EndMarker else Single(c), i + 1)
  }

  /** What the lexer keeps between calls. */
  datatype State = State(pos: int, params: nat)

  function Step(q: string, scan: Scanner, s: State): (Token, State)
    requires 0 <= s.pos <= |q|
  {
    var i := SkipBlanks(q, s.pos);
    if i == |q| then (EndOfFile, State(i, s.params))
    else
      var (token, next) := LexAt(q, scan, i, s.params);
      (token, State(next, if token.Param? then s.params + 1 else s.params))
  }

  // ----- positions

  predicate Letters(word: string) {
    |word| >= 2 && forall j :: 0 <= j < |word| ==> 'a' <= word[j] <= 'z'
  }

  lemma KeywordsAreLetters(k: nat)
    requires k < |KEYWORDS|
    ensures Letters(KEYWORDS[k].word)
  {
    if k < |KEYWORDS_A_TO_I| {
      FirstHalf(k);
      assert KEYWORDS[k] == KEYWORDS_A_TO_I[k];
    } else {
      SecondHalf(k - |KEYWORDS_A_TO_I|);
      assert KEYWORDS[k] == KEYWORDS_J_TO_W[k - |KEYWORDS_A_TO_I|];
    }
  }

  lemma FirstHalf(k: nat)
    requires k < |KEYWORDS_A_TO_I|
    ensures Letters(KEYWORDS_A_TO_I[k].word)
  {
  }

  lemma SecondHalf(k: nat)
    requires k < |KEYWORDS_J_TO_W|
    ensures Letters(KEYWORDS_J_TO_W[k].word)
  {
  }

  /** The token whose call does not move: '!' without '='. */
  predicate LoneBang(q: string, i: nat) {
    i < |q| && q[i] == '!' && !NextIs(q, i, '=')
  }

  lemma NumberMoves(q: string, scan: Scanner, i: nat)
    requires ScannerOk(scan) && i < |q| && StartsNumber(q, i)
    ensures var (token, next) := NumberAt(q, scan, i);
            && next <= |q|
            && if token.Error? then next == i && token == Error(BadNumber)
               else (token.Integer? || token.Real?) && next > i
  {
    assert scan(q[i..]) == -1 || 1 <= scan(q[i..]) <= |q[i..]|;
  }

  lemma WordMoves(q: string, i: nat)
    requires i < |q| && (IsLetter(q[i]) || q[i] == '_')
    ensures var (token, next) := WordAt(q, i); (token.Keyword? || token.Ident?) && i < next <= |q|
  {
    var k := FindKeyword(q, i, 0);
    if k < |KEYWORDS| {
      KeywordsAreLetters(k);
      AppliesFits(q, i, KEYWORDS[k]);
    }
  }

  /** A token is taken strictly forward within the query; an error stays at its start; and the one
      token that stays where it is is the lone '!'. */
  lemma LexMoves(q: string, scan: Scanner, i: nat, params: nat)
    requires ScannerOk(scan) && i < |q|
    ensures var (token, next) := LexAt(q, scan, i, params);
            && i <= next <= |q| && !token.EndOfFile?
            && (next > i <==> !token.Error? && !LoneBang(q, i))
            && (token.Bang? <==> LoneBang(q, i))
            && (token.EndMarker? ==> q[i] == '\0') && (token.Param? ==> token.number == params)
  {
    hide NumberAt, WordAt;
    if StartsNumber(q, i) {
      NumberMoves(q, scan, i);
    } else if IsLetter(q[i]) || q[i] == '_' {
      WordMoves(q, i);
    }
  }

  lemma AppliesFits(q: string, i: nat, e: Entry)
    requires Applies(q, i, e)
    ensures i + e.Length() <= |q| && Spells(q, i, e.word)
    ensures !e.follow.WordEnds? ==> q[i + |e.word|] == '('
    ensures IsQuery(q) && Letters(e.word) ==> i + e.Length() < |q|
  {
    if IsQuery(q) && Letters(e.word) {
      assert SameLetter(q[i + (|e.word| - 1)], e.word[|e.word| - 1]);
    }
  }

  lemma WordKeepsMarker(q: string, i: nat)
    requires IsQuery(q) && i < |q| && (IsLetter(q[i]) || q[i] == '_')
    ensures WordAt(q, i).1 < |q|
  {
    hide Applies, Spells;
    var k := FindKeyword(q, i, 0);
    if k < |KEYWORDS| {
      KeywordsAreLetters(k);
      AppliesFits(q, i, KEYWORDS[k]);
    }
  }

  lemma NumberKeepsMarker(q: string, scan: Scanner, i: nat)
    requires ScannerOk(scan) && IsQuery(q) && i < |q| && StartsNumber(q, i)
    ensures NumberAt(q, scan, i).1 < |q|
  {
    var n := scan(q[i..]);
    assert n == -1 || (1 <= n <= |q[i..]| && '\0' !in q[i..][..n]);
    assert q[i..][|q| - 1 - i] == '\0' && q[i..][..|q| - i] == q[i..];
  }

  /** Only the end marker takes the NUL that ends the query. */
  lemma LexKeepsMarker(q: string, scan: Scanner, i: nat, params: nat)
    requires ScannerOk(scan) && IsQuery(q) && i < |q|
    ensures var (token, next) := LexAt(q, scan, i, params); next == |q| <==> token.EndMarker?
  {
    hide NumberAt, WordAt, StringEnd, QuotedEnd;
    if StartsNumber(q, i) {
      NumberMoves(q, scan, i);
      NumberKeepsMarker(q, scan, i);
    } else if IsLetter(q[i]) || q[i] == '_' {
      WordMoves(q, i);
      WordKeepsMarker(q, i);
    }
  }

  // ----- what a lexeme says

  function Signs(op: Operation): set<string> {
    match op
    case Plus => {"+"}
    case Minus => {"-"}
    case Div => {"/"}
    case Eq => {"=", "=="}
    case Ge => {">="}
    case Gt => {">"}
    case Le => {"<="}
    case Lt => {"<"}
    case Ne => {"<>", "!="}
  }

  /** The characters a token was read from. */
  predicate Spelled(token: Token, lexeme: string) {
    match token
    case EndOfFile => lexeme == ""
    case EndMarker => lexeme == "\0"
    case Error(_) => lexeme == ""
    case Integer =>
      var digits := if lexeme != "" && lexeme[0] == '-' then lexeme[1..] else lexeme;
      digits != "" && forall i :: 0 <= i < |digits| ==> IsDigit(digits[i])
    case Real => lexeme != ""
    case Text(text) => lexeme == "'" + text + "'"
    case Quoted(text) => lexeme == "\"" + text + "\""
    case Date(text) => |text| == 8 && lexeme == "[" + text + "]"
    case BindVar => lexeme == ":"
    case Arithmetic(op) => lexeme in Signs(op)
    case Asterisk => lexeme == "*"
    case Compare(op) => lexeme in Signs(op)
    case Bang => lexeme == ""
    case Param(_, notNull) => lexeme == if notNull then "??" else "?"
    case Keyword(k) =>
      k < |KEYWORDS| && |lexeme| == KEYWORDS[k].Length() && Spells(lexeme, 0, KEYWORDS[k].word)
      && (!KEYWORDS[k].follow.WordEnds? ==> lexeme[|lexeme| - 1] == '(')
    case Ident(text) => lexeme == text != "" && forall i :: 0 <= i < |text| ==> InWord(text[i])
    case Single(c) => lexeme == [c]
  }

  lemma IntegerSpelled(q: string, i: nat)
    requires i < |q| && StartsNumber(q, i)
    ensures var j := DigitsEnd(q, if q[i] == '-' then i + 1 else i);
            q[i] != '.' ==> i < j && Spelled(Integer, q[i..j])
  {
    var from := if q[i] == '-' then i + 1 else i;
    var j := DigitsEnd(q, from);
    if q[i] != '.' {
      var lexeme, digits := q[i..j], q[from..j];
      assert digits == if lexeme[0] == '-' then lexeme[1..] else lexeme;
    }
  }

  lemma NumberSpelled(q: string, scan: Scanner, i: nat)
    requires ScannerOk(scan) && i < |q| && StartsNumber(q, i)
    ensures i <= NumberAt(q, scan, i).1 <= |q|
    ensures Spelled(NumberAt(q, scan, i).0, q[i..NumberAt(q, scan, i).1])
  {
    hide ScannerOk, DigitsEnd;
    NumberMoves(q, scan, i);
    var (token, j) := NumberAt(q, scan, i);
    if token.Integer? {
      if q[i] == '.' { PointIsReal(q, i); }
      IntegerSpelled(q, i);
    }
  }

  lemma PointIsReal(q: string, i: nat)
    requires i < |q| && q[i] == '.'
    ensures DigitsEnd(q, i) == i
  {
  }

  lemma WordSpelled(q: string, i: nat)
    requires i < |q| && (IsLetter(q[i]) || q[i] == '_')
    ensures i < WordAt(q, i).1 <= |q|
    ensures Spelled(WordAt(q, i).0, q[i..WordAt(q, i).1])
  {
    WordMoves(q, i);
    var k := FindKeyword(q, i, 0);
    if k < |KEYWORDS| {
      SpellsLexeme(q, i, KEYWORDS[k]);
    }
  }

  lemma SpellsLexeme(q: string, i: nat, e: Entry)
    requires Applies(q, i, e)
    ensures i + e.Length() <= |q| && Spells(q[i..i + e.Length()], 0, e.word)
    ensures !e.follow.WordEnds? ==> q[i..i + e.Length()][|e.word|] == '('
  {
    AppliesFits(q, i, e);
    var lexeme := q[i..i + e.Length()];
    forall k | 0 <= k < |e.word| ensures SameLetter(lexeme[0 + k], e.word[k]) {
      assert lexeme[k] == q[i + k];
    }
  }

  lemma DelimitedSpells(q: string, scan: Scanner, i: nat, params: nat)
    requires i < |q| && (q[i] == '\'' || q[i] == '"' || q[i] == '[')
    ensures var (token, next) := LexAt(q, scan, i, params); i <= next <= |q| && Spelled(token, q[i..next])
  {
    var (token, next) := LexAt(q, scan, i, params);
    if next > i {
      assert q[i..next] == [q[i]] + q[i + 1..next - 1] + [q[next - 1]];
    }
  }

  lemma SymbolSpells(q: string, scan: Scanner, i: nat, params: nat)
    requires i < |q| && !StartsNumber(q, i) && !IsLetter(q[i]) && q[i] != '_' && q[i] != '\'' && q[i] != '"'
             && q[i] != '['
    ensures var (token, next) := LexAt(q, scan, i, params); i <= next <= |q| && Spelled(token, q[i..next])
  {
    var next := LexAt(q, scan, i, params).1;
    assert q[i..i] == "" && q[i..i + 1] == [q[i]];
    assert i + 1 < |q| ==> q[i..i + 2] == [q[i], q[i + 1]];
  }

  /** The characters between the start of a token and where the lexer is left spell the token. */
  lemma LexSpells(q: string, scan: Scanner, i: nat, params: nat)
    requires ScannerOk(scan) && i < |q|
    ensures var (token, next) := LexAt(q, scan, i, params); i <= next <= |q| && Spelled(token, q[i..next])
  {
    hide NumberAt, WordAt, Spelled, StringEnd, QuotedEnd, ScannerOk;
    if StartsNumber(q, i) {
      NumberSpelled(q, scan, i);
    } else if q[i] == '\'' || q[i] == '"' || q[i] == '[' {
      DelimitedSpells(q, scan, i, params);
    } else if IsLetter(q[i]) || q[i] == '_' {
      WordSpelled(q, i);
    } else {
      SymbolSpells(q, scan, i, params);
    }
  }

  // ----- words and numbers are read whole

  /** The characters of words, and the blanks between tokens, by their codes. */
  lemma CharacterClasses(c: char)
    ensures InWord(c) <==> 48 <= c as int <= 57 || 65 <= c as int <= 90 || c as int == 95 || 97 <= c as int <= 122
    ensures IsBlank(c) <==> c as int in {9, 10, 11, 12, 13, 32}
  {
  }

  /** The word that starts at `i` is, whole and in either case, the keyword. */
  predicate WholeWord(q: string, i: nat, word: string)
    requires i <= |q|
  {
    WordEnd(q, i) == i + |word|
    && forall j :: 0 <= j < |word| ==> q[i + j] == word[j] || q[i + j] as int + 32 == word[j] as int
  }

  /** ... and what follows it is what the keyword asks for. */
  predicate IsKeyword(q: string, i: nat, e: Entry)
    requires i <= |q|
  {
    var n := WordEnd(q, i);
    WholeWord(q, i, e.word) && (!e.follow.WordEnds? ==> n < |q| && q[n] == '(')
    && (e.follow.OpensAndEnds? ==> n + 1 == |q| || !InWord(q[n + 1]))
  }

  lemma SpelledInWord(q: string, i: nat, word: string)
    requires i + |word| <= |q| && Letters(word) && forall j :: 0 <= j < |word| ==> SameLetter(q[i + j], word[j])
    ensures forall k :: i <= k < i + |word| ==> InWord(q[k])
  {
    forall k | i <= k < i + |word| ensures InWord(q[k]) {
      assert SameLetter(q[i + (k - i)], word[k - i]);
    }
  }

  lemma {:induction false} WordEndIs(q: string, i: nat, n: nat)
    requires i <= n <= |q| && (forall k :: i <= k < n ==> InWord(q[k])) && (n < |q| ==> !InWord(q[n]))
    ensures WordEnd(q, i) == n
    decreases n - i
  {
    if i < n {
      WordEndIs(q, i + 1, n);
    }
  }

  lemma AppliesIsKeyword(q: string, i: nat, e: Entry)
    requires IsQuery(q) && i < |q| && Letters(e.word)
    ensures Applies(q, i, e) <==> IsKeyword(q, i, e)
  {
    hide InWord;
    if Applies(q, i, e) {
      assert forall j :: 0 <= j < |e.word| ==> SameLetter(q[i + j], e.word[j]);
      SpelledInWord(q, i, e.word);
      ParenthesisEndsWord();
      WordEndIs(q, i, i + |e.word|);
    }
    if IsKeyword(q, i, e) {
      assert Spells(q, i, e.word);
    }
  }

  lemma ParenthesisEndsWord()
    ensures !InWord('(') && !InWord('\0')
  {
  }

  /** A word is read whole: to its end, or one past it when a parenthesis there belongs to the keyword
      it is; and it is an identifier if and only if it is, whole, no keyword of the table. */
  lemma WordsAreWhole(q: string, i: nat)
    requires IsQuery(q) && i < |q| && (IsLetter(q[i]) || q[i] == '_')
    ensures var (token, next) := WordAt(q, i); var n := WordEnd(q, i);
            && (token.Ident? <==> forall k :: 0 <= k < |KEYWORDS| ==> !IsKeyword(q, i, KEYWORDS[k]))
            && (token.Ident? ==> next == n && token == Ident(q[i..n]))
            && (!token.Ident? ==> token.Keyword? && token.index < |KEYWORDS| && IsKeyword(q, i, KEYWORDS[token.index])
                                  && next == if KEYWORDS[token.index].follow.WordEnds? then n else n + 1)
  {
    hide Applies, IsKeyword, KEYWORDS;
    forall k | 0 <= k < |KEYWORDS| ensures Applies(q, i, KEYWORDS[k]) <==> IsKeyword(q, i, KEYWORDS[k]) {
      KeywordsAreLetters(k);
      AppliesIsKeyword(q, i, KEYWORDS[k]);
    }
    var k := FindKeyword(q, i, 0);
    if k < |KEYWORDS| {
      KeywordLength(q, i, KEYWORDS[k]);
    }
  }

  lemma KeywordLength(q: string, i: nat, e: Entry)
    requires i <= |q| && IsKeyword(q, i, e)
    ensures i + e.Length() == if e.follow.WordEnds? then WordEnd(q, i) else WordEnd(q, i) + 1
  {
  }

  /** RIGHT( is the one keyword that a word behind its parenthesis hides. */
  lemma RightIsHidden(k: nat)
    requires k < |KEYWORDS|
    ensures KEYWORDS[k].follow.OpensAndEnds? <==> KEYWORDS[k].word == "right"
  {
  }

  /** A number is what starts with a digit, or with a sign or a point before one; a whole number goes
      on to the last of its digits, where no point or exponent follows. */
  lemma NumbersAreWhole(q: string, scan: Scanner, i: nat, params: nat)
    requires ScannerOk(scan) && i < |q|
    ensures var (token, next) := LexAt(q, scan, i, params);
            && (token.Integer? || token.Real? || token == Error(BadNumber)
                <==> '0' <= q[i] <= '9' || ((q[i] == '-' || q[i] == '.') && i + 1 < |q| && '0' <= q[i + 1] <= '9'))
            && (token.Integer? ==> i < next <= |q| && q[i] != '.' && (forall j :: i < j < next ==> '0' <= q[j] <= '9')
                                   && (next < |q| ==> !('0' <= q[next] <= '9') && q[next] != '.'
                                                      && q[next] != 'E' && q[next] != 'e'))
  {
    hide StringEnd, QuotedEnd, WordAt, NumberAt;
    if StartsNumber(q, i) {
      NumberMoves(q, scan, i);
      if NumberAt(q, scan, i).0.Integer? {
        WholeNumber(q, scan, i);
      }
    } else if IsLetter(q[i]) || q[i] == '_' {
      WordMoves(q, i);
    }
  }

  lemma WholeNumber(q: string, scan: Scanner, i: nat)
    requires ScannerOk(scan) && i < |q| && StartsNumber(q, i) && NumberAt(q, scan, i).0.Integer?
    ensures var next := NumberAt(q, scan, i).1;
            && i < next <= |q| && q[i] != '.' && (forall j :: i < j < next ==> IsDigit(q[j]))
            && (next < |q| ==> !IsDigit(q[next]) && q[next] != '.' && q[next] != 'E' && q[next] != 'e')
  {
    NumberMoves(q, scan, i);
    if q[i] == '.' { PointIsReal(q, i); }
  }

  // ----- runs of the lexer

  /** What the lexer keeps after `n` calls. */
  function Run(q: string, scan: Scanner, n: nat): (s: State)
    requires ScannerOk(scan)
    ensures 0 <= s.pos <= |q|
  {
    if n == 0 then State(0, 0)
    else
      var s := Run(q, scan, n - 1);
      StepStays(q, scan, s);
      Step(q, scan, s).1
  }

  lemma StepStays(q: string, scan: Scanner, s: State)
    requires ScannerOk(scan) && 0 <= s.pos <= |q|
    ensures var (token, s') := Step(q, scan, s);
            && SkipBlanks(q, s.pos) <= s'.pos <= |q|
            && (token.EndOfFile? <==> SkipBlanks(q, s.pos) == |q|)
            && (token.Bang? <==> LoneBang(q, SkipBlanks(q, s.pos)))
            && (s'.pos > SkipBlanks(q, s.pos) <==> !token.EndOfFile? && !token.Error? && !token.Bang?)
  {
    hide LexAt;
    var i := SkipBlanks(q, s.pos);
    if i < |q| {
      LexMoves(q, scan, i, s.params);
    }
  }

  lemma RunNext(q: string, scan: Scanner, n: nat)
    requires ScannerOk(scan)
    ensures Run(q, scan, n + 1) == Step(q, scan, Run(q, scan, n)).1
  {
  }

  /** The token of call `n`, counted from 0. */
  function TokenAt(q: string, scan: Scanner, n: nat): Token
    requires ScannerOk(scan)
  {
    Step(q, scan, Run(q, scan, n)).0
  }

  /** The blanks skipped by call `n`, and the characters of its token. */
  function Piece(q: string, scan: Scanner, n: nat): string
    requires ScannerOk(scan)
  {
    var i := SkipBlanks(q, Run(q, scan, n).pos);
    StepStays(q, scan, Run(q, scan, n));
    q[Run(q, scan, n).pos..i] + q[i..Run(q, scan, n + 1).pos]
  }

  function Pieces(q: string, scan: Scanner, n: nat): string
    requires ScannerOk(scan)
  {
    if n == 0 then "" else Pieces(q, scan, n - 1) + Piece(q, scan, n - 1)
  }

  /** Blanks and lexemes, each lexeme spelling its token, are together the text consumed. */
  lemma {:induction false} PiecesCover(q: string, scan: Scanner, n: nat)
    requires ScannerOk(scan)
    ensures Pieces(q, scan, n) == q[..Run(q, scan, n).pos]
    ensures var i, j := SkipBlanks(q, Run(q, scan, n).pos), Run(q, scan, n + 1).pos;
            i <= j && Spelled(TokenAt(q, scan, n), q[i..j])
  {
    hide Spelled, LexAt, Step, Run, ScannerOk, SkipBlanks;
    if n == 0 {
      RunStarts(q, scan);
    } else {
      PiecesCover(q, scan, n - 1);
      StepStays(q, scan, Run(q, scan, n - 1));
      RunNext(q, scan, n - 1);
      Joined(q, Run(q, scan, n - 1).pos, SkipBlanks(q, Run(q, scan, n - 1).pos), Run(q, scan, n).pos);
    }
    RunNext(q, scan, n);
    StepSpells(q, scan, Run(q, scan, n));
  }

  lemma RunStarts(q: string, scan: Scanner)
    requires ScannerOk(scan)
    ensures Run(q, scan, 0) == State(0, 0)
  {
  }

  lemma Joined(q: string, a: nat, b: nat, c: nat)
    requires a <= b <= c <= |q|
    ensures q[..a] + (q[a..b] + q[b..c]) == q[..c]
  {
  }

  lemma StepSpells(q: string, scan: Scanner, s: State)
    requires ScannerOk(scan) && 0 <= s.pos <= |q|
    ensures var (token, s') := Step(q, scan, s); var i := SkipBlanks(q, s.pos);
            i <= s'.pos <= |q| && Spelled(token, q[i..s'.pos])
  {
    hide Spelled, LexAt, ScannerOk, SkipBlanks, KEYWORDS;
    var i := SkipBlanks(q, s.pos);
    if i < |q| {
      LexSpells(q, scan, i, s.params);
    } else {
      NothingSpelled();
      assert q[i..i] == "";
    }
  }

  lemma NothingSpelled()
    ensures Spelled(EndOfFile, "")
  {
  }

  /** The numbers of the '?' tokens among the first `n`. */
  function ParamNumbers(q: string, scan: Scanner, n: nat): seq<nat>
    requires ScannerOk(scan)
  {
    if n == 0 then []
    else ParamNumbers(q, scan, n - 1) + (var t := TokenAt(q, scan, n - 1); if t.Param? then [t.number] else [])
  }

  /** '?' tokens are numbered 0, 1, 2, ... in order. */
  lemma {:induction false} ParamsCountUp(q: string, scan: Scanner, n: nat)
    requires ScannerOk(scan)
    ensures |ParamNumbers(q, scan, n)| == Run(q, scan, n).params
    ensures forall k :: 0 <= k < |ParamNumbers(q, scan, n)| ==> ParamNumbers(q, scan, n)[k] == k
  {
    hide Step, Run, ScannerOk;
    if n == 0 {
      RunStarts(q, scan);
    } else {
      ParamsCountUp(q, scan, n - 1);
      RunNext(q, scan, n - 1);
      StepNumbers(q, scan, Run(q, scan, n - 1));
    }
  }

  lemma StepNumbers(q: string, scan: Scanner, s: State)
    requires ScannerOk(scan) && 0 <= s.pos <= |q|
    ensures var (token, s') := Step(q, scan, s);
            && (token.Param? ==> token.number == s.params)
            && s'.params == if token.Param? then s.params + 1 else s.params
  {
    hide LexAt, ScannerOk;
    var i := SkipBlanks(q, s.pos);
    if i < |q| {
      LexMoves(q, scan, i, s.params);
    }
  }

  // ----- termination

  /** The parser reads no further. */
  predicate Stops(token: Token) {
    token.EndOfFile? || token.EndMarker? || token.Error?
  }

  lemma SkipTwice(q: string, i: nat)
    requires i <= |q|
    ensures SkipBlanks(q, SkipBlanks(q, i)) == SkipBlanks(q, i)
  {
  }

  /** A call that does not move is repeated by every later call. */
  lemma {:induction false} StuckForever(q: string, scan: Scanner, n: nat, m: nat)
    requires ScannerOk(scan) && n <= m
    requires var t := TokenAt(q, scan, n); t.EndOfFile? || t.Error? || t.Bang?
    ensures TokenAt(q, scan, m) == TokenAt(q, scan, n)
    ensures SkipBlanks(q, Run(q, scan, m).pos) == SkipBlanks(q, Run(q, scan, n).pos)
    ensures Run(q, scan, m).params == Run(q, scan, n).params
    decreases m
  {
    hide Run, ScannerOk, Step;
    if n < m {
      StuckForever(q, scan, n, m - 1);
      RunNext(q, scan, m - 1);
      StuckStep(q, scan, Run(q, scan, m - 1));
    }
  }

  lemma StuckStep(q: string, scan: Scanner, s: State)
    requires ScannerOk(scan) && 0 <= s.pos <= |q|
    requires var t := Step(q, scan, s).0; t.EndOfFile? || t.Error? || t.Bang?
    ensures var s' := Step(q, scan, s).1;
            && 0 <= s'.pos <= |q| && SkipBlanks(q, s'.pos) == SkipBlanks(q, s.pos) && s'.params == s.params
            && Step(q, scan, s').0 == Step(q, scan, s).0
  {
    hide LexAt, ScannerOk;
    StepStays(q, scan, s);
    SkipTwice(q, s.pos);
  }

  predicate GoesOn(token: Token) {
    !Stops(token) && !token.Bang?
  }

  lemma CallAdvances(q: string, scan: Scanner, n: nat)
    requires ScannerOk(scan) && GoesOn(TokenAt(q, scan, n))
    ensures Run(q, scan, n + 1).pos > Run(q, scan, n).pos
  {
    hide Run, ScannerOk, Step;
    RunNext(q, scan, n);
    StepStays(q, scan, Run(q, scan, n));
  }

  /** Until the parser stops or a lone '!' turns up, every call takes a character. */
  lemma {:induction false} CallsAdvance(q: string, scan: Scanner, n: nat)
    requires ScannerOk(scan) && forall k :: 0 <= k < n ==> GoesOn(TokenAt(q, scan, k))
    ensures Run(q, scan, n).pos >= n
  {
    hide Run, ScannerOk, TokenAt, GoesOn;
    if n > 0 {
      CallsAdvance(q, scan, n - 1);
      CallAdvances(q, scan, n - 1);
    }
  }

  /** The first call whose token is the end marker is at the end of the query; nothing but end of
      file follows it. */
  lemma MarkerIsLast(q: string, scan: Scanner, n: nat, m: nat)
    requires ScannerOk(scan) && IsQuery(q) && TokenAt(q, scan, n).EndMarker? && n < m
    ensures Run(q, scan, n + 1).pos == |q| && TokenAt(q, scan, m).EndOfFile?
  {
    hide LexAt;
    var s := Run(q, scan, n);
    LexKeepsMarker(q, scan, SkipBlanks(q, s.pos), s.params);
    StuckForever(q, scan, n + 1, m);
  }

  /** Call `n` starts at a '!' without '='. */
  predicate MeetsLoneBang(q: string, scan: Scanner, n: nat)
    requires ScannerOk(scan)
  {
    LoneBang(q, SkipBlanks(q, Run(q, scan, n).pos))
  }

  /** For every query: the lexer reaches its end, or an error, within as many calls as the query
      has characters, if and only if no call starts at a '!' without '='. */
  lemma EndsUnlessLoneBang(q: string, scan: Scanner)
    requires ScannerOk(scan) && IsQuery(q)
    ensures (exists n :: 0 <= n <= |q| && Stops(TokenAt(q, scan, n))) <==> forall n: nat :: !MeetsLoneBang(q, scan, n)
  {
    hide ScannerOk, Step, LexAt;
    forall n: nat ensures TokenAt(q, scan, n).Bang? <==> MeetsLoneBang(q, scan, n) {
      StepStays(q, scan, Run(q, scan, n));
    }
    if n: nat :| MeetsLoneBang(q, scan, n) {
      forall m: nat ensures !Stops(TokenAt(q, scan, m)) {
        BangNeverStops(q, scan, n, m);
      }
    } else {
      StopsInTime(q, scan);
    }
  }

  /** After as many calls as the query has characters, either one has stopped, or the next is at
      the end of the query. */
  lemma StopsInTime(q: string, scan: Scanner)
    requires ScannerOk(scan) && forall n: nat :: !TokenAt(q, scan, n).Bang?
    ensures exists n :: 0 <= n <= |q| && Stops(TokenAt(q, scan, n))
  {
    hide ScannerOk, Step, LexAt, Run;
    if n :| 0 <= n < |q| && Stops(TokenAt(q, scan, n)) {
      assert Stops(TokenAt(q, scan, n));
    } else {
      CallsAdvance(q, scan, |q|);
      StepStays(q, scan, Run(q, scan, |q|));
      assert Stops(TokenAt(q, scan, |q|));
    }
  }

  /** What a caller can see in the text: if every '!' is followed by '=', the lexer ends. */
  lemma EndsWithoutLoneBang(q: string, scan: Scanner)
    requires ScannerOk(scan) && IsQuery(q) && forall i :: 0 <= i < |q| && q[i] == '!' ==> NextIs(q, i, '=')
    ensures exists n :: 0 <= n <= |q| && Stops(TokenAt(q, scan, n))
  {
    EndsUnlessLoneBang(q, scan);
  }

  lemma BangNeverStops(q: string, scan: Scanner, n: nat, m: nat)
    requires ScannerOk(scan) && IsQuery(q) && TokenAt(q, scan, n).Bang?
    ensures !Stops(TokenAt(q, scan, m))
  {
    if n <= m {
      StuckForever(q, scan, n, m);
    } else if TokenAt(q, scan, m).EndMarker? {
      MarkerIsLast(q, scan, m, n);
    } else if Stops(TokenAt(q, scan, m)) {
      StuckForever(q, scan, m, n);
    }
  }

  // ----- operators

  predicate IsOperator(token: Token) {
    token.Arithmetic? || token.Asterisk? || token.Compare? || token.BindVar? || token.Param?
  }

  /** The operators of two characters, from the table of signs. */
  lemma LongOperators(token: Token, lexeme: string)
    requires IsOperator(token) && |lexeme| >= 2 && Spelled(token, lexeme)
    ensures |lexeme| == 2 && TwoSigns(lexeme)
  {
  }

  predicate TwoSigns(lexeme: string) {
    lexeme in {"==", ">=", "<=", "<>", "!=", "??"}
  }

  lemma TwoAreTaken(q: string, scan: Scanner, i: nat, params: nat)
    requires i + 2 <= |q| && TwoSigns(q[i..i + 2])
    ensures LexAt(q, scan, i, params).1 == i + 2
  {
    assert q[i] == q[i..i + 2][0] && q[i + 1] == q[i..i + 2][1];
  }

  /** An operator is read whole: no operator is spelled by more of the text than was taken. */
  lemma OperatorsAreWhole(q: string, scan: Scanner, i: nat, params: nat, token: Token, next: int, longer: Token, j: nat)
    requires ScannerOk(scan) && i < j <= |q| && LexAt(q, scan, i, params) == (token, next) && IsOperator(token)
    requires IsOperator(longer) && next < j
    ensures !Spelled(longer, q[i..j])
  {
    hide LexAt, Spelled, IsOperator, ScannerOk, TwoSigns;
    OperatorMoves(q, scan, i, params);
    if Spelled(longer, q[i..j]) {
      LongOperators(longer, q[i..j]);
      assert j == i + 2;
      TwoAreTaken(q, scan, i, params);
    }
  }

  lemma OperatorMoves(q: string, scan: Scanner, i: nat, params: nat)
    requires ScannerOk(scan) && i < |q| && IsOperator(LexAt(q, scan, i, params).0)
    ensures i < LexAt(q, scan, i, params).1
  {
    hide LexAt;
    LexMoves(q, scan, i, params);
  }

  // ----- strings

  predicate Plain(body: string) {
    forall i :: 0 <= i < |body| ==> body[i] != '\\' && body[i] != '\''
  }

  lemma {:induction false} PlainEnd(q: string, i: nat, j: nat)
    requires i <= j <= |q| && Plain(q[i..j])
    ensures StringEnd(q, i) == StringEnd(q, j)
    decreases j - i
  {
    if i < j {
      assert q[i..j][0] == q[i] && q[i..j][1..] == q[i + 1..j];
      PlainEnd(q, i + 1, j);
    }
  }

  /** One past the quote that closes a string read from `i`, for a reader to whom a backslash takes
      the next character and the first other quote closes. */
  function TrueEnd(q: string, i: nat): (r: Option<nat>)
    requires i <= |q|
    decreases |q| - i
  {
    if i == |q| then None
    else if q[i] == '\\' then if i + 1 == |q| then None else TrueEnd(q, i + 2)
    else if q[i] == '\'' then Some(i + 1)
    else TrueEnd(q, i + 1)
  }

  /** Where the quotes are that a backslash takes, up to the closing quote. */
  function EscapedQuotes(q: string, i: nat): seq<nat>
    requires i <= |q|
    decreases |q| - i
  {
    if i == |q| then []
    else if q[i] == '\\' then
      if i + 1 == |q| then [] else (if q[i + 1] == '\'' then [i + 1] else []) + EscapedQuotes(q, i + 2)
    else if q[i] == '\'' then []
    else EscapedQuotes(q, i + 1)
  }

  /** The first character from `i` on that is no backslash. */
  function AfterBackslashes(q: string, i: nat): (j: nat)
    requires i <= |q|
    ensures i <= j <= |q| && (j < |q| ==> q[j] != '\\') && forall k :: i <= k < j ==> q[k] == '\\'
    decreases |q| - i
  {
    if i < |q| && q[i] == '\\' then AfterBackslashes(q, i + 1) else i
  }

  /** After `i`, perhaps behind backslashes, comes a quote. */
  predicate QuoteFollows(q: string, i: nat) {
    i < |q| && var j := AfterBackslashes(q, i + 1); j < |q| && q[j] == '\''
  }

  /** A run of backslashes before `j`, for the reader: by pairs, the odd one taking `j`. */
  lemma {:induction false} TrueRun(q: string, i: nat, j: nat)
    requires i <= j <= |q| && (j < |q| ==> q[j] != '\\') && forall k :: i <= k < j ==> q[k] == '\\'
    ensures (j - i) % 2 == 0 ==> TrueEnd(q, i) == TrueEnd(q, j) && EscapedQuotes(q, i) == EscapedQuotes(q, j)
    ensures (j - i) % 2 == 1 && j == |q| ==> TrueEnd(q, i).None? && EscapedQuotes(q, i) == []
    ensures (j - i) % 2 == 1 && j < |q| ==>
              && TrueEnd(q, i) == TrueEnd(q, j + 1)
              && EscapedQuotes(q, i) == (if q[j] == '\'' then [j] else []) + EscapedQuotes(q, j + 1)
    decreases j - i
  {
    if i + 2 <= j {
      TrueRun(q, i + 2, j);
    }
  }

  /** The same run for the lexer. */
  lemma {:induction false} LexedRun(q: string, i: nat, j: nat)
    requires i <= j <= |q| && (j < |q| ==> q[j] != '\\') && forall k :: i <= k < j ==> q[k] == '\\'
    ensures (j - i) % 2 == 0 ==> StringEnd(q, i) == StringEnd(q, j)
    ensures (j - i) % 2 == 1 ==>
              StringEnd(q, i) == if j == |q| then None
                                 else if q[j] != '\'' then StringEnd(q, j + 1)
                                 else if j + 1 == |q| then None else StringEnd(q, j + 2)
    decreases j - i
  {
    if i + 2 <= j {
      LexedRun(q, i + 2, j);
    }
  }

  lemma {:induction false} TrueEndAfter(q: string, i: nat)
    requires i <= |q|
    ensures TrueEnd(q, i).Some? ==> i < TrueEnd(q, i).value
    decreases |q| - i
  {
    if i < |q| && q[i] == '\\' && i + 2 <= |q| {
      TrueEndAfter(q, i + 2);
    } else if i < |q| && q[i] != '\'' && q[i] != '\\' {
      TrueEndAfter(q, i + 1);
    }
  }

  /** Behind an escaped quote that a quote follows, the two readers part for good. */
  lemma PartAtQuote(q: string, i: nat)
    requires i + 2 <= |q| && q[i] == '\\' && q[i + 1] == '\'' && QuoteFollows(q, i + 1)
    ensures StringEnd(q, i) != TrueEnd(q, i)
  {
    var j := AfterBackslashes(q, i + 2);
    TrueRun(q, i + 2, j);
    if j > i + 2 {
      LexedRun(q, i + 3, j);
    }
    TrueEndAfter(q, j + 1);
  }

  /** Behind one that no quote follows, they meet again past the next character. */
  function MeetingPlace(q: string, i: nat): (next: nat)
    requires i + 2 <= |q|
    ensures i + 2 <= next <= |q|
  {
    var j := AfterBackslashes(q, i + 2);
    if j < |q| then j + 1 else j
  }

  lemma TrueMeets(q: string, i: nat)
    requires i + 2 <= |q| && q[i] == '\\' && q[i + 1] == '\'' && !QuoteFollows(q, i + 1)
    ensures TrueEnd(q, i) == TrueEnd(q, MeetingPlace(q, i))
    ensures EscapedQuotes(q, i) == [i + 1] + EscapedQuotes(q, MeetingPlace(q, i))
  {
    var j := AfterBackslashes(q, i + 2);
    TrueRun(q, i + 2, j);
    assert EscapedQuotes(q, i) == [i + 1] + EscapedQuotes(q, i + 2);
    if j < |q| {
      assert EscapedQuotes(q, j) == EscapedQuotes(q, j + 1);
      assert [] + EscapedQuotes(q, j + 1) == EscapedQuotes(q, j + 1);
    }
  }

  lemma LexedMeets(q: string, i: nat)
    requires i + 2 <= |q| && q[i] == '\\' && q[i + 1] == '\'' && !QuoteFollows(q, i + 1)
    ensures StringEnd(q, i) == StringEnd(q, MeetingPlace(q, i))
  {
    var j := AfterBackslashes(q, i + 2);
    if j > i + 2 {
      LexedRun(q, i + 3, j);
    }
  }

  /** For every text: the lexer ends a string where it ends if and only if, among its escaped
      quotes, none is followed by a quote, directly or behind backslashes. */
  lemma {:induction false} StringEndIsTrue(q: string, i: nat)
    requires i <= |q|
    ensures StringEnd(q, i) == TrueEnd(q, i) <==> forall k :: k in EscapedQuotes(q, i) ==> !QuoteFollows(q, k)
    decreases |q| - i
  {
    if i < |q| && q[i] == '\\' && i + 1 < |q| {
      if q[i + 1] != '\'' {
        StringEndIsTrue(q, i + 2);
        assert EscapedQuotes(q, i) == EscapedQuotes(q, i + 2);
      } else if QuoteFollows(q, i + 1) {
        PartAtQuote(q, i);
        assert EscapedQuotes(q, i)[0] == i + 1;
      } else {
        TrueMeets(q, i);
        LexedMeets(q, i);
        StringEndIsTrue(q, MeetingPlace(q, i));
      }
    } else if i < |q| && q[i] != '\\' && q[i] != '\'' {
      StringEndIsTrue(q, i + 1);
    }
  }

  /** A string without quotes or backslashes is read as it is; one that ends in an escaped quote
      swallows its closing quote, and is an error when no other quote follows. */
  lemma StringsRead(body: string, rest: string, scan: Scanner, params: nat)
    requires Plain(body)
    ensures LexAt("'" + body + "'" + rest, scan, 0, params) == (Text(body), |body| + 2)
    ensures '\'' !in rest ==> LexAt("'" + body + "\\''" + rest, scan, 0, params).0 == Error(BadString)
  {
    var q, r := "'" + body + "'" + rest, "'" + body + "\\''" + rest;
    assert q[1..1 + |body|] == body && r[1..1 + |body|] == body;
    PlainEnd(q, 1, 1 + |body|);
    PlainEnd(r, 1, 1 + |body|);
    if '\'' !in rest {
      assert r[4 + |body|..] == rest;
      NoQuoteNoEnd(r, 4 + |body|);
    }
  }

  lemma {:induction false} NoQuoteNoEnd(q: string, i: nat)
    requires i <= |q| && '\'' !in q[i..]
    ensures StringEnd(q, i).None?
    decreases |q| - i
  {
    if i < |q| {
      var next := if q[i] == '\\' && i + 1 < |q| then i + 2 else i + 1;
      assert q[i] == q[i..][0] && q[next..] == q[i..][next - i..];
      if q[i] == '\\' && i + 1 < |q| {
        assert q[i + 1] == q[i..][1];
      }
      NoQuoteNoEnd(q, next);
    }
  }

  // ----- the code

  /** sql_stmt, as far as the lexer uses it. */
  class SqlStmt {
    const query: string
    const scan: Scanner
    var queryPtr: nat
    var errPtr: nat
    var numParam: nat
    var errMsg: Maybe

    predicate Valid()
      reads this
    {
      queryPtr <= |query|
    }

    function Abs(): State
      reads this
    {
      State(queryPtr, numParam)
    }

    /** The scan of a number.  Its error branches before the call of sscanf are for texts that do
        not start a number, and are left out. */
    method LexNumber(start: nat) returns (token: Token)
      requires Valid() && ScannerOk(scan) && queryPtr == start < |query| && StartsNumber(query, start)
      modifies this`queryPtr, this`errMsg
      ensures Valid() && (token, queryPtr as int) == NumberAt(query, scan, start)
    {
      var p := start;
      if query[p] == '-' {
        p := p + 1;
      }
      ghost var from := p;
      while p < |query| && IsDigit(query[p])
        invariant from <= p <= |query| && DigitsEnd(query, p) == DigitsEnd(query, from)
      {
        p := p + 1;
      }
      if p == |query| || (query[p] != '.' && query[p] != 'E' && query[p] != 'e') {
        queryPtr := p;
        return Integer;
      }
      var n := scan(query[start..]);
      if n == -1 {
        errMsg := Last(BadNumber);
        return Error(BadNumber);
      }
      queryPtr := queryPtr + n;
      return Real;
    }

    method LexString(start: nat) returns (token: Token)
      requires Valid() && queryPtr == start < |query| && query[start] == '\''
      modifies this`queryPtr, this`errMsg
      ensures Valid() && (token, queryPtr as int) == LexAt(query, scan, start, numParam)
    {
      var p := start + 1;
      while p < |query|
        invariant start < p <= |query| && StringEnd(query, p) == StringEnd(query, start + 1)
      {
        var c := query[p];
        p := p + 1;
        if c == '\\' {
          if p == |query| {
            break;
          }
          c := query[p];
          p := p + 1;
          if c == '\'' {
            if p == |query| {
              break;
            }
            p := p + 1;
          }
        } else if c == '\'' {
          queryPtr := p;
          return Text(query[start + 1..p - 1]);
        }
      }
      errMsg := Last(BadString);
      return Error(BadString);
    }

    method LexQuoted(start: nat) returns (token: Token)
      requires Valid() && queryPtr == start < |query| && query[start] == '"'
      modifies this`queryPtr, this`errMsg
      ensures Valid() && (token, queryPtr as int) == LexAt(query, scan, start, numParam)
    {
      var p := start + 1;
      while p < |query|
        invariant start < p <= |query| && QuotedEnd(query, p) == QuotedEnd(query, start + 1)
      {
        var c := query[p];
        p := p + 1;
        if c == '"' {
          queryPtr := p;
          return Quoted(query[start + 1..p - 1]);
        }
      }
      errMsg := Last(BadQuoted);
      return Error(BadQuoted);
    }

    /** The switch over the keywords, tested in its order, then the identifier. */
    method LexWord(start: nat) returns (token: Token)
      requires Valid() && queryPtr == start < |query|
      modifies this`queryPtr
      ensures Valid() && (token, queryPtr as int) == WordAt(query, start)
    {
      hide KEYWORDS, Applies;
      var k := 0;
      while k < |KEYWORDS| && !Applies(query, start, KEYWORDS[k])
        invariant 0 <= k <= |KEYWORDS| && FindKeyword(query, start, k) == FindKeyword(query, start, 0)
      {
        k := k + 1;
      }
      if k < |KEYWORDS| {
        AppliesFits(query, start, KEYWORDS[k]);
        queryPtr := start + KEYWORDS[k].Length();
        return Keyword(k);
      }
      var p := start;
      while p < |query| && InWord(query[p])
        invariant start <= p <= |query| && WordEnd(query, p) == WordEnd(query, start)
      {
        p := p + 1;
      }
      queryPtr := p;
      return Ident(query[start..p]);
    }

    /** The operators and the other single characters. */
    method LexSymbol(start: nat) returns (token: Token)
      requires Valid() && queryPtr == start < |query| && !StartsNumber(query, start) && !IsLetter(query[start])
      requires query[start] != '_' && query[start] != '\'' && query[start] != '"' && query[start] != '['
      modifies this`queryPtr, this`numParam
      ensures Valid() && (token, queryPtr as int) == LexAt(query, scan, start, old(numParam))
      ensures numParam == if token.Param? then old(numParam) + 1 else old(numParam)
    {
      var c, p := query[start], start + 1;
      if c == ':' {
        token := BindVar;
      } else if c == '+' {
        token := Arithmetic(Plus);
      } else if c == '-' {
        token := Arithmetic(Minus);
      } else if c == '*' {
        token := Asterisk;
      } else if c == '/' {
        token := Arithmetic(Div);
      } else if c == '=' {
        if p < |query| && query[p] == '=' {
          p := p + 1;
        }
        token := Compare(Eq);
      } else if c == '>' {
        token := Compare(Gt);
        if p < |query| && query[p] == '=' {
          p := p + 1;
          token := Compare(Ge);
        }
      } else if c == '<' {
        token := Compare(Lt);
        if p < |query| && query[p] == '=' {
          p := p + 1;
          token := Compare(Le);
        } else if p < |query| && query[p] == '>' {
          p := p + 1;
          token := Compare(Ne);
        }
      } else if c == '!' {
        if p < |query| && query[p] == '=' {
          p := p + 1;
          token := Compare(Ne);
        } else {
          return Bang;
        }
      } else if c == '?' {
        var number := numParam;
        numParam := numParam + 1;
        token := Param(number, false);
        if p < |query| && query[p] == '?' {
          p := p + 1;
          token := Param(number, true);
        }
      } else {
        token := if c == '\0' then EndMarker else Single(c);
      }
      queryPtr := p;
    }

    /** sqlyylex: one token. */
    method NextToken() returns (token: Token)
      requires Valid() && ScannerOk(scan)
      modifies this
      ensures Valid() && (token, Abs()) == Step(query, scan, old(Abs()))
      ensures errPtr == SkipBlanks(query, old(queryPtr))
    {
      hide StringEnd, QuotedEnd, WordAt, NumberAt, ScannerOk;
      var p := queryPtr;
      while p < |query| && IsBlank(query[p])
        invariant queryPtr <= p <= |query| && SkipBlanks(query, p) == SkipBlanks(query, queryPtr)
      {
        p := p + 1;
      }
      queryPtr, errPtr := p, p;
      if p == |query| {
        return EndOfFile;
      }
      var c := query[p];
      if StartsNumber(query, p) {
        token := LexNumber(p);
        NumberMoves(query, scan, p);
      } else if c == '\'' {
        token := LexString(p);
      } else if c == '"' {
        token := LexQuoted(p);
      } else if c == '[' {
        if p + 9 < |query| && query[p + 9] == ']' {
          queryPtr := p + 10;
          return Date(query[p + 1..p + 9]);
        }
        errMsg := Last(BadDate);
        return Error(BadDate);
      } else if IsLetter(c) || c == '_' {
        token := LexWord(p);
        WordMoves(query, p);
      } else {
        token := LexSymbol(p);
      }
    }
  }
}
