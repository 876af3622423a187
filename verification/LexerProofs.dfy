/** Writing tokens down and lexing them again, and when the lexer returns at all. */
module LexerProofs {
  import opened Values
  import opened Tokens
  import opened Lexers
  import opened LexicalGrammar
  import opened Wrappers

  /** What can be written down: all but the end of the file, the error, and names or numbers that would be misread. */
  predicate Writable(t: Token, isFloat: Text -> bool) {
    match t
    case Sign(k) => k != EndOfFile && k != Error
    case Identifier(name) => WholeWord(name, SPACE_CHARACTER) && forall k :: !SpellsWord(name, k)
    case IntegerLiteral(_) => true
    case FloatLiteral(text) => NumberText(text) && !IsInt(text) && isFloat(text)
    case StringLiteral(text) => Unquoted(text)
  }

  const SPACE_CHARACTER: char8 := ' '

  /** The text is a spelling of the token: keywords in any case, and `!=` or `<>` for the one sign that has two. */
  predicate SpellsToken(text: Text, t: Token) {
    match t
    case Sign(k) => SpellsWord(text, k) || SpellsSign(text, k, SPACE_CHARACTER)
    case Identifier(name) => text == name
    case IntegerLiteral(digits) => text == digits
    case FloatLiteral(number) => text == number
    case StringLiteral(body) => text == "'" + body + "'"
  }

  predicate IsBlank(c: char8) { c == ' ' || c == '\n' || c == '\t' || c == '\r' }

  predicate IsGap(s: Text) { s != [] && forall i :: 0 <= i < |s| ==> IsBlank(s[i]) }

  /** Spellings one after the other, each followed by its gap. */
  function Write(texts: seq<Text>, gaps: seq<Text>): Text
    requires |gaps| == |texts|
  {
    if texts == [] then [] else texts[0] + (gaps[0] + Write(texts[1..], gaps[1..]))
  }

  ghost predicate SpellsAll(texts: seq<Text>, ts: seq<Token>) {
    |texts| == |ts| && forall i :: 0 <= i < |ts| ==> SpellsToken(texts[i], ts[i])
  }

  lemma BlankEnds(c: char8)
    requires IsBlank(c)
    ensures !WordCode(c) && c !in SIGN_CHARACTERS && c != '\'' && c != NUL && PassedOver([c])
  {
  }

  lemma {:induction false} GapTokenized(gap: Text, rest: Text, ts: seq<Token>, isFloat: Text -> bool)
    requires (forall i :: 0 <= i < |gap| ==> IsBlank(gap[i])) && Tokenized(rest, ts, isFloat)
    ensures Tokenized(gap + rest, ts, isFloat)
  {
    hide Lexeme, PassedOver;
    if gap == [] {
      assert gap + rest == rest;
    } else {
      hide Tokenized;
      GapTokenized(gap[1..], rest, ts, isFloat);
      BlankEnds(gap[0]);
      assert gap + rest == [gap[0]] + (gap[1..] + rest);
      TokenizedNext(gap + rest, [gap[0]], None, gap[1..] + rest, ts, isFloat);
    }
  }

  lemma AnyBlank(c: char8, text: Text, k: Kind)
    requires IsBlank(c)
    ensures SpellsSign(text, k, c) <==> SpellsSign(text, k, SPACE_CHARACTER)
  {
  }

  /** A spelling in front of a blank is a piece of the text. */
  lemma SpelledIsPiece(text: Text, t: Token, tail: Text, isFloat: Text -> bool)
    requires Writable(t, isFloat) && SpellsToken(text, t) && IsBlank(First(tail))
    ensures Piece(text, Some(t), tail, isFloat)
  {
    BlankEnds(First(tail));
    SpelledIsLexeme(text, t, tail, isFloat);
    LexemeBegins(text, t, tail, isFloat);
    hide Lexeme, WholeWord, WholeNumber, SpellsToken, Writable;
    SpellingIsNotPassedOver(text, t);
  }

  lemma SpelledIsLexeme(text: Text, t: Token, tail: Text, isFloat: Text -> bool)
    requires Writable(t, isFloat) && SpellsToken(text, t) && IsBlank(First(tail)) && !WordCode(First(tail))
    ensures text != [] && Lexeme(text, t, tail, isFloat)
  {
    match t
    case Sign(k) =>
      AnyBlank(First(tail), text, k);
      hide SpellsSign;
      if SpellsWord(text, k) {
        SpelledWordIsWhole(text, k, First(tail));
      } else {
        SignBegins(text, k, SPACE_CHARACTER);
      }
      hide SpellsWord;
    case IntegerLiteral(digits) => IntegerIsNumber(digits);
    case _ => hide SpellsSign, SpellsWord;
  }

  lemma IntegerIsNumber(digits: IntDigits)
    ensures NumberText(digits)
  {
  }

  lemma SpelledWordIsWhole(text: Text, k: Kind, next: char8)
    requires SpellsWord(text, k) && !WordCode(next)
    ensures WholeWord(text, next)
  {
    WordRead(k);
    hide WordText;
    assert forall i :: 0 <= i < |text| ==> SameLetter(text[i], WordText(k)[i]);
  }

  lemma SpellingIsNotPassedOver(text: Text, t: Token)
    requires text != []
    requires || (text[0] in SIGN_CHARACTERS && |text| <= 2) || text[0] == '\'' || WordCode(text[0])
    ensures !PassedOver(text)
  {
  }

  /** Lexing what was written gives the tokens back, whatever spellings were taken and blanks put between them. */
  lemma {:induction false} WriteThenLex(ts: seq<Token>, texts: seq<Text>, gaps: seq<Text>, isFloat: Text -> bool)
    requires SpellsAll(texts, ts) && |gaps| == |ts|
    requires forall i :: 0 <= i < |ts| ==> Writable(ts[i], isFloat) && IsGap(gaps[i])
    ensures Lex(Write(texts, gaps), isFloat) == Some(ts + [Sign(EndOfFile)])
  {
    WrittenIsTokenized(ts, texts, gaps, isFloat);
    LexerReadsTheGrammar(Write(texts, gaps), ts, isFloat);
  }

  lemma {:induction false} WrittenIsTokenized(ts: seq<Token>, texts: seq<Text>, gaps: seq<Text>, isFloat: Text -> bool)
    requires SpellsAll(texts, ts) && |gaps| == |ts|
    requires forall i :: 0 <= i < |ts| ==> Writable(ts[i], isFloat) && IsGap(gaps[i])
    ensures Tokenized(Write(texts, gaps), ts, isFloat)
  {
    hide SpellsToken, Writable, Lexeme, PassedOver;
    if ts != [] {
      hide Tokenized, Piece;
      var rest := Write(texts[1..], gaps[1..]);
      var tail := gaps[0] + rest;
      assert IsBlank(gaps[0][0]) && First(tail) == gaps[0][0];
      WrittenIsTokenized(ts[1..], texts[1..], gaps[1..], isFloat);
      GapTokenized(gaps[0], rest, ts[1..], isFloat);
      SpelledIsPiece(texts[0], ts[0], tail, isFloat);
      PieceBegins(texts[0], Some(ts[0]), tail, isFloat);
      TokenizedNext(texts[0] + tail, texts[0], Some(ts[0]), tail, ts, isFloat);
    }
  }

  lemma PieceBegins(text: Text, t: Option<Token>, rest: Text, isFloat: Text -> bool)
    requires Piece(text, t, rest, isFloat)
    ensures text != [] && First(text + rest) == text[0] != NUL
  {
  }

  // Only such tokens ever come out.

  lemma LexemeIsWritable(text: Text, t: Token, rest: Text, isFloat: Text -> bool)
    requires Lexeme(text, t, rest, isFloat)
    ensures Writable(t, isFloat) || t == Sign(Error)
  {
    hide WordText, SpellsSign;
    if t == Sign(EndOfFile) {
      NoSpelling(text, First(rest));
    }
  }

  lemma NoSpelling(text: Text, next: char8)
    ensures !SpellsWord(text, EndOfFile) && !SpellsSign(text, EndOfFile, next)
  {
  }

  lemma {:induction false} TokenizedIsWritable(s: Text, ts: seq<Token>, isFloat: Text -> bool)
    requires Tokenized(s, ts, isFloat)
    ensures forall i :: 0 <= i < |ts| ==> Writable(ts[i], isFloat) || ts[i] == Sign(Error)
    decreases |s|
  {
    hide Lexeme, PassedOver, Writable;
    if First(s) != NUL {
      var text, rest := FirstPiece(s, ts, isFloat);
      if PassedOver(text) {
        TokenizedIsWritable(rest, ts, isFloat);
      } else {
        LexemeIsWritable(text, ts[0], rest, isFloat);
        TokenizedIsWritable(rest, ts[1..], isFloat);
        assert forall i :: 0 < i < |ts| ==> ts[i] == ts[1..][i - 1];
      }
    }
  }

  lemma {:induction false} LexedIsWritable(s: Text, isFloat: Text -> bool)
    requires Lex(s, isFloat).Some?
    ensures var ts := Lex(s, isFloat).value;
      forall i :: 0 <= i < |ts| - 1 ==> Writable(ts[i], isFloat) || ts[i] == Sign(Error)
  {
    var all := Lex(s, isFloat).value;
    var ts := all[..|all| - 1];
    assert all == ts + [Sign(EndOfFile)];
    hide Lex, Tokenized, Writable;
    LexerReadsTheGrammar(s, ts, isFloat);
    TokenizedIsWritable(s, ts, isFloat);
    assert forall i :: 0 <= i < |ts| ==> all[i] == ts[i];
  }

  const SPACE: Text := " "

  function Spaces(n: nat): (gaps: seq<Text>)
    ensures |gaps| == n && forall i :: 0 <= i < n ==> gaps[i] == SPACE
  {
    seq(n, _ => SPACE)
  }

  function SignText(k: Kind): Text {
    match k
    case Equal => "=" case NotEqual => "!=" case LessThan => "<" case LessEq => "<=" case GreaterThan => ">"
    case GreaterEq => ">=" case Plus => "+" case Minus => "-" case Asterisk => "*" case Slash => "/" case Comma => ","
    case Semicolon => ";" case LeftParen => "(" case RightParen => ")" case Dot => "." case Unknown => "!"
    case _ => ""
  }

  /** A spelling for every token. */
  function Spelling(t: Token): Text {
    match t
    case Sign(k) => if IsWord(k) then WordText(k) else SignText(k)
    case Identifier(name) => name
    case IntegerLiteral(digits) => digits
    case FloatLiteral(number) => number
    case StringLiteral(body) => "'" + body + "'"
  }

  lemma EveryKindIsSpelled(k: Kind)
    requires k != EndOfFile && k != Error
    ensures IsWord(k) || SpellsSign(SignText(k), k, SPACE_CHARACTER)
  {
  }

  lemma SpellingSpells(t: Token, isFloat: Text -> bool)
    requires Writable(t, isFloat)
    ensures SpellsToken(Spelling(t), t)
  {
    if t.Sign? {
      EveryKindIsSpelled(t.kind);
    }
    hide WordText, SpellsSign, SignText;
  }

  function Spellings(ts: seq<Token>): (texts: seq<Text>)
    ensures |texts| == |ts| && forall i :: 0 <= i < |ts| ==> texts[i] == Spelling(ts[i])
  {
    seq(|ts|, i requires 0 <= i < |ts| => Spelling(ts[i]))
  }

  /** Tokens without the lexer's error are what some text lexes to if and only if each can be written down. */
  lemma LexableIffWritable(ts: seq<Token>, isFloat: Text -> bool)
    requires Sign(Error) !in ts
    ensures (exists s :: Lex(s, isFloat) == Some(ts + [Sign(EndOfFile)])) <==> forall t :: t in ts ==> Writable(t, isFloat)
  {
    hide Lex, Writable, Spelling, SpellsToken;
    if forall t :: t in ts ==> Writable(t, isFloat) {
      forall i | 0 <= i < |ts|
        ensures SpellsToken(Spellings(ts)[i], ts[i])
      {
        SpellingSpells(ts[i], isFloat);
      }
      WriteThenLex(ts, Spellings(ts), Spaces(|ts|), isFloat);
    }
    forall s | Lex(s, isFloat) == Some(ts + [Sign(EndOfFile)])
      ensures forall t :: t in ts ==> Writable(t, isFloat)
    {
      LexedIsWritable(s, isFloat);
      assert forall i | 0 <= i < |ts| :: (ts + [Sign(EndOfFile)])[i] == ts[i];
    }
  }

  // A number is the value of its digits.

  function Power10(n: nat): nat { if n == 0 then 1 else 10 * Power10(n - 1) }

  lemma {:induction false} DigitsCount(a: Text, b: Text)
    requires AllDigits(a) && AllDigits(b)
    ensures AllDigits(a + b) && DecimalValue(a + b) == DecimalValue(a) * Power10(|b|) + DecimalValue(b)
    ensures |b| == 1 ==> DecimalValue(b) == b[0] as int - 48
  {
    if b == [] {
      assert a + b == a;
    } else {
      var n := |b| - 1;
      assert (a + b)[..|a + b| - 1] == a + b[..n] && (a + b)[|a + b| - 1] == b[n];
      DigitsCount(a, b[..n]);
      assert |b| == 1 ==> b[..n] == [];
      TenTimes(DecimalValue(a), Power10(n));
    }
  }

  lemma TenTimes(a: nat, p: nat)
    ensures 10 * (a * p) == a * (10 * p)
  {
  }

  // When the lexer returns.

  datatype Mode = Plain | Quoted | Comment

  /** Reading the text character by character, it ends inside a comment. */
  predicate EndsInComment(s: Text, mode: Mode) {
    if s == [] then mode == Comment
    else match mode
      case Plain =>
        if s[0] == NUL then false
        else if s[0] == '-' && Second(s) == '-' then EndsInComment(s[1..], Comment)
        else EndsInComment(s[1..], if s[0] == '\'' then Quoted else Plain)
      case Quoted => EndsInComment(s[1..], if s[0] == '\'' || s[0] == NUL then Plain else Quoted)
      case Comment => EndsInComment(s[1..], if s[0] == '\n' then Plain else Comment)
  }

  lemma {:induction false} CommentPassed(s: Text)
    ensures EndsInComment(s, Comment) == match LineLength(s)
      case None => true
      case Some(n) => EndsInComment(s[n + 1..], Plain)
  {
    if s != [] {
      CommentPassed(s[1..]);
      assert LineLength(s[1..]).Some? ==> s[1..][LineLength(s[1..]).value + 1..] == s[LineLength(s[1..]).value + 2..];
    }
  }

  lemma {:induction false} LiteralPassed(s: Text)
    ensures EndsInComment(s, Quoted) == EndsInComment(After(s, LiteralLength(s) + 1), Plain)
  {
    if s != [] {
      LiteralPassed(s[1..]);
      assert After(s[1..], LiteralLength(s[1..]) + 1) == After(s, LiteralLength(s[1..]) + 2);
    }
  }

  lemma {:induction false} WordPassed(s: Text)
    ensures EndsInComment(s, Plain) == EndsInComment(s[WordLength(s)..], Plain)
  {
    if IsWordChar(First(s)) {
      WordPassed(s[1..]);
      assert s[1..][WordLength(s[1..])..] == s[WordLength(s)..];
    } else {
      assert s[0..] == s;
    }
  }

  lemma {:induction false} NumberPassed(s: Text, hasDot: bool)
    ensures EndsInComment(s, Plain) == EndsInComment(s[NumberLength(s, hasDot)..], Plain)
  {
    if NumberLength(s, hasDot) > 0 {
      var dot := hasDot || !IsDigit(s[0]);
      NumberPassed(s[1..], dot);
      assert s[1..][NumberLength(s[1..], dot)..] == s[NumberLength(s, hasDot)..];
    } else {
      assert s[0..] == s;
    }
  }

  lemma TurnPassed(s: Text, isFloat: Text -> bool)
    requires First(s) != NUL
    ensures Next(s, isFloat).Endless? ==> EndsInComment(s, Plain)
    ensures !Next(s, isFloat).Endless? ==>
      !Next(s, isFloat).End? && EndsInComment(s, Plain) == EndsInComment(After(s, Next(s, isFloat).n), Plain)
  {
    hide WordToken, NumberToken, WordLength, NumberLength, LiteralLength, LineLength;
    CommentPassed(s);
    if IsWordStart(First(s)) {
      WordPassed(s);
    } else if IsDigit(First(s)) {
      NumberPassed(s, false);
    } else if First(s) == '\'' {
      LiteralPassed(s[1..]);
      assert After(s[1..], LiteralLength(s[1..]) + 1) == After(s, LiteralLength(s[1..]) + 2);
    } else if First(s) == '-' && Second(s) == '-' {
      assert EndsInComment(s, Comment) == EndsInComment(s[1..], Comment);
    } else if |s| > 1 {
      assert s[1..][1..] == s[2..];
    }
  }

  /** The source returns if and only if the text does not end inside a comment. */
  lemma {:induction false} ReturnsIff(s: Text, isFloat: Text -> bool)
    ensures Lex(s, isFloat).Some? <==> !EndsInComment(s, Plain)
    decreases |s|
  {
    hide Next;
    if First(s) == NUL {
      LexEnd(s, isFloat);
    } else {
      TurnPassed(s, isFloat);
      if !Next(s, isFloat).Endless? {
        ReturnsIff(After(s, Next(s, isFloat).n), isFloat);
      }
    }
  }
}
