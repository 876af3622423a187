/**
 The lexer: query text to tokens. The specification reads the rest of the text from the front; the
 class works on the whole query with a position, as the source does. Tokens lose their line number
 and, for keywords and signs, their spelling, which only reach error messages.
 */
module Lexers {
  import opened Values
  import opened Tokens
  import opened Wrappers

  const NUL: char8 := '\0'

  predicate IsLetter(c: char8) { 'a' <= c <= 'z' || 'A' <= c <= 'Z' }
  predicate IsWordStart(c: char8) { IsLetter(c) || c == '_' }
  predicate IsWordChar(c: char8) { IsLetter(c) || IsDigit(c) || c == '_' }

  function UpperChar(c: char8): char8 {
    if 'a' <= c <= 'z' then (c as int - 'a' as int + 'A' as int) as char else c
  }

  function ToUpper(s: Text): (u: Text)
    ensures |u| == |s|
  {
    seq(|s|, i requires 0 <= i < |s| => UpperChar(s[i]))
  }

  /** The keyword an upper-case word is, if any, by length; other words are identifiers. */
  function Keyword(u: Text): (k: Option<Kind>)
    ensures k.Some? ==> k.value != EndOfFile && k.value != Error
  {
    match |u|
    case 2 =>
      if u == "ON" then Some(On) else if u == "OR" then Some(Or) else if u == "IS" then Some(Is) else None
    case 3 =>
      if u == "SET" then Some(Set) else if u == "KEY" then Some(Key) else if u == "AND" then Some(And)
      else if u == "NOT" then Some(Not) else None
    case 4 =>
      if u == "FROM" then Some(From) else if u == "INTO" then Some(Into) else if u == "DROP" then Some(Drop)
      else if u == "NULL" then Some(NullWord) else if u == "TRUE" then Some(True) else if u == "TEXT" then Some(TextWord)
      else None
    case 5 =>
      if u == "WHERE" then Some(Where) else if u == "TABLE" then Some(Table) else if u == "INDEX" then Some(Index)
      else if u == "BEGIN" then Some(Begin) else if u == "FALSE" then Some(False) else if u == "FLOAT" then Some(FloatWord)
      else None
    case 6 =>
      if u == "SELECT" then Some(Select) else if u == "INSERT" then Some(Insert) else if u == "VALUES" then Some(ValuesWord)
      else if u == "UPDATE" then Some(Update) else if u == "DELETE" then Some(Delete)
      else if u == "CREATE" then Some(Create) else if u == "COMMIT" then Some(Commit) else None
    case 7 =>
      if u == "PRIMARY" then Some(Primary) else if u == "INTEGER" then Some(IntegerWord)
      else if u == "BOOLEAN" then Some(BooleanWord) else None
    case 8 => if u == "ROLLBACK" then Some(Rollback) else None
    case _ => None
  }

  function WordToken(word: Text): Token {
    match Keyword(ToUpper(word))
    case Some(k) => Sign(k)
    case None => Identifier(word)
  }

  /** `isFloat` decides which of the other numbers the platform accepts as a `float`. */
  function NumberToken(number: Text, isFloat: Text -> bool): Token {
    if IsInt(number) then IntegerLiteral(number)
    else if isFloat(number) then FloatLiteral(number)
    else Sign(Unknown)
  }

  // The characters at the front; the end of the text reads as NUL.

  function First(s: Text): char8 { if |s| > 0 then s[0] else NUL }
  function Second(s: Text): char8 { if |s| > 1 then s[1] else NUL }
  function After(s: Text, n: nat): Text { if n <= |s| then s[n..] else [] }

  function WordLength(s: Text): (n: nat)
    ensures n <= |s|
  {
    if IsWordChar(First(s)) then 1 + WordLength(s[1..]) else 0
  }

  /** Digits with at most one dot among them. */
  function NumberLength(s: Text, hasDot: bool): (n: nat)
    ensures n <= |s|
  {
    if IsDigit(First(s)) then 1 + NumberLength(s[1..], hasDot)
    else if !hasDot && First(s) == '.' then 1 + NumberLength(s[1..], true)
    else 0
  }

  /** Up to the closing quote, or to the end. */
  function LiteralLength(s: Text): (n: nat)
    ensures n <= |s|
  {
    if First(s) == '\'' || First(s) == NUL then 0 else 1 + LiteralLength(s[1..])
  }

  /** Up to the end of the line; without one, nothing. */
  function LineLength(s: Text): (n: Option<nat>)
    ensures n.Some? ==> n.value < |s| && s[n.value] == '\n'
    ensures n.None? <==> '\n' !in s
  {
    if s == [] then None
    else if s[0] == '\n' then Some(0)
    else match LineLength(s[1..])
      case None => None
      case Some(n) => Some(n + 1)
  }

  function SignAt(c: char8, next: char8): (r: Option<(Kind, nat)>)
    ensures r.Some? ==> 1 <= r.value.1 <= 2
  {
    if c == '=' then Some((Equal, 1))
    else if c == '!' then (if next == '=' then Some((NotEqual, 2)) else Some((Unknown, 1)))
    else if c == '<' then
      if next == '=' then Some((LessEq, 2)) else if next == '>' then Some((NotEqual, 2)) else Some((LessThan, 1))
    else if c == '>' then (if next == '=' then Some((GreaterEq, 2)) else Some((GreaterThan, 1)))
    else if c == '+' then Some((Plus, 1))
    else if c == '-' then Some((Minus, 1))
    else if c == '*' then Some((Asterisk, 1))
    else if c == '/' then Some((Slash, 1))
    else if c == ',' then Some((Comma, 1))
    else if c == ';' then Some((Semicolon, 1))
    else if c == '.' then Some((Dot, 1))
    else if c == '(' then Some((LeftParen, 1))
    else if c == ')' then Some((RightParen, 1))
    else None
  }

  /** One turn of the loop: it ends, never ends, passes over characters, or takes a token from them. */
  datatype Turn = End | Endless | Skip(n: nat) | Take(token: Token, n: nat)

  function Next(s: Text, isFloat: Text -> bool): (t: Turn)
    ensures t.Skip? || t.Take? ==> t.n > 0
    ensures t.End? <==> First(s) == NUL
  {
    var c := First(s);
    if c == NUL then End
    else if c == '-' && Second(s) == '-' then
      match LineLength(s)
      case None => Endless
      case Some(n) => Skip(n + 1)
    else if SignAt(c, Second(s)).Some? then
      var (kind, n) := SignAt(c, Second(s)).value;
      Take(Sign(kind), n)
    else if c == '\'' then
      var n := LiteralLength(s[1..]);
      if 1 + n == |s| then Take(Sign(Error), n + 2) else Take(StringLiteral(s[1..1 + n]), n + 2)
    else if IsWordStart(c) then Take(WordToken(s[..WordLength(s)]), WordLength(s))
    else if IsDigit(c) then Take(NumberToken(s[..NumberLength(s, false)], isFloat), NumberLength(s, false))
    else Skip(1)
  }

  /** Putting tokens before the result of lexing the rest. */
  function Before(tokens: seq<Token>, rest: Option<TokenList>): Option<TokenList> {
    match rest
    case None => None
    case Some(ts) => Some(tokens + ts)
  }

  /** All tokens; nothing when the source never returns, in a comment that no newline ends. */
  function Lex(s: Text, isFloat: Text -> bool): (r: Option<TokenList>)
    decreases |s|
  {
    match Next(s, isFloat)
    case End => Some([Sign(EndOfFile)])
    case Endless => None
    case Skip(n) => Lex(After(s, n), isFloat)
    case Take(t, n) =>
      Before([t], Lex(After(s, n), isFloat))
  }

  class Lexer {
    const query: Text
    const isFloat: Text -> bool
    var position: nat

    constructor (query: Text, isFloat: Text -> bool)
      ensures this.query == query && this.isFloat == isFloat && position == 0
    {
      this.query := query;
      this.isFloat := isFloat;
      position := 0;
    }

    /** What is left to read. */
    function Rest(): Text
      reads this`position
    {
      After(query, position)
    }

    function Current(): (c: char8)
      reads this`position
      ensures c == First(Rest())
    {
      if position < |query| then query[position] else NUL
    }

    function Peek(): (c: char8)
      reads this`position
      ensures c == Second(Rest())
    {
      if position + 1 < |query| then query[position + 1] else NUL
    }

    method Advance()
      modifies this
      ensures position == old(position) + 1
      ensures old(Rest()) != [] ==> Rest() == old(Rest())[1..]
    {
      position := position + 1;
    }

    method ReadWord() returns (token: Token)
      requires IsWordStart(First(Rest()))
      modifies this
      ensures position == old(position) + WordLength(old(Rest()))
      ensures token == WordToken(old(Rest())[..WordLength(old(Rest()))])
    {
      ghost var s := Rest();
      var start := position;
      while IsWordChar(Current())
        invariant start <= position <= |query|
        invariant WordLength(s) == position - start + WordLength(Rest())
        decreases |query| - position
      {
        Advance();
      }
      assert query[start..position] == s[..position - start];
      token := WordToken(query[start..position]);
    }

    method ReadNumber() returns (token: Token)
      requires IsDigit(First(Rest()))
      modifies this
      ensures position == old(position) + NumberLength(old(Rest()), false)
      ensures token == NumberToken(old(Rest())[..NumberLength(old(Rest()), false)], isFloat)
    {
      ghost var s := Rest();
      var start := position;
      var hasDot := false;
      while IsDigit(Current()) || (!hasDot && Current() == '.')
        invariant start <= position <= |query|
        invariant NumberLength(s, false) == position - start + NumberLength(Rest(), hasDot)
        decreases |query| - position
      {
        if Current() == '.' {
          hasDot := true;
        }
        Advance();
      }
      assert query[start..position] == s[..position - start];
      token := NumberToken(query[start..position], isFloat);
    }

    /** From the opening quote up to the closing one, which the main loop passes over. */
    method ReadLiteral() returns (token: Token)
      requires First(Rest()) == '\''
      modifies this
      ensures var s := old(Rest());
        var n := LiteralLength(s[1..]);
        && position == old(position) + 1 + n
        && token == if 1 + n == |s| then Sign(Error) else StringLiteral(s[1..1 + n])
    {
      ghost var s := Rest();
      var start := position + 1;
      Advance();
      ghost var tail := Rest();
      while Current() != '\'' && Current() != NUL
        invariant start <= position <= |query|
        invariant LiteralLength(tail) == position - start + LiteralLength(Rest())
        decreases |query| - position
      {
        Advance();
      }
      if position == |query| {
        return Sign(Error);
      }
      assert query[start..position] == s[1..][..position - start];
      token := StringLiteral(query[start..position]);
    }

    /** A comment, up to the end of its line. */
    method SkipComment()
      requires LineLength(Rest()).Some?
      modifies this
      ensures position == old(position) + LineLength(old(Rest())).value
    {
      ghost var s := Rest();
      var start := position;
      while Current() != '\n'
        invariant start <= position < |query|
        invariant LineLength(Rest()).Some? && LineLength(s).value == position - start + LineLength(Rest()).value
        decreases |query| - position
      {
        Advance();
      }
    }

    /** One turn of the loop of `tokenize`. */
    method Step() returns (token: Option<Token>)
      requires Next(Rest(), isFloat).Skip? || Next(Rest(), isFloat).Take?
      modifies this
      ensures position == old(position) + Next(old(Rest()), isFloat).n
      ensures token == if Next(old(Rest()), isFloat).Take? then Some(Next(old(Rest()), isFloat).token) else None
    {
      token := None;
      var c := Current();
      if c == '=' {
        token := Some(Sign(Equal));
      } else if c == '!' {
        if Peek() == '=' {
          token := Some(Sign(NotEqual));
          Advance();
        } else {
          token := Some(Sign(Unknown));
        }
      } else if c == '<' {
        if Peek() == '=' {
          token := Some(Sign(LessEq));
          Advance();
        } else if Peek() == '>' {
          token := Some(Sign(NotEqual));
          Advance();
        } else {
          token := Some(Sign(LessThan));
        }
      } else if c == '>' {
        if Peek() == '=' {
          token := Some(Sign(GreaterEq));
          Advance();
        } else {
          token := Some(Sign(GreaterThan));
        }
      } else if c == '-' {
        if Peek() == '-' {
          SkipComment();
        } else {
          token := Some(Sign(Minus));
        }
      } else if c == '+' {
        token := Some(Sign(Plus));
      } else if c == '*' {
        token := Some(Sign(Asterisk));
      } else if c == '/' {
        token := Some(Sign(Slash));
      } else if c == ',' {
        token := Some(Sign(Comma));
      } else if c == ';' {
        token := Some(Sign(Semicolon));
      } else if c == '.' {
        token := Some(Sign(Dot));
      } else if c == '(' {
        token := Some(Sign(LeftParen));
      } else if c == ')' {
        token := Some(Sign(RightParen));
      } else if c == '\'' {
        var literal := ReadLiteral();
        token := Some(literal);
      } else if IsWordStart(c) {
        var word := ReadWord();
        return Some(word);
      } else if IsDigit(c) {
        var number := ReadNumber();
        return Some(number);
      }
      Advance();
    }

    method Tokenize() returns (tokens: TokenList)
      requires Lex(Rest(), isFloat).Some?
      modifies this
      ensures Lex(old(Rest()), isFloat) == Some(tokens)
    {
      hide Next, Lex;
      ghost var s := Rest();
      var read: seq<Token> := [];
      BeforeNone(Lex(s, isFloat));
      while Current() != NUL
        invariant Lex(Rest(), isFloat).Some?
        invariant Lex(s, isFloat) == Before(read, Lex(Rest(), isFloat))
        decreases |Rest()|
      {
        ghost var before := Rest();
        LexOnce(before, isFloat, read);
        var token := Step();
        assert Rest() == After(before, Next(before, isFloat).n);
        if token.Some? {
          read := read + [token.value];
        }
      }
      LexEnd(Rest(), isFloat);
      tokens := read + [Sign(EndOfFile)];
    }
  }

  lemma LexOnce(s: Text, isFloat: Text -> bool, tokens: seq<Token>)
    requires First(s) != NUL && Lex(s, isFloat).Some?
    ensures Next(s, isFloat).Skip? || Next(s, isFloat).Take?
    ensures var turn := Next(s, isFloat);
      var rest := Lex(After(s, turn.n), isFloat);
      && |After(s, turn.n)| < |s| && rest.Some?
      && Before(tokens, Lex(s, isFloat)) == Before(if turn.Take? then tokens + [turn.token] else tokens, rest)
  {
    hide Next;
    var turn := Next(s, isFloat);
    var rest := Lex(After(s, turn.n), isFloat);
    if turn.Take? {
      BeforeOne(tokens, turn.token, rest);
    }
  }

  lemma LexEnd(s: Text, isFloat: Text -> bool)
    requires First(s) == NUL
    ensures Lex(s, isFloat) == Some([Sign(EndOfFile)])
  {
  }

  lemma BeforeOne(tokens: seq<Token>, t: Token, rest: Option<TokenList>)
    ensures Before(tokens, Before([t], rest)) == Before(tokens + [t], rest)
  {
    assert rest.Some? ==> tokens + ([t] + rest.value) == tokens + [t] + rest.value;
  }

  lemma BeforeNone(rest: Option<TokenList>)
    ensures Before([], rest) == rest
  {
    assert rest.Some? ==> [] + rest.value == rest.value;
  }
}
