/**
 The tokens of a text, said without the lexer: the text is cut into pieces, each as long as it can be,
 that are tokens or are passed over. Characters are given by their codes. The lexer finds exactly these.
 */
module LexicalGrammar {
  import opened Values
  import opened Tokens
  import opened Lexers
  import opened Wrappers

  // Characters.

  predicate UpperCode(c: char8) { 65 <= c as int <= 90 }
  predicate LowerCode(c: char8) { 97 <= c as int <= 122 }
  predicate DigitCode(c: char8) { 48 <= c as int <= 57 }
  predicate StartCode(c: char8) { UpperCode(c) || LowerCode(c) || c == '_' }
  predicate WordCode(c: char8) { StartCode(c) || DigitCode(c) }

  /** The same character, or the two cases of one letter. */
  predicate SameLetter(c: char8, d: char8) {
    || c == d
    || (UpperCode(c) && d as int == c as int + 32)
    || (UpperCode(d) && c as int == d as int + 32)
  }

  const SIGN_CHARACTERS: set<char8> := {'=', '!', '<', '>', '+', '-', '*', '/', ',', ';', '.', '(', ')'}

  // Keywords and signs.

  function WordText(k: Kind): Text {
    match k
    case Select => "SELECT" case From => "FROM" case Where => "WHERE" case Insert => "INSERT" case Into => "INTO"
    case ValuesWord => "VALUES" case Update => "UPDATE" case Set => "SET" case Delete => "DELETE"
    case Create => "CREATE" case Drop => "DROP" case Primary => "PRIMARY" case Key => "KEY" case Table => "TABLE"
    case Index => "INDEX" case On => "ON" case Begin => "BEGIN" case Commit => "COMMIT" case Rollback => "ROLLBACK"
    case And => "AND" case Or => "OR" case Not => "NOT" case Is => "IS" case NullWord => "NULL" case True => "TRUE"
    case False => "FALSE" case IntegerWord => "INTEGER" case FloatWord => "FLOAT" case TextWord => "TEXT"
    case BooleanWord => "BOOLEAN"
    case _ => ""
  }

  predicate IsWord(k: Kind) { WordText(k) != "" }

  /** The keyword, in any mixture of upper and lower case. */
  predicate SpellsWord(text: Text, k: Kind) {
    IsWord(k) && |text| == |WordText(k)| && forall i :: 0 <= i < |text| ==> SameLetter(text[i], WordText(k)[i])
  }

  /** The sign, which is as long as the next character lets it be. */
  predicate SpellsSign(text: Text, k: Kind, next: char8) {
    match k
    case Equal => text == "="
    case NotEqual => text == "!=" || text == "<>"
    case LessThan => text == "<" && next != '=' && next != '>'
    case LessEq => text == "<="
    case GreaterThan => text == ">" && next != '='
    case GreaterEq => text == ">="
    case Plus => text == "+"
    case Minus => text == "-" && next != '-'
    case Asterisk => text == "*"
    case Slash => text == "/"
    case Comma => text == ","
    case Semicolon => text == ";"
    case Dot => text == "."
    case LeftParen => text == "("
    case RightParen => text == ")"
    case Unknown => text == "!" && next != '='
    case _ => false
  }

  // Pieces.

  /** A word that the next character does not continue. */
  predicate WholeWord(text: Text, next: char8) {
    text != [] && StartCode(text[0]) && (forall i :: 0 <= i < |text| ==> WordCode(text[i])) && !WordCode(next)
  }

  predicate OneDotAtMost(text: Text) {
    forall i, j :: 0 <= i < j < |text| && text[i] == '.' ==> text[j] != '.'
  }

  predicate NumberText(text: Text) {
    && text != [] && DigitCode(text[0]) && OneDotAtMost(text)
    && forall i :: 0 <= i < |text| ==> DigitCode(text[i]) || text[i] == '.'
  }

  predicate WholeNumber(text: Text, next: char8) {
    NumberText(text) && !DigitCode(next) && (next == '.' ==> '.' in text)
  }

  predicate Unquoted(text: Text) { '\'' !in text && NUL !in text }

  /** One character that means nothing, or a comment with the end of its line. */
  predicate PassedOver(text: Text) {
    || (|text| == 1 && !WordCode(text[0]) && text[0] !in SIGN_CHARACTERS && text[0] != '\'' && text[0] != NUL)
    || (|text| >= 3 && text[..2] == "--" && text[|text| - 1] == '\n' && '\n' !in text[..|text| - 1])
  }

  /** The text is this token, when `rest` follows. */
  predicate Lexeme(text: Text, t: Token, rest: Text, isFloat: Text -> bool) {
    var next := First(rest);
    match t
    case Identifier(name) => text == name && WholeWord(text, next) && forall k :: !SpellsWord(text, k)
    case IntegerLiteral(digits) => text == digits && WholeNumber(text, next)
    case FloatLiteral(number) => text == number && WholeNumber(text, next) && !IsInt(text) && isFloat(text)
    case StringLiteral(body) => Unquoted(body) && (text == "'" + body + "'" || text == "'" + body + [NUL])
    case Sign(k) =>
      || SpellsSign(text, k, next)
      || (SpellsWord(text, k) && WholeWord(text, next))
      || (k == Unknown && WholeNumber(text, next) && !IsInt(text) && !isFloat(text))
      || (k == Error && text != [] && text[0] == '\'' && Unquoted(text[1..]) && rest == [])
  }

  /** The text up to its end, or to the first NUL between tokens, consists of these tokens. */
  ghost predicate Tokenized(s: Text, ts: seq<Token>, isFloat: Text -> bool)
    decreases |s|
  {
    if First(s) == NUL then ts == []
    else exists text, rest ::
      && s == text + rest && text != []
      && if PassedOver(text) then Tokenized(rest, ts, isFloat)
         else ts != [] && Lexeme(text, ts[0], rest, isFloat) && Tokenized(rest, ts[1..], isFloat)
  }

  // The words of the lexer.

  lemma ShortWordRead(k: Kind)
    requires 0 < |WordText(k)| <= 3
    ensures Keyword(WordText(k)) == Some(k)
  {
  }

  lemma FourLetterWordRead(k: Kind)
    requires |WordText(k)| == 4
    ensures Keyword(WordText(k)) == Some(k)
  {
  }

  lemma FiveLetterWordRead(k: Kind)
    requires |WordText(k)| == 5
    ensures Keyword(WordText(k)) == Some(k)
  {
  }

  lemma SixLetterWordRead(k: Kind)
    requires |WordText(k)| == 6
    ensures Keyword(WordText(k)) == Some(k)
  {
  }

  lemma LongWordRead(k: Kind)
    requires |WordText(k)| > 6
    ensures Keyword(WordText(k)) == Some(k)
  {
  }

  lemma ShortWordUpper(k: Kind)
    requires 0 < |WordText(k)| <= 3
    ensures AllUpper(WordText(k))
  {
  }

  lemma FourLetterWordUpper(k: Kind)
    requires |WordText(k)| == 4
    ensures AllUpper(WordText(k))
  {
  }

  lemma FiveLetterWordUpper(k: Kind)
    requires |WordText(k)| == 5
    ensures AllUpper(WordText(k))
  {
  }

  lemma SixLetterWordUpper(k: Kind)
    requires |WordText(k)| == 6
    ensures AllUpper(WordText(k))
  {
  }

  lemma LongWordUpper(k: Kind)
    requires |WordText(k)| > 6
    ensures AllUpper(WordText(k))
  {
  }

  /** Every keyword is read, and is in capitals. */
  lemma WordRead(k: Kind)
    requires IsWord(k)
    ensures Keyword(WordText(k)) == Some(k) && AllUpper(WordText(k))
  {
    hide Keyword, WordText, AllUpper;
    if |WordText(k)| <= 3 {
      ShortWordRead(k);
    } else if |WordText(k)| == 4 {
      FourLetterWordRead(k);
    } else if |WordText(k)| == 5 {
      FiveLetterWordRead(k);
    } else if |WordText(k)| == 6 {
      SixLetterWordRead(k);
    } else {
      LongWordRead(k);
    }
    if |WordText(k)| <= 3 {
      ShortWordUpper(k);
    } else if |WordText(k)| == 4 {
      FourLetterWordUpper(k);
    } else if |WordText(k)| == 5 {
      FiveLetterWordUpper(k);
    } else if |WordText(k)| == 6 {
      SixLetterWordUpper(k);
    } else {
      LongWordUpper(k);
    }
  }

  lemma ShortWordSpelled(u: Text)
    requires |u| <= 3
    ensures Keyword(u).Some? ==> IsWord(Keyword(u).value) && u == WordText(Keyword(u).value)
  {
  }

  lemma FourLetterWordSpelled(u: Text)
    requires |u| == 4
    ensures Keyword(u).Some? ==> IsWord(Keyword(u).value) && u == WordText(Keyword(u).value)
  {
  }

  lemma FiveLetterWordSpelled(u: Text)
    requires |u| == 5
    ensures Keyword(u).Some? ==> IsWord(Keyword(u).value) && u == WordText(Keyword(u).value)
  {
  }

  lemma SixLetterWordSpelled(u: Text)
    requires |u| == 6
    ensures Keyword(u).Some? ==> IsWord(Keyword(u).value) && u == WordText(Keyword(u).value)
  {
  }

  lemma LongWordSpelled(u: Text)
    requires |u| > 6
    ensures Keyword(u).Some? ==> IsWord(Keyword(u).value) && u == WordText(Keyword(u).value)
  {
  }

  /** A word the lexer takes for a keyword is spelled so. */
  lemma KeywordSpelled(u: Text)
    ensures Keyword(u).Some? ==> IsWord(Keyword(u).value) && u == WordText(Keyword(u).value)
  {
    hide *;
    if |u| <= 3 {
      ShortWordSpelled(u);
    } else if |u| == 4 {
      FourLetterWordSpelled(u);
    } else if |u| == 5 {
      FiveLetterWordSpelled(u);
    } else if |u| == 6 {
      SixLetterWordSpelled(u);
    } else {
      LongWordSpelled(u);
    }
  }

  lemma KeywordIs(u: Text, k: Kind)
    ensures Keyword(u) == Some(k) <==> IsWord(k) && u == WordText(k)
  {
    KeywordSpelled(u);
    if IsWord(k) {
      WordRead(k);
    }
    hide Keyword, WordText;
  }

  predicate AllUpper(s: Text) { forall i :: 0 <= i < |s| ==> UpperCode(s[i]) }

  lemma UpperIsSameLetter(c: char8, d: char8)
    requires UpperCode(d)
    ensures UpperChar(c) == d <==> SameLetter(c, d)
  {
  }

  lemma UpperAgrees(text: Text, word: Text)
    requires AllUpper(word)
    ensures ToUpper(text) == word <==> |text| == |word| && forall i :: 0 <= i < |text| ==> SameLetter(text[i], word[i])
  {
    hide UpperChar, SameLetter;
    if |text| == |word| {
      forall i | 0 <= i < |text|
        ensures ToUpper(text)[i] == word[i] <==> SameLetter(text[i], word[i])
      {
        UpperIsSameLetter(text[i], word[i]);
      }
    }
  }

  lemma UpperSpells(text: Text, k: Kind)
    requires IsWord(k)
    ensures ToUpper(text) == WordText(k) <==> SpellsWord(text, k)
  {
    hide WordText, SameLetter, ToUpper;
    WordRead(k);
    UpperAgrees(text, WordText(k));
  }

  /** Every word: it is a keyword exactly when it spells it in some mixture of cases, and else a name. */
  lemma WordTokenIs(word: Text, k: Kind)
    ensures WordToken(word) == Sign(k) <==> SpellsWord(word, k)
    ensures WordToken(word) == Identifier(word) <==> forall k :: !SpellsWord(word, k)
    ensures WordToken(word).Sign? || WordToken(word) == Identifier(word)
  {
    forall k
      ensures Keyword(ToUpper(word)) == Some(k) <==> SpellsWord(word, k)
    {
      KeywordIs(ToUpper(word), k);
      if IsWord(k) {
        UpperSpells(word, k);
      }
    }
    hide Keyword, WordText, SpellsWord;
  }

  // The pieces of the lexer.

  lemma CodesAgree(c: char8)
    ensures IsWordStart(c) == StartCode(c) && IsWordChar(c) == WordCode(c) && IsDigit(c) == DigitCode(c)
  {
  }

  /** The word at the front is the longest. */
  lemma {:induction false} WordIsLongest(s: Text)
    ensures forall i :: 0 <= i < WordLength(s) ==> WordCode(s[i])
    ensures !WordCode(First(s[WordLength(s)..]))
  {
    CodesAgree(First(s));
    if IsWordChar(First(s)) {
      WordIsLongest(s[1..]);
      assert s[1..][WordLength(s[1..])..] == s[WordLength(s)..];
      assert forall i | 0 < i < WordLength(s) :: s[i] == s[1..][i - 1];
    } else {
      assert s[0..] == s;
    }
  }

  lemma {:induction false} WordLengthIs(word: Text, rest: Text)
    requires (forall i :: 0 <= i < |word| ==> WordCode(word[i])) && !WordCode(First(rest))
    ensures WordLength(word + rest) == |word|
  {
    if word == [] {
      assert word + rest == rest;
      CodesAgree(First(rest));
    } else {
      assert (word + rest)[1..] == word[1..] + rest;
      CodesAgree(word[0]);
      WordLengthIs(word[1..], rest);
    }
  }

  predicate Digits(s: Text, hasDot: bool) {
    && OneDotAtMost(s) && (hasDot ==> '.' !in s) && forall i :: 0 <= i < |s| ==> DigitCode(s[i]) || s[i] == '.'
  }

  lemma DigitsAfter(c: char8, s: Text, hasDot: bool)
    ensures Digits([c] + s, hasDot) <==>
      if DigitCode(c) then Digits(s, hasDot) else c == '.' && !hasDot && Digits(s, true)
  {
    var t := [c] + s;
    assert forall i :: 0 < i < |t| ==> t[i] == s[i - 1];
    assert t[0] == c;
    if Digits(t, hasDot) {
      assert forall i :: 0 <= i < |s| ==> s[i] == t[i + 1];
    }
  }

  lemma {:induction false} NumberIsLongest(s: Text, hasDot: bool)
    ensures var n := NumberLength(s, hasDot);
      && Digits(s[..n], hasDot) && !DigitCode(First(s[n..])) && (First(s[n..]) == '.' ==> hasDot || '.' in s[..n])
  {
    var n := NumberLength(s, hasDot);
    CodesAgree(First(s));
    if n > 0 {
      var dot := hasDot || !IsDigit(s[0]);
      NumberIsLongest(s[1..], dot);
      assert s[1..][n - 1..] == s[n..] && s[..n] == [s[0]] + s[1..][..n - 1];
      DigitsAfter(s[0], s[1..][..n - 1], hasDot);
    } else {
      assert s[0..] == s;
    }
  }

  lemma {:induction false} NumberLengthIs(number: Text, rest: Text, hasDot: bool)
    requires Digits(number, hasDot) && !DigitCode(First(rest)) && (First(rest) == '.' ==> hasDot || '.' in number)
    ensures NumberLength(number + rest, hasDot) == |number|
  {
    if number == [] {
      assert number + rest == rest;
      CodesAgree(First(rest));
    } else {
      var s := number[1..];
      assert number == [number[0]] + s && (number + rest)[1..] == s + rest;
      CodesAgree(number[0]);
      DigitsAfter(number[0], s, hasDot);
      NumberLengthIs(s, rest, hasDot || !DigitCode(number[0]));
    }
  }

  lemma {:induction false} LiteralIsLongest(s: Text)
    ensures var n := LiteralLength(s); Unquoted(s[..n]) && (n < |s| ==> s[n] == '\'' || s[n] == NUL)
  {
    var n := LiteralLength(s);
    if n > 0 {
      LiteralIsLongest(s[1..]);
      assert s[..n] == [s[0]] + s[1..][..n - 1];
    }
  }

  lemma {:induction false} LiteralLengthIs(body: Text, rest: Text)
    requires Unquoted(body) && (rest != [] ==> rest[0] == '\'' || rest[0] == NUL)
    ensures LiteralLength(body + rest) == |body|
  {
    if body == [] {
      assert body + rest == rest;
    } else {
      assert body == [body[0]] + body[1..] && (body + rest)[1..] == body[1..] + rest;
      LiteralLengthIs(body[1..], rest);
    }
  }

  lemma {:induction false} LineLengthIs(line: Text, rest: Text)
    requires '\n' !in line
    ensures LineLength(line + "\n" + rest) == Some(|line|)
  {
    var s := line + "\n" + rest;
    if line == [] {
      assert s[0] == '\n';
    } else {
      assert s[1..] == line[1..] + "\n" + rest;
      LineLengthIs(line[1..], rest);
    }
  }

  lemma {:induction false} LineIsShort(s: Text)
    requires LineLength(s).Some?
    ensures '\n' !in s[..LineLength(s).value]
  {
    var n := LineLength(s).value;
    if n > 0 {
      LineIsShort(s[1..]);
      assert s[..n] == [s[0]] + s[1..][..n - 1];
    }
  }

  // One turn: what the lexer takes or passes over is a piece, and every piece is what it takes.

  ghost predicate Piece(text: Text, t: Option<Token>, rest: Text, isFloat: Text -> bool) {
    && text != [] && text[0] != NUL
    && match t
       case None => PassedOver(text)
       case Some(token) => !PassedOver(text) && Lexeme(text, token, rest, isFloat)
  }

  function Gives(turn: Turn): Option<Token> { if turn.Take? then Some(turn.token) else None }

  ghost predicate TurnIs(s: Text, text: Text, t: Option<Token>, rest: Text, isFloat: Text -> bool) {
    var turn := Next(s, isFloat);
    (turn.Skip? || turn.Take?) && Gives(turn) == t && After(s, turn.n) == rest && s == text + rest
  }

  lemma NextIsWord(s: Text, isFloat: Text -> bool)
    requires IsWordStart(First(s))
    ensures Next(s, isFloat) == Take(WordToken(s[..WordLength(s)]), WordLength(s))
  {
    hide WordToken, NumberToken, WordLength, NumberLength, LiteralLength, LineLength;
  }

  lemma NextIsNumber(s: Text, isFloat: Text -> bool)
    requires IsDigit(First(s))
    ensures Next(s, isFloat) == Take(NumberToken(s[..NumberLength(s, false)], isFloat), NumberLength(s, false))
  {
    hide WordToken, NumberToken, WordLength, NumberLength, LiteralLength, LineLength;
  }

  lemma NotPassedOver(text: Text)
    requires text != [] && (WordCode(text[0]) || text[0] == '\'')
    ensures !PassedOver(text)
  {
  }

  lemma WordTurn(s: Text, isFloat: Text -> bool) returns (text: Text, rest: Text)
    requires StartCode(First(s))
    ensures Piece(text, Some(WordToken(text)), rest, isFloat) && TurnIs(s, text, Some(WordToken(text)), rest, isFloat)
  {
    var n := WordLength(s);
    text, rest := s[..n], s[n..];
    CodesAgree(First(s));
    WordIsLongest(s);
    NextIsWord(s, isFloat);
    hide Next, WordLength;
    assert s == text + rest;
    assert text != [] && text[0] == s[0] by { WordNotEmpty(s); }
    NotPassedOver(text);
    WordIsLexeme(text, rest, isFloat);
  }

  lemma WordNotEmpty(s: Text)
    requires StartCode(First(s))
    ensures WordLength(s) > 0
  {
    CodesAgree(First(s));
  }

  lemma WordIsLexeme(text: Text, rest: Text, isFloat: Text -> bool)
    requires WholeWord(text, First(rest))
    ensures Lexeme(text, WordToken(text), rest, isFloat)
  {
    if k :| WordToken(text) == Sign(k) {
      WordTokenIs(text, k);
    } else {
      WordTokenIs(text, Error);
    }
    hide SpellsWord, SpellsSign, WordToken, WholeWord;
  }

  lemma WordIsTaken(text: Text, t: Token, rest: Text, isFloat: Text -> bool)
    requires WholeWord(text, First(rest)) && Lexeme(text, t, rest, isFloat)
    ensures TurnIs(text + rest, text, Some(t), rest, isFloat)
  {
    var s := text + rest;
    assert First(s) == text[0];
    CodesAgree(First(s));
    WordLengthIs(text, rest);
    NextIsWord(s, isFloat);
    hide Next, WordLength;
    assert s[..|text|] == text && s[|text|..] == rest;
    OneWordToken(text, t, rest, isFloat);
  }

  /** A word is no other token than the one the lexer makes of it. */
  lemma OneWordToken(text: Text, t: Token, rest: Text, isFloat: Text -> bool)
    requires WholeWord(text, First(rest)) && Lexeme(text, t, rest, isFloat)
    ensures WordToken(text) == t
  {
    match t
    case Sign(k) =>
      if SpellsSign(text, k, First(rest)) {
        SignBegins(text, k, First(rest));
        SignsAreNoWords(text[0]);
      }
      WordTokenIs(text, k);
    case Identifier(_) => WordTokenIs(text, Error);
    case _ =>
  }

  /** Keywords begin with a letter, signs with a sign character. */
  lemma WordBegins(text: Text, k: Kind)
    requires SpellsWord(text, k)
    ensures text != [] && StartCode(text[0])
  {
    WordRead(k);
    hide WordText;
    assert SameLetter(text[0], WordText(k)[0]);
  }

  lemma SignBegins(text: Text, k: Kind, next: char8)
    requires SpellsSign(text, k, next)
    ensures text != [] && text[0] in SIGN_CHARACTERS && |text| <= 2
  {
  }

  lemma SignsAreNoWords(c: char8)
    requires c in SIGN_CHARACTERS
    ensures !WordCode(c) && c != '\'' && c != NUL
  {
  }

  lemma NumberTurn(s: Text, isFloat: Text -> bool) returns (text: Text, rest: Text)
    requires DigitCode(First(s))
    ensures Piece(text, Some(NumberToken(text, isFloat)), rest, isFloat)
    ensures TurnIs(s, text, Some(NumberToken(text, isFloat)), rest, isFloat)
  {
    var n := NumberLength(s, false);
    text, rest := s[..n], s[n..];
    CodesAgree(First(s));
    NumberIsLongest(s, false);
    NextIsNumber(s, isFloat);
    assert n > 0;
    hide Next, NumberLength;
    assert s == text + rest && text[0] == s[0];
    NotPassedOver(text);
    assert NumberText(text);
    NumberIsLexeme(text, rest, isFloat);
  }

  lemma NumberIsLexeme(text: Text, rest: Text, isFloat: Text -> bool)
    requires WholeNumber(text, First(rest))
    ensures Lexeme(text, NumberToken(text, isFloat), rest, isFloat)
  {
    hide SpellsSign, SpellsWord, WholeNumber;
  }

  lemma NumberIsTaken(text: Text, t: Token, rest: Text, isFloat: Text -> bool)
    requires WholeNumber(text, First(rest)) && Lexeme(text, t, rest, isFloat)
    ensures TurnIs(text + rest, text, Some(t), rest, isFloat)
  {
    var s := text + rest;
    assert First(s) == text[0];
    CodesAgree(First(s));
    NumberLengthIs(text, rest, false);
    NextIsNumber(s, isFloat);
    hide Next, NumberLength;
    assert s[..|text|] == text && s[|text|..] == rest;
    OneNumberToken(text, t, rest, isFloat);
  }

  lemma OneNumberToken(text: Text, t: Token, rest: Text, isFloat: Text -> bool)
    requires WholeNumber(text, First(rest)) && Lexeme(text, t, rest, isFloat)
    ensures NumberToken(text, isFloat) == t
  {
    forall k
      ensures !SpellsSign(text, k, First(rest)) && !SpellsWord(text, k)
    {
      NoWordOrSign(text, k, First(rest));
    }
    hide SpellsSign, SpellsWord;
  }

  lemma NoWordOrSign(text: Text, k: Kind, next: char8)
    requires text != [] && (DigitCode(text[0]) || text[0] == '\'')
    ensures !SpellsSign(text, k, next) && !SpellsWord(text, k)
  {
    hide SpellsSign, SpellsWord;
    if SpellsWord(text, k) {
      WordBegins(text, k);
    }
    if SpellsSign(text, k, next) {
      SignBegins(text, k, next);
      SignsAreNoWords(text[0]);
    }
  }

  lemma LiteralTurn(s: Text, isFloat: Text -> bool) returns (text: Text, t: Token, rest: Text)
    requires First(s) == '\''
    ensures Piece(text, Some(t), rest, isFloat) && TurnIs(s, text, Some(t), rest, isFloat)
  {
    var tail := s[1..];
    var n := LiteralLength(tail);
    LiteralIsLongest(tail);
    NextIsLiteral(s, isFloat);
    hide Next, LiteralLength;
    if 1 + n == |s| {
      text, t, rest := s, Sign(Error), [];
      assert tail[..n] == tail && s + [] == s;
    } else {
      text, t, rest := s[..n + 2], StringLiteral(s[1..1 + n]), s[n + 2..];
      assert s[1..1 + n] == tail[..n] && tail[n] == s[n + 1];
      assert text == "'" + s[1..1 + n] + [s[n + 1]];
    }
    NotPassedOver(text);
  }

  lemma NextIsLiteral(s: Text, isFloat: Text -> bool)
    requires First(s) == '\''
    ensures var n := LiteralLength(s[1..]);
      Next(s, isFloat) == Take(if 1 + n == |s| then Sign(Error) else StringLiteral(s[1..1 + n]), n + 2)
  {
    hide WordToken, NumberToken, WordLength, NumberLength, LiteralLength, LineLength;
  }

  lemma LiteralIsTaken(text: Text, t: Token, rest: Text, isFloat: Text -> bool)
    requires text != [] && text[0] == '\'' && Lexeme(text, t, rest, isFloat)
    ensures TurnIs(text + rest, text, Some(t), rest, isFloat)
  {
    var s := text + rest;
    NextIsLiteral(s, isFloat);
    OnlyLiterals(text, t, rest, isFloat);
    hide Next, LiteralLength;
    if t.StringLiteral? {
      assert s[1..] == t.text + ([text[|text| - 1]] + rest);
      LiteralLengthIs(t.text, [text[|text| - 1]] + rest);
      assert s[1..1 + |t.text|] == t.text && s[|text|..] == rest;
    } else {
      assert s == text && text[1..] + [] == text[1..];
      LiteralLengthIs(text[1..], []);
    }
  }

  /** What begins with a quote is a text, or has no end. */
  lemma OnlyLiterals(text: Text, t: Token, rest: Text, isFloat: Text -> bool)
    requires text != [] && text[0] == '\'' && Lexeme(text, t, rest, isFloat)
    ensures t.StringLiteral? || (t == Sign(Error) && Unquoted(text[1..]) && rest == [])
  {
    if t.Sign? {
      NoWordOrSign(text, t.kind, First(rest));
    }
  }

  lemma NextIsSign(s: Text, isFloat: Text -> bool)
    requires First(s) in SIGN_CHARACTERS && !(First(s) == '-' && Second(s) == '-')
    ensures SignAt(First(s), Second(s)).Some?
    ensures var (k, n) := SignAt(First(s), Second(s)).value; Next(s, isFloat) == Take(Sign(k), n)
  {
    hide WordToken, NumberToken, WordLength, NumberLength, LiteralLength, LineLength;
  }

  /** A sign at the front, and what follows it. */
  lemma SignIs(s: Text, k: Kind, n: nat)
    requires First(s) in SIGN_CHARACTERS && !(First(s) == '-' && Second(s) == '-')
    requires SignAt(First(s), Second(s)) == Some((k, n))
    ensures n <= |s| && SpellsSign(s[..n], k, First(s[n..]))
  {
    if n == 1 {
      assert s[..1] == [s[0]] && First(s[1..]) == Second(s);
    } else {
      assert s[..2] == [s[0], s[1]];
    }
  }

  lemma SignTurn(s: Text, isFloat: Text -> bool) returns (text: Text, t: Token, rest: Text)
    requires First(s) in SIGN_CHARACTERS && !(First(s) == '-' && Second(s) == '-')
    ensures Piece(text, Some(t), rest, isFloat) && TurnIs(s, text, Some(t), rest, isFloat)
  {
    NextIsSign(s, isFloat);
    var (k, n) := SignAt(First(s), Second(s)).value;
    SignIs(s, k, n);
    hide Next, SignAt;
    text, t, rest := s[..n], Sign(k), s[n..];
    assert s == text + rest;
    SignBegins(text, k, First(rest));
    SignsAreNoWords(text[0]);
    SignsAreNotPassedOver(text);
  }

  lemma SignsAreNotPassedOver(text: Text)
    requires text != [] && text[0] in SIGN_CHARACTERS && |text| <= 2
    ensures !PassedOver(text)
  {
  }

  lemma SpelledSignAt(text: Text, k: Kind, rest: Text)
    requires SpellsSign(text, k, First(rest))
    ensures text != [] && !(First(text + rest) == '-' && Second(text + rest) == '-')
    ensures SignAt(First(text + rest), Second(text + rest)) == Some((k, |text|))
  {
    var s := text + rest;
    SignBegins(text, k, First(rest));
    assert First(s) == text[0];
    assert Second(s) == if |text| == 2 then text[1] else First(rest);
  }

  lemma SignIsTaken(text: Text, t: Token, rest: Text, isFloat: Text -> bool)
    requires text != [] && text[0] in SIGN_CHARACTERS && Lexeme(text, t, rest, isFloat)
    ensures TurnIs(text + rest, text, Some(t), rest, isFloat)
  {
    var s := text + rest;
    SignsAreNoWords(text[0]);
    OnlySigns(text, t, rest, isFloat);
    SpelledSignAt(text, t.kind, rest);
    assert First(s) == text[0];
    NextIsSign(s, isFloat);
    hide Next, SignAt, SpellsSign;
    assert s[|text|..] == rest;
  }

  lemma OnlySigns(text: Text, t: Token, rest: Text, isFloat: Text -> bool)
    requires text != [] && text[0] in SIGN_CHARACTERS && Lexeme(text, t, rest, isFloat)
    ensures t.Sign? && SpellsSign(text, t.kind, First(rest))
  {
    SignsAreNoWords(text[0]);
    hide SpellsSign, SpellsWord;
    if t.Sign? && SpellsWord(text, t.kind) {
      WordBegins(text, t.kind);
    }
  }

  // What is passed over.

  lemma NextIsComment(s: Text, isFloat: Text -> bool)
    requires First(s) == '-' && Second(s) == '-'
    ensures Next(s, isFloat) == if LineLength(s).None? then Endless else Skip(LineLength(s).value + 1)
  {
  }

  lemma CommentTurn(s: Text, isFloat: Text -> bool) returns (text: Text, rest: Text)
    requires First(s) == '-' && Second(s) == '-' && LineLength(s).Some?
    ensures Piece(text, None, rest, isFloat) && TurnIs(s, text, None, rest, isFloat)
  {
    NextIsComment(s, isFloat);
    var n := LineLength(s).value;
    LineIsShort(s);
    hide Next, LineLength;
    text, rest := s[..n + 1], s[n + 1..];
    assert s == text + rest && text[..n] == s[..n];
    assert n >= 2 by { DashesFirst(s, n); }
    assert text[..2] == [s[0], s[1]];
  }

  lemma DashesFirst(s: Text, n: nat)
    requires First(s) == '-' && Second(s) == '-' && n < |s| && s[n] == '\n'
    ensures n >= 2
  {
  }

  lemma NextIsNothing(s: Text, isFloat: Text -> bool)
    requires s != [] && !WordCode(s[0]) && s[0] !in SIGN_CHARACTERS && s[0] != '\'' && s[0] != NUL
    ensures Next(s, isFloat) == Skip(1)
  {
    CodesAgree(s[0]);
  }

  lemma NothingTurn(s: Text, isFloat: Text -> bool) returns (text: Text, rest: Text)
    requires s != [] && !WordCode(s[0]) && s[0] !in SIGN_CHARACTERS && s[0] != '\'' && s[0] != NUL
    ensures Piece(text, None, rest, isFloat) && TurnIs(s, text, None, rest, isFloat)
  {
    NextIsNothing(s, isFloat);
    hide Next;
    text, rest := s[..1], s[1..];
    assert s == text + rest;
  }

  lemma PassedOverIsSkipped(text: Text, rest: Text, isFloat: Text -> bool)
    requires PassedOver(text)
    ensures text != [] && text[0] != NUL && TurnIs(text + rest, text, None, rest, isFloat)
  {
    var s := text + rest;
    if |text| == 1 {
      NextIsNothing(s, isFloat);
      hide Next;
      assert s[1..] == rest;
    } else {
      var line := text[..|text| - 1];
      assert s == line + "\n" + rest && text[..2][0] == s[0] && text[..2][1] == s[1];
      NextIsComment(s, isFloat);
      LineLengthIs(line, rest);
      hide Next, LineLength;
      assert s[|text|..] == rest;
    }
  }

  // The whole text.

  lemma TurnSound(s: Text, isFloat: Text -> bool) returns (text: Text, t: Option<Token>, rest: Text)
    requires First(s) != NUL && !Next(s, isFloat).Endless?
    ensures Piece(text, t, rest, isFloat) && TurnIs(s, text, t, rest, isFloat)
  {
    hide Piece, TurnIs, WordCode;
    var c := First(s);
    var token: Token;
    assert WordCode(c) <==> StartCode(c) || DigitCode(c) by { WordOrDigit(c); }
    if c in SIGN_CHARACTERS && !(c == '-' && Second(s) == '-') {
      text, token, rest := SignTurn(s, isFloat);
      t := Some(token);
    } else if c == '-' {
      NextIsComment(s, isFloat);
      text, rest := CommentTurn(s, isFloat);
      t := None;
    } else if c == '\'' {
      text, token, rest := LiteralTurn(s, isFloat);
      t := Some(token);
    } else if StartCode(c) {
      text, rest := WordTurn(s, isFloat);
      t := Some(WordToken(text));
    } else if DigitCode(c) {
      text, rest := NumberTurn(s, isFloat);
      t := Some(NumberToken(text, isFloat));
    } else {
      text, rest := NothingTurn(s, isFloat);
      t := None;
    }
  }

  lemma WordOrDigit(c: char8)
    ensures WordCode(c) <==> StartCode(c) || DigitCode(c)
  {
  }

  lemma LexemeIsTaken(text: Text, t: Token, rest: Text, isFloat: Text -> bool)
    requires text != [] && Lexeme(text, t, rest, isFloat)
    ensures text[0] != NUL && TurnIs(text + rest, text, Some(t), rest, isFloat)
  {
    LexemeBegins(text, t, rest, isFloat);
    hide TurnIs, Lexeme, WholeWord, WholeNumber, StartCode, DigitCode;
    if text[0] in SIGN_CHARACTERS {
      SignsAreNoWords(text[0]);
      SignIsTaken(text, t, rest, isFloat);
    } else if text[0] == '\'' {
      LiteralIsTaken(text, t, rest, isFloat);
    } else if StartCode(text[0]) {
      WordIsTaken(text, t, rest, isFloat);
    } else {
      NumberIsTaken(text, t, rest, isFloat);
    }
  }

  /** What a token begins with. */
  lemma LexemeBegins(text: Text, t: Token, rest: Text, isFloat: Text -> bool)
    requires text != [] && Lexeme(text, t, rest, isFloat)
    ensures text[0] != NUL
    ensures || text[0] in SIGN_CHARACTERS || text[0] == '\''
            || (StartCode(text[0]) && WholeWord(text, First(rest)))
            || (!StartCode(text[0]) && WholeNumber(text, First(rest)))
  {
    hide SpellsSign, SpellsWord;
    if t.Sign? && SpellsSign(text, t.kind, First(rest)) {
      SignBegins(text, t.kind, First(rest));
      SignsAreNoWords(text[0]);
    }
  }

  /**
   The lexer returns exactly the tokens of the text: those it consists of, each as long as it can be.
   It does not return when there are none, in a comment that has no end.
   */
  lemma {:induction false} LexerReadsTheGrammar(s: Text, ts: seq<Token>, isFloat: Text -> bool)
    ensures Lex(s, isFloat) == Some(ts + [Sign(EndOfFile)]) <==> Tokenized(s, ts, isFloat)
    decreases |s|
  {
    hide Next, PassedOver, Lexeme, Piece;
    if First(s) == NUL {
      LexEnd(s, isFloat);
      assert ts == [] ==> ts + [Sign(EndOfFile)] == [Sign(EndOfFile)];
      assert |ts + [Sign(EndOfFile)]| == |ts| + 1;
    } else {
      if Tokenized(s, ts, isFloat) {
        TokensAreLexed(s, ts, isFloat);
      }
      if Lex(s, isFloat) == Some(ts + [Sign(EndOfFile)]) {
        LexedIsTokenized(s, ts, isFloat);
      }
    }
  }

  /** One turn, and the tokens of the rest. */
  lemma {:induction false} LexTurn(s: Text, text: Text, t: Option<Token>, rest: Text, ts: seq<Token>, isFloat: Text -> bool)
    requires TurnIs(s, text, t, rest, isFloat) && Lex(rest, isFloat) == Some(ts + [Sign(EndOfFile)])
    ensures Lex(s, isFloat) == Some((if t.None? then ts else [t.value] + ts) + [Sign(EndOfFile)])
  {
    hide Next;
    if t.Some? {
      assert [t.value] + (ts + [Sign(EndOfFile)]) == [t.value] + ts + [Sign(EndOfFile)];
    }
  }

  lemma {:induction false} FirstPiece(s: Text, ts: seq<Token>, isFloat: Text -> bool) returns (text: Text, rest: Text)
    requires First(s) != NUL && Tokenized(s, ts, isFloat)
    ensures s == text + rest && text != [] && |rest| < |s|
    ensures if PassedOver(text) then Tokenized(rest, ts, isFloat)
            else ts != [] && Lexeme(text, ts[0], rest, isFloat) && Tokenized(rest, ts[1..], isFloat)
  {
    hide PassedOver, Lexeme;
    text, rest :| s == text + rest && text != []
      && if PassedOver(text) then Tokenized(rest, ts, isFloat)
         else ts != [] && Lexeme(text, ts[0], rest, isFloat) && Tokenized(rest, ts[1..], isFloat);
  }

  lemma {:induction false} TokensAreLexed(s: Text, ts: seq<Token>, isFloat: Text -> bool)
    requires First(s) != NUL && Tokenized(s, ts, isFloat)
    ensures Lex(s, isFloat) == Some(ts + [Sign(EndOfFile)])
    decreases |s|, 0
  {
    hide *;
    var text, rest := FirstPiece(s, ts, isFloat);
    if PassedOver(text) {
      PassedOverIsSkipped(text, rest, isFloat);
      LexedRest(rest, ts, isFloat);
      LexTurn(s, text, None, rest, ts, isFloat);
    } else {
      LexemeIsTaken(text, ts[0], rest, isFloat);
      LexedRest(rest, ts[1..], isFloat);
      LexTurn(s, text, Some(ts[0]), rest, ts[1..], isFloat);
      assert [ts[0]] + ts[1..] == ts;
    }
  }

  lemma {:induction false} LexedRest(s: Text, ts: seq<Token>, isFloat: Text -> bool)
    requires Tokenized(s, ts, isFloat)
    ensures Lex(s, isFloat) == Some(ts + [Sign(EndOfFile)])
    decreases |s|, 1
  {
    hide Lex;
    if First(s) == NUL {
      LexEnd(s, isFloat);
      assert ts + [Sign(EndOfFile)] == [Sign(EndOfFile)];
    } else {
      TokensAreLexed(s, ts, isFloat);
    }
  }

  lemma {:induction false} LexedIsTokenized(s: Text, ts: seq<Token>, isFloat: Text -> bool)
    requires Lex(s, isFloat) == Some(ts + [Sign(EndOfFile)])
    ensures Tokenized(s, ts, isFloat)
    decreases |s|
  {
    hide Next, PassedOver, Lexeme;
    if First(s) == NUL {
      LexEnd(s, isFloat);
      assert |ts + [Sign(EndOfFile)]| == |ts| + 1;
    } else {
      var text, t, rest := TurnSound(s, isFloat);
      hide Tokenized;
      var more := if t.None? then ts else ts[1..];
      if t.Some? {
        assert [t.value] + Lex(rest, isFloat).value == ts + [Sign(EndOfFile)];
        LexNotEmpty(rest, isFloat);
        assert |ts + [Sign(EndOfFile)]| > 1 && (ts + [Sign(EndOfFile)])[0] == ts[0] == t.value;
        assert Lex(rest, isFloat).value == (ts + [Sign(EndOfFile)])[1..] == ts[1..] + [Sign(EndOfFile)];
      }
      LexedIsTokenized(rest, more, isFloat);
      TokenizedNext(s, text, t, rest, ts, isFloat);
    }
  }

  lemma {:induction false} TokenizedNext(s: Text, text: Text, t: Option<Token>, rest: Text, ts: seq<Token>,
                                         isFloat: Text -> bool)
    requires First(s) != NUL && s == text + rest && Piece(text, t, rest, isFloat)
    requires t.Some? ==> ts != [] && ts[0] == t.value
    requires Tokenized(rest, if t.None? then ts else ts[1..], isFloat)
    ensures Tokenized(s, ts, isFloat)
  {
    hide PassedOver, Lexeme;
  }

  lemma LexNotEmpty(s: Text, isFloat: Text -> bool)
    ensures Lex(s, isFloat).Some? ==> Lex(s, isFloat).value != []
  {
  }
}
