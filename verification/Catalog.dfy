/**
 The catalog: the list of table schemas, saved as a text file of lines and loaded back. The
 specification reads a list of lines; the class loops over them as the source does.
 */
module Catalogs {
  import opened Values
  import opened Tokens
  import opened Wrappers

  datatype TableSchema = TableSchema(tableName: Text, columns: Schema, filePath: Text)

  /**
   The last two are no values of the source: `NotANumber` is the exception of `std::stoi`, and
   `UnknownType` stands for a column whose type the source leaves uninitialised.
   */
  datatype CatalogError =
    | FileNotOpen | UnvalidTableLineFormat | UnvalidColumnLineFormat | DuplicateTable | TableNotFound
    | NotANumber | UnknownType

  // Text to lines and words, as `std::getline` and `>>` split it.

  predicate IsSpace(c: char8) { c == ' ' || '\t' <= c <= '\r' }

  function LineEnd(s: Text): (n: nat)
    ensures n <= |s| && '\n' !in s[..n] && (n < |s| ==> s[n] == '\n')
  {
    if s == [] || s[0] == '\n' then 0 else 1 + LineEnd(s[1..])
  }

  function Lines(s: Text): seq<Text>
    decreases |s|
  {
    if s == [] then []
    else
      var n := LineEnd(s);
      [s[..n]] + Lines(if n < |s| then s[n + 1..] else [])
  }

  function WordEnd(s: Text): (n: nat)
    ensures n <= |s| && (forall i :: 0 <= i < n ==> !IsSpace(s[i])) && (n < |s| ==> IsSpace(s[n]))
  {
    if s == [] || IsSpace(s[0]) then 0 else 1 + WordEnd(s[1..])
  }

  function Words(s: Text): (words: seq<Text>)
    decreases |s|
  {
    if s == [] then []
    else if IsSpace(s[0]) then Words(s[1..])
    else [s[..WordEnd(s)]] + Words(s[WordEnd(s)..])
  }

  // Numbers.

  function IntText(n: int32): Text { if n < 0 then "-" + DecimalText(-(n as int)) else DecimalText(n) }

  function DigitsEnd(s: Text): (n: nat)
    ensures n <= |s| && AllDigits(s[..n])
  {
    if s == [] || !IsDigit(s[0]) then 0
    else
      assert s[..1 + DigitsEnd(s[1..])] == [s[0]] + s[1..][..DigitsEnd(s[1..])];
      1 + DigitsEnd(s[1..])
  }

  /** `std::stoi` of a word: a sign, and the digits up to the first other character. */
  function Stoi(word: Text): Option<int32> {
    var negative := word != [] && word[0] == '-';
    var digits := if negative || (word != [] && word[0] == '+') then word[1..] else word;
    var n := DigitsEnd(digits);
    if n == 0 then None
    else
      var size: int := DecimalValue(digits[..n]);
      var value := if negative then -size else size;
      if -0x8000_0000 <= value < 0x8000_0000 then Some(value) else None
  }

  // Saving.

  function TypeName(t: DataType): Text {
    match t
    case INTEGER => "INTEGER"
    case FLOAT => "FLOAT"
    case TEXT => "TEXT"
    case BOOLEAN => "BOOLEAN"
  }

  function BoolText(b: bool): Text { if b then "true" else "false" }

  function ColumnLine(c: Column): Text {
    var flags: Text := BoolText(c.notNull) + (" " + BoolText(c.primaryKey));
    var sized: Text := IntText(c.textLength) + (" " + flags);
    var typed: Text := TypeName(c.dataType) + (" " + sized);
    "COLUMN " + (c.name + (" " + typed))
  }

  function ColumnLines(columns: Schema): seq<Text> {
    if columns == [] then [] else [ColumnLine(columns[0])] + ColumnLines(columns[1..])
  }

  function TableLines(t: TableSchema): seq<Text> {
    ["TABLE " + t.tableName] + (ColumnLines(t.columns) + ["FILE " + t.filePath, "END"])
  }

  function CatalogLines(tables: seq<TableSchema>): seq<Text> {
    if tables == [] then [] else TableLines(tables[0]) + CatalogLines(tables[1..])
  }

  function Join(lines: seq<Text>): Text {
    if lines == [] then [] else lines[0] + ("\n" + Join(lines[1..]))
  }

  // Loading.

  function TypeOf(word: Text): Option<DataType> {
    if word == "INTEGER" then Some(INTEGER)
    else if word == "FLOAT" then Some(FLOAT)
    else if word == "TEXT" then Some(TEXT)
    else if word == "BOOLEAN" then Some(BOOLEAN)
    else None
  }

  function ReadColumn(line: Text): Result<Column, CatalogError> {
    var words := Words(line);
    if |words| != 6 then Err(UnvalidColumnLineFormat)
    else if Stoi(words[3]).None? then Err(NotANumber)
    else if TypeOf(words[2]).None? then Err(UnknownType)
    else Ok(Column(words[1], TypeOf(words[2]).value, Stoi(words[3]).value, words[4] == "true", words[5] == "true"))
  }

  /** The lines of one table up to its END, or to the end of the file; and the lines after it. */
  function ReadBody(lines: seq<Text>, t: TableSchema): (r: Result<(TableSchema, seq<Text>), CatalogError>)
    ensures r.Ok? ==> |r.value.1| <= |lines|
  {
    if lines == [] then Ok((t, []))
    else if lines[0] == "END" then Ok((t, lines[1..]))
    else if "COLUMN" <= lines[0] then
      var c :- ReadColumn(lines[0]);
      ReadBody(lines[1..], t.(columns := t.columns + [c]))
    else if "FILE" <= lines[0] && |Words(lines[0])| == 2 then
      ReadBody(lines[1..], t.(filePath := Words(lines[0])[1]))
    else ReadBody(lines[1..], t)
  }

  /** The tables read before the end of the file or the first error. */
  function ReadTables(lines: seq<Text>): (seq<TableSchema>, Result<(), CatalogError>)
    decreases |lines|
  {
    if lines == [] then ([], Ok(()))
    else if !("TABLE" <= lines[0]) then ReadTables(lines[1..])
    else if |Words(lines[0])| != 2 then ([], Err(UnvalidTableLineFormat))
    else match ReadBody(lines[1..], TableSchema(Words(lines[0])[1], [], []))
      case Err(e) => ([], Err(e))
      case Ok((t, rest)) =>
        var (tables, r) := ReadTables(rest);
        ([t] + tables, r)
  }

  // The round trip.

  /** No blank, no tab, and no end of a line or a page. */
  predicate NoSpace(s: Text) { forall i :: 0 <= i < |s| ==> s[i] as int != 32 && !(9 <= s[i] as int <= 13) }

  predicate IsWord(s: Text) { s != [] && NoSpace(s) }

  /** Names are non-empty and without white space; the path is without white space. */
  predicate CleanTable(t: TableSchema) {
    && IsWord(t.tableName) && NoSpace(t.filePath)
    && forall i :: 0 <= i < |t.columns| ==> IsWord(t.columns[i].name)
  }

  predicate Clean(tables: seq<TableSchema>) {
    forall i :: 0 <= i < |tables| ==> CleanTable(tables[i])
  }

  // What the words of a line are, and what a column line says.

  predicate SpaceCode(c: char8) { c as int == 32 || 9 <= c as int <= 13 }

  predicate AllSpace(s: Text) { forall i :: 0 <= i < |s| ==> SpaceCode(s[i]) }

  ghost predicate FirstWord(s: Text, gap: Text, word: Text, rest: Text) {
    s == gap + word + rest && AllSpace(gap) && IsWord(word) && (rest != [] ==> SpaceCode(rest[0]))
  }

  /** The text is these words, with white space around and between them. */
  ghost predicate Separated(s: Text, words: seq<Text>)
    decreases words
  {
    if words == [] then AllSpace(s)
    else exists gap, rest :: FirstWord(s, gap, words[0], rest) && Separated(rest, words[1..])
  }

  lemma FirstCharacter(gap: Text, word: Text, rest: Text)
    requires word != []
    ensures (gap + word + rest)[0] == (if gap == [] then word else gap)[0]
  {
  }

  lemma FirstWordAfterSpace(s: Text, gap: Text, word: Text, rest: Text)
    requires s != [] && IsSpace(s[0])
    ensures FirstWord(s, gap, word, rest) ==> gap != [] && FirstWord(s[1..], gap[1..], word, rest)
    ensures FirstWord(s[1..], gap, word, rest) ==> FirstWord(s, [s[0]] + gap, word, rest)
  {
    if FirstWord(s, gap, word, rest) {
      FirstCharacter(gap, word, rest);
      assert s[1..] == gap[1..] + word + rest;
    }
    if FirstWord(s[1..], gap, word, rest) {
      assert s == [s[0]] + s[1..] == [s[0]] + gap + word + rest;
    }
  }

  lemma OneFirstWord(s: Text, gap: Text, word: Text, rest: Text)
    requires s != [] && !IsSpace(s[0])
    ensures FirstWord(s, gap, word, rest) <==> gap == [] && word == s[..WordEnd(s)] && rest == s[WordEnd(s)..]
  {
    if FirstWord(s, gap, word, rest) {
      FirstCharacter(gap, word, rest);
      assert s == word + rest;
      WordEnds(word, rest);
      assert s[..|word|] == word && s[|word|..] == rest;
    }
    assert s == [] + s[..WordEnd(s)] + s[WordEnd(s)..];
  }

  lemma {:induction false} SpaceInFront(s: Text, words: seq<Text>)
    requires s != [] && IsSpace(s[0])
    ensures Separated(s, words) <==> Separated(s[1..], words)
  {
    if words == [] {
      assert s == [s[0]] + s[1..];
    } else {
      forall gap, rest
        ensures FirstWord(s, gap, words[0], rest) ==> gap != [] && FirstWord(s[1..], gap[1..], words[0], rest)
        ensures FirstWord(s[1..], gap, words[0], rest) ==> FirstWord(s, [s[0]] + gap, words[0], rest)
      {
        FirstWordAfterSpace(s, gap, words[0], rest);
      }
      hide FirstWord;
    }
  }

  lemma {:induction false} WordInFront(s: Text, words: seq<Text>)
    requires s != [] && !IsSpace(s[0])
    ensures var n := WordEnd(s);
      Separated(s, words) <==> words != [] && words[0] == s[..n] && Separated(s[n..], words[1..])
  {
    if words == [] {
      assert !SpaceCode(s[0]);
    } else {
      forall gap, rest
        ensures FirstWord(s, gap, words[0], rest) <==> gap == [] && words[0] == s[..WordEnd(s)] && rest == s[WordEnd(s)..]
      {
        OneFirstWord(s, gap, words[0], rest);
      }
      hide FirstWord, WordEnd;
      assert words[0] == s[..WordEnd(s)] ==> FirstWord(s, [], words[0], s[WordEnd(s)..]);
    }
  }

  lemma {:induction false} WordsAreSeparated(s: Text, words: seq<Text>)
    ensures Words(s) == words <==> Separated(s, words)
    decreases |s|
  {
    hide IsSpace, WordEnd, SpaceCode;
    if s == [] {
      NoWordInNothing(words);
    } else if IsSpace(s[0]) {
      hide Separated;
      SpaceInFront(s, words);
      WordsAreSeparated(s[1..], words);
    } else {
      hide Separated;
      var n := WordEnd(s);
      WordNotEmpty(s);
      WordInFront(s, words);
      if words != [] {
        WordsAreSeparated(s[n..], words[1..]);
        assert words[0] == s[..n] && words[1..] == Words(s[n..]) ==> words == Words(s);
        assert words == Words(s) ==> words[1..] == Words(s[n..]);
      }
    }
  }

  lemma WordNotEmpty(s: Text)
    requires s != [] && !IsSpace(s[0])
    ensures WordEnd(s) > 0
  {
  }

  lemma {:induction false} NoWordInNothing(words: seq<Text>)
    ensures Separated([], words) <==> words == []
  {
  }

  /** How the file names the type of a column. */
  predicate NamesType(word: Text, t: DataType) {
    match t
    case INTEGER => word == "INTEGER"
    case FLOAT => word == "FLOAT"
    case TEXT => word == "TEXT"
    case BOOLEAN => word == "BOOLEAN"
  }

  /** The column a line describes: six words, of which the third is a type and the fourth a number. */
  ghost predicate DescribesColumn(line: Text, c: Column) {
    exists words :: Separated(line, words) && |words| == 6 && words[1] == c.name && NamesType(words[2], c.dataType)
      && DenotesNumber(words[3], c.textLength)
      && (words[4] == "true" <==> c.notNull) && (words[5] == "true" <==> c.primaryKey)
  }

  lemma ColumnLineMeans(line: Text, c: Column)
    ensures ReadColumn(line) == Ok(c) <==> DescribesColumn(line, c)
  {
    var words := Words(line);
    WordsAreSeparated(line, words);
    forall others | Separated(line, others)
      ensures others == words
    {
      WordsAreSeparated(line, others);
    }
    if |words| == 6 {
      TypeOfName(words[2], c.dataType);
      StoiMeans(words[3], c.textLength);
    }
    hide DenotesNumber, Words, Stoi, NamesType, TypeOf, Separated;
  }

  /** The error of a line that describes no column: that of its words, then of its number, then of its type. */
  lemma ColumnLineFails(line: Text)
    ensures ReadColumn(line) == Err(UnvalidColumnLineFormat) <==> exists words :: Separated(line, words) && |words| != 6
    ensures ReadColumn(line) == Err(NotANumber) <==>
      exists words :: Separated(line, words) && |words| == 6 && forall n :: !DenotesNumber(words[3], n)
    ensures ReadColumn(line) == Err(UnknownType) <==>
      exists words, n :: Separated(line, words) && |words| == 6 && DenotesNumber(words[3], n)
        && forall t :: !NamesType(words[2], t)
  {
    var words := Words(line);
    WordsAreSeparated(line, words);
    forall others | Separated(line, others)
      ensures others == words
    {
      WordsAreSeparated(line, others);
    }
    if |words| == 6 {
      forall n: int32
        ensures Stoi(words[3]) == Some(n) <==> DenotesNumber(words[3], n)
      {
        StoiMeans(words[3], n);
      }
      forall t
        ensures TypeOf(words[2]) == Some(t) <==> NamesType(words[2], t)
      {
        TypeOfName(words[2], t);
      }
      hide TypeOf, Stoi;
      assert Stoi(words[3]).Some? ==> DenotesNumber(words[3], Stoi(words[3]).value);
      assert TypeOf(words[2]).Some? ==> NamesType(words[2], TypeOf(words[2]).value);
    }
    hide DenotesNumber, Words, Stoi, NamesType, TypeOf, Separated;
  }

  lemma TypeOfName(word: Text, t: DataType)
    ensures TypeOf(word) == Some(t) <==> NamesType(word, t)
  {
  }

  /** A number: a sign or none, all digits there are, and anything after them. */
  ghost predicate DenotesNumber(word: Text, n: int32) {
    exists sign, digits, rest :: NumberParts(word, sign, digits, rest)
      && n == if sign == MINUS then -(DecimalValue(digits) as int) else DecimalValue(digits)
  }

  const PLUS: Text := "+"
  const MINUS: Text := "-"

  predicate NumberParts(word: Text, sign: Text, digits: Text, rest: Text) {
    && word == sign + digits + rest && (sign == [] || sign == PLUS || sign == MINUS)
    && digits != [] && AllDigits(digits) && (rest != [] ==> !IsDigit(rest[0]))
  }

  lemma {:induction false} DigitsAreAll(s: Text, digits: Text, rest: Text)
    requires s == digits + rest && AllDigits(digits) && (rest != [] ==> !IsDigit(rest[0]))
    ensures DigitsEnd(s) == |digits|
  {
    if digits == [] {
      assert s == rest;
    } else {
      assert s[1..] == digits[1..] + rest;
      DigitsAreAll(s[1..], digits[1..], rest);
    }
  }

  lemma {:induction false} NoDigitAfter(s: Text)
    ensures DigitsEnd(s) < |s| ==> !IsDigit(s[DigitsEnd(s)])
  {
    if DigitsEnd(s) > 0 {
      NoDigitAfter(s[1..]);
    }
  }

  /** What stands in front of the digits. */
  function SignOf(word: Text): Text {
    if word != [] && (word[0] == '-' || word[0] == '+') then [word[0]] else []
  }

  lemma PartsAreThese(word: Text, sign: Text, digits: Text, rest: Text)
    requires NumberParts(word, sign, digits, rest)
    ensures var s := word[|SignOf(word)|..]; var n := DigitsEnd(s);
      n > 0 && sign == SignOf(word) && digits == s[..n]
  {
    hide SignOf, IsDigit, DigitsEnd;
    FirstOfNumber(sign, digits, rest);
    var s := word[|sign|..];
    assert s == digits + rest;
    DigitsAreAll(s, digits, rest);
    assert s[..|digits|] == digits;
  }

  lemma FirstOfNumber(sign: Text, digits: Text, rest: Text)
    requires (sign == [] || sign == PLUS || sign == MINUS) && digits != [] && AllDigits(digits)
    ensures SignOf(sign + digits + rest) == sign
  {
    var word := sign + digits + rest;
    assert word[0] == if sign == [] then digits[0] else sign[0];
  }

  lemma PartsAreThere(word: Text)
    requires DigitsEnd(word[|SignOf(word)|..]) > 0
    ensures var s := word[|SignOf(word)|..]; var n := DigitsEnd(s); NumberParts(word, SignOf(word), s[..n], s[n..])
  {
    var sign := SignOf(word);
    var s := word[|sign|..];
    var n := DigitsEnd(s);
    NoDigitAfter(s);
    hide SignOf, DigitsEnd, IsDigit;
    assert word == sign + s by { SignFirst(word); }
    assert s == s[..n] + s[n..];
    assert sign == [] || sign == PLUS || sign == MINUS by { SignFirst(word); }
  }

  lemma SignFirst(word: Text)
    ensures SignOf(word) <= word && (SignOf(word) == [] || SignOf(word) == PLUS || SignOf(word) == MINUS)
  {
  }

  lemma StoiIs(word: Text, n: int32)
    ensures var s := word[|SignOf(word)|..]; var k := DigitsEnd(s);
      Stoi(word) == Some(n) <==>
        k > 0 && n == if SignOf(word) == MINUS then -(DecimalValue(s[..k]) as int) else DecimalValue(s[..k])
  {
    hide DecimalValue, DigitsEnd;
  }

  /** Every word: it is read as the number it denotes, if that is in range. */
  lemma StoiMeans(word: Text, n: int32)
    ensures Stoi(word) == Some(n) <==> DenotesNumber(word, n)
  {
    StoiIs(word, n);
    hide DecimalValue, Stoi, SignOf, DigitsEnd;
    if DenotesNumber(word, n) {
      var sign, digits, rest :| NumberParts(word, sign, digits, rest)
        && n == if sign == MINUS then -(DecimalValue(digits) as int) else DecimalValue(digits);
      PartsAreThese(word, sign, digits, rest);
    }
    if Stoi(word) == Some(n) {
      PartsAreThere(word);
    }
  }

  /** The text again, with an end for a last line that had none. */
  predicate GivesBack(joined: Text, s: Text) {
    joined == s || (s != [] && s[|s| - 1] != '\n' && joined == s + NEWLINE)
  }

  /** The lines of a file are all of it: joined again they give it back. */
  lemma {:induction false} LinesAreAll(s: Text)
    ensures GivesBack(Join(Lines(s)), s)
    decreases |s|
  {
    hide *;
    if s == [] {
      NoLines();
    } else {
      var rest := RestOfLines(s);
      LinesAreAll(rest);
      LinesFrom(s, rest);
      FirstLineAndRest(s, LineEnd(s), rest, Join(Lines(rest)));
    }
  }

  lemma NoLines()
    ensures GivesBack(Join(Lines([])), [])
  {
  }

  function RestOfLines(s: Text): (rest: Text)
    requires s != []
    ensures |rest| < |s| && rest == if LineEnd(s) < |s| then s[LineEnd(s) + 1..] else []
  {
    if LineEnd(s) < |s| then s[LineEnd(s) + 1..] else []
  }

  lemma {:induction false} LinesHaveNoEnds(s: Text)
    ensures forall line :: line in Lines(s) ==> '\n' !in line
    decreases |s|
  {
    if s != [] {
      var n := LineEnd(s);
      hide LineEnd;
      LinesHaveNoEnds(if n < |s| then s[n + 1..] else []);
    }
  }

  lemma {:induction false} LinesFrom(s: Text, rest: Text)
    requires s != [] && rest == RestOfLines(s)
    ensures Join(Lines(s)) == s[..LineEnd(s)] + (NEWLINE + Join(Lines(rest)))
  {
    hide *;
    LinesUnfold(s);
    JoinUnfold(s[..LineEnd(s)], Lines(rest));
  }

  lemma {:induction false} LinesUnfold(s: Text)
    requires s != []
    ensures var n := LineEnd(s);
      Lines(s) == [s[..n]] + Lines(if n < |s| then s[n + 1..] else [])
  {
    hide LineEnd;
  }

  lemma {:induction false} JoinUnfold(line: Text, lines: seq<Text>)
    ensures Join([line] + lines) == line + (NEWLINE + Join(lines))
  {
    assert ([line] + lines)[1..] == lines;
  }

  lemma FirstLineAndRest(s: Text, n: nat, rest: Text, joined: Text)
    requires s != [] && n <= |s| && (n < |s| ==> s[n] == '\n') && '\n' !in s[..n]
    requires rest == (if n < |s| then s[n + 1..] else []) && GivesBack(joined, rest)
    ensures GivesBack(s[..n] + (NEWLINE + joined), s)
  {
    if n < |s| {
      assert s == s[..n] + (NEWLINE + rest);
      assert s + NEWLINE == s[..n] + (NEWLINE + (rest + NEWLINE));
      assert rest != [] ==> rest[|rest| - 1] == s[|s| - 1];
    } else {
      assert s[..n] == s && NEWLINE + [] == NEWLINE;
    }
  }

  const NEWLINE: Text := "\n"

  lemma WordFirst(word: Text, rest: Text)
    requires IsWord(word) && (rest != [] ==> IsSpace(rest[0]))
    ensures Words(word + rest) == [word] + Words(rest)
  {
    WordEnds(word, rest);
    assert (word + rest)[..|word|] == word && (word + rest)[|word|..] == rest;
  }

  lemma {:induction false} WordEnds(word: Text, rest: Text)
    requires NoSpace(word) && (rest != [] ==> IsSpace(rest[0]))
    ensures WordEnd(word + rest) == |word|
  {
    if word == [] {
      assert word + rest == rest;
    } else {
      assert (word + rest)[1..] == word[1..] + rest;
      WordEnds(word[1..], rest);
    }
  }

  /** A word and a blank before the rest of a line. */
  lemma WordThen(word: Text, rest: Text)
    requires IsWord(word)
    ensures Words(word + (" " + rest)) == [word] + Words(rest)
  {
    WordFirst(word, " " + rest);
    assert (" " + rest)[1..] == rest;
  }

  lemma LastWord(word: Text)
    requires IsWord(word)
    ensures Words(word) == [word]
  {
    WordFirst(word, []);
    assert word + [] == word;
  }

  lemma {:induction false} DigitsEndAll(s: Text)
    requires AllDigits(s)
    ensures DigitsEnd(s) == |s|
  {
    if s != [] {
      DigitsEndAll(s[1..]);
    }
  }

  lemma NumberReadBack(n: int32)
    ensures IsWord(IntText(n)) && Stoi(IntText(n)) == Some(n)
  {
    var digits := DecimalText(if n < 0 then -(n as int) else n);
    DigitsEndAll(digits);
    assert IsDigit(digits[0]) && digits[..|digits|] == digits;
    if n < 0 {
      assert IntText(n)[1..] == digits;
    }
  }

  lemma FieldsAreWords(c: Column)
    ensures IsWord(TypeName(c.dataType)) && TypeOf(TypeName(c.dataType)) == Some(c.dataType)
    ensures forall b :: IsWord(BoolText(b)) && (BoolText(b) == "true" <==> b)
    ensures IsWord("COLUMN")
  {
  }

  lemma ColumnWords(c: Column)
    requires IsWord(c.name)
    ensures Words(ColumnLine(c)) ==
      ["COLUMN", c.name, TypeName(c.dataType), IntText(c.textLength), BoolText(c.notNull), BoolText(c.primaryKey)]
  {
    FieldsAreWords(c);
    NumberReadBack(c.textLength);
    hide Words, IsWord, TypeName, IntText, BoolText;
    var last := BoolText(c.primaryKey);
    var four := BoolText(c.notNull) + (" " + last);
    var three := IntText(c.textLength) + (" " + four);
    var two := TypeName(c.dataType) + (" " + three);
    var one := c.name + (" " + two);
    assert ColumnLine(c) == "COLUMN" + (" " + one);
    WordThen("COLUMN", one);
    WordThen(c.name, two);
    WordThen(TypeName(c.dataType), three);
    WordThen(IntText(c.textLength), four);
    WordThen(BoolText(c.notNull), last);
    LastWord(last);
  }

  lemma ColumnReadBack(c: Column)
    requires IsWord(c.name)
    ensures ReadColumn(ColumnLine(c)) == Ok(c)
  {
    ColumnWords(c);
    FieldsAreWords(c);
    NumberReadBack(c.textLength);
    hide Words, IsWord, TypeName, IntText, BoolText, ColumnLine, Stoi, TypeOf;
  }

  lemma {:induction false} BodyReadBack(columns: Schema, path: Text, rest: seq<Text>, t: TableSchema)
    requires NoSpace(path) && forall i :: 0 <= i < |columns| ==> IsWord(columns[i].name)
    requires t.filePath == ""
    ensures ReadBody(ColumnLines(columns) + ["FILE " + path, "END"] + rest, t)
         == Ok((t.(columns := t.columns + columns, filePath := path), rest))
  {
    hide ReadColumn, Words, ColumnLine, IsWord;
    var lines := ColumnLines(columns) + ["FILE " + path, "END"] + rest;
    if columns == [] {
      FileLine(path, rest, t);
      assert lines == ["FILE " + path] + (["END"] + rest);
      assert t.columns + columns == t.columns;
    } else {
      ColumnReadBack(columns[0]);
      ColumnLineStarts(columns[0]);
      assert lines[1..] == ColumnLines(columns[1..]) + ["FILE " + path, "END"] + rest;
      BodyReadBack(columns[1..], path, rest, t.(columns := t.columns + [columns[0]]));
      assert t.columns + columns == t.columns + [columns[0]] + columns[1..];
    }
  }

  lemma ColumnLineStarts(c: Column)
    ensures "COLUMN" <= ColumnLine(c) && ColumnLine(c) != "END"
  {
  }

  lemma FileLine(path: Text, rest: seq<Text>, t: TableSchema)
    requires NoSpace(path) && t.filePath == ""
    ensures ReadBody(["FILE " + path] + (["END"] + rest), t) == Ok((t.(filePath := path), rest))
  {
    FileWords(path);
    hide Words, NoSpace, ReadColumn;
    var line := "FILE " + path;
    assert line[0] == 'F' && "COLUMN"[0] == 'C' && "END"[0] == 'E';
    assert (["END"] + rest)[1..] == rest && ([line] + (["END"] + rest))[1..] == ["END"] + rest;
  }

  lemma FileWords(path: Text)
    requires NoSpace(path)
    ensures Words("FILE " + path) == if path == [] then ["FILE"] else ["FILE", path]
    ensures "FILE" <= "FILE " + path
  {
    FixedWords();
    hide Words, NoSpace;
    assert "FILE " + path == "FILE" + (" " + path);
    WordThen("FILE", path);
    if path != [] {
      LastWord(path);
    } else {
      NoWords();
    }
  }

  lemma FixedWords()
    ensures IsWord("FILE") && IsWord("TABLE")
  {
  }

  lemma {:induction false} TablesReadBack(tables: seq<TableSchema>)
    requires Clean(tables)
    ensures ReadTables(CatalogLines(tables)) == (tables, Ok(()))
  {
    hide ReadBody, Words, IsWord, ColumnLines;
    if tables != [] {
      hide ReadTables;
      var t, rest := tables[0], CatalogLines(tables[1..]);
      TablesReadBack(tables[1..]);
      TableReadBack(t, rest);
      assert [t] + tables[1..] == tables;
    }
  }

  lemma TableReadBack(t: TableSchema, rest: seq<Text>)
    requires CleanTable(t)
    ensures var (tables, r) := ReadTables(rest);
      ReadTables(TableLines(t) + rest) == ([t] + tables, r)
  {
    hide ReadBody, ReadTables, Words, IsWord, ColumnLines;
    var body := ColumnLines(t.columns) + ["FILE " + t.filePath, "END"] + rest;
    BodyReadBack(t.columns, t.filePath, rest, TableSchema(t.tableName, [], ""));
    assert [] + t.columns == t.columns;
    assert TableLines(t) + rest == ["TABLE " + t.tableName] + body;
    TableLine(t.tableName, body, t, rest);
  }

  lemma TableLine(name: Text, body: seq<Text>, t: TableSchema, rest: seq<Text>)
    requires IsWord(name) && ReadBody(body, TableSchema(name, [], "")) == Ok((t, rest))
    ensures var (tables, r) := ReadTables(rest);
      ReadTables(["TABLE " + name] + body) == ([t] + tables, r)
  {
    TableWords(name);
    hide Words, ReadBody, NoSpace;
    assert (["TABLE " + name] + body)[1..] == body;
  }

  lemma TableWords(name: Text)
    requires IsWord(name)
    ensures Words("TABLE " + name) == ["TABLE", name] && "TABLE" <= "TABLE " + name
  {
    FixedWords();
    hide Words, NoSpace;
    assert "TABLE " + name == "TABLE" + (" " + name);
    WordThen("TABLE", name);
    LastWord(name);
  }

  /** Without the end of line inside any of them, joined lines come apart again. */
  lemma {:induction false} LinesOfJoin(lines: seq<Text>)
    requires forall i :: 0 <= i < |lines| ==> '\n' !in lines[i]
    ensures Lines(Join(lines)) == lines
  {
    if lines != [] {
      var rest := Join(lines[1..]);
      LinesOfJoin(lines[1..]);
      LineEnds(lines[0], rest);
      var s := lines[0] + ("\n" + rest);
      assert s[..|lines[0]|] == lines[0] && s[|lines[0]| + 1..] == rest;
    }
  }

  lemma {:induction false} LineEnds(line: Text, rest: Text)
    requires '\n' !in line
    ensures LineEnd(line + ("\n" + rest)) == |line|
  {
    if line == [] {
      assert line + ("\n" + rest) == "\n" + rest;
    } else {
      assert (line + ("\n" + rest))[1..] == line[1..] + ("\n" + rest);
      LineEnds(line[1..], rest);
    }
  }

  ghost predicate OneLineEach(lines: seq<Text>) {
    forall i :: 0 <= i < |lines| ==> '\n' !in lines[i]
  }

  lemma OneLine(c: Column)
    requires IsWord(c.name)
    ensures '\n' !in ColumnLine(c)
  {
    FieldsAreWords(c);
    NumberReadBack(c.textLength);
    hide TypeName, IntText, BoolText;
    assert forall w: Text :: IsWord(w) ==> '\n' !in w;
  }

  lemma {:induction false} ColumnsOneLine(columns: Schema)
    requires forall i :: 0 <= i < |columns| ==> IsWord(columns[i].name)
    ensures OneLineEach(ColumnLines(columns))
  {
    hide ColumnLine, IsWord;
    if columns != [] {
      OneLine(columns[0]);
      ColumnsOneLine(columns[1..]);
    }
  }

  lemma {:induction false} CatalogOneLine(tables: seq<TableSchema>)
    requires Clean(tables)
    ensures OneLineEach(CatalogLines(tables))
  {
    hide CleanTable, TableLines;
    if tables != [] {
      TableOneLine(tables[0]);
      CatalogOneLine(tables[1..]);
    }
  }

  lemma TableOneLine(t: TableSchema)
    requires CleanTable(t)
    ensures OneLineEach(TableLines(t))
  {
    hide ColumnLines, OneLineEach, TableLines, IsWord, NoSpace;
    ColumnsOneLine(t.columns);
    var first, last := FirstAndLastOneLine(t);
    OneLineBoth(ColumnLines(t.columns), last);
    OneLineBoth(first, ColumnLines(t.columns) + last);
  }

  lemma FirstAndLastOneLine(t: TableSchema) returns (first: seq<Text>, last: seq<Text>)
    requires CleanTable(t)
    ensures TableLines(t) == first + (ColumnLines(t.columns) + last)
    ensures OneLineEach(first) && OneLineEach(last)
  {
    hide ColumnLines;
    first, last := ["TABLE " + t.tableName], ["FILE " + t.filePath, "END"];
    NameOneLine("TABLE ", t.tableName);
    NameOneLine("FILE ", t.filePath);
    assert '\n' !in "END";
  }

  lemma OneLineBoth(a: seq<Text>, b: seq<Text>)
    requires OneLineEach(a) && OneLineEach(b)
    ensures OneLineEach(a + b)
  {
  }

  lemma NameOneLine(head: Text, name: Text)
    requires NoSpace(name) && '\n' !in head
    ensures '\n' !in head + name
  {
  }

  lemma {:induction false} WordsAreWords(s: Text)
    ensures forall i :: 0 <= i < |Words(s)| ==> IsWord(Words(s)[i])
    decreases |s|
  {
    if s != [] {
      WordsAreWords(if IsSpace(s[0]) then s[1..] else s[WordEnd(s)..]);
    }
  }

  lemma {:induction false} BodyIsClean(lines: seq<Text>, t: TableSchema)
    requires CleanTable(t) && ReadBody(lines, t).Ok?
    ensures CleanTable(ReadBody(lines, t).value.0)
  {
    hide Words, IsWord, NoSpace, Stoi, TypeOf;
    if lines != [] && lines[0] != "END" {
      WordsAreWords(lines[0]);
      assert forall w :: IsWord(w) ==> NoSpace(w) by { WordsHaveNoSpace(); }
      if "COLUMN" <= lines[0] {
        BodyIsClean(lines[1..], t.(columns := t.columns + [ReadColumn(lines[0]).value]));
      } else if "FILE" <= lines[0] && |Words(lines[0])| == 2 {
        BodyIsClean(lines[1..], t.(filePath := Words(lines[0])[1]));
      } else {
        BodyIsClean(lines[1..], t);
      }
    }
  }

  lemma WordsHaveNoSpace()
    ensures forall w :: IsWord(w) ==> NoSpace(w)
  {
  }

  /** Whatever the file says, only such names and paths are loaded. */
  lemma {:induction false} LoadedIsClean(lines: seq<Text>)
    ensures Clean(ReadTables(lines).0)
    decreases |lines|
  {
    hide Words, CleanTable, ReadBody;
    if lines != [] {
      if !("TABLE" <= lines[0]) {
        LoadedIsClean(lines[1..]);
      } else if |Words(lines[0])| == 2 {
        var fresh_ := TableSchema(Words(lines[0])[1], [], []);
        NewTableIsClean(lines[0]);
        var body := ReadBody(lines[1..], fresh_);
        if body.Ok? {
          BodyIsClean(lines[1..], fresh_);
          LoadedIsClean(body.value.1);
        }
      }
    }
  }

  lemma NewTableIsClean(line: Text)
    requires |Words(line)| == 2
    ensures CleanTable(TableSchema(Words(line)[1], [], []))
  {
    WordsAreWords(line);
  }

  function SavedText(tables: seq<TableSchema>): Text { Join(CatalogLines(tables)) }

  /**
   Loading what was saved gives the same ordered list of tables, without an error, if and only if
   every name is a non-empty word and no path has white space in it.
   */
  lemma SaveThenLoadIff(tables: seq<TableSchema>)
    ensures ReadTables(Lines(SavedText(tables))) == (tables, Ok(())) <==> Clean(tables)
  {
    hide Lines, ReadTables, CatalogLines, Join, CleanTable;
    LoadedIsClean(Lines(SavedText(tables)));
    if Clean(tables) {
      CatalogOneLine(tables);
      LinesOfJoin(CatalogLines(tables));
      TablesReadBack(tables);
    }
  }

  // The loops.

  lemma {:induction false} JoinBoth(a: seq<Text>, b: seq<Text>)
    ensures Join(a + b) == Join(a) + Join(b)
  {
    if a == [] {
      assert a + b == b;
    } else {
      assert (a + b)[1..] == a[1..] + b;
      JoinBoth(a[1..], b);
      assert a[0] + ("\n" + (Join(a[1..]) + Join(b))) == a[0] + ("\n" + Join(a[1..])) + Join(b);
    }
  }

  /** `split`: the words of a line. */
  method Split(s: Text) returns (words: seq<Text>)
    ensures words == Words(s)
  {
    hide WordEnd, Words;
    words := [];
    var position := 0;
    assert s[0..] == s && [] + Words(s) == Words(s);
    while position < |s|
      invariant position <= |s|
      invariant Words(s) == words + Words(s[position..])
    {
      WordsStep(s, position, words);
      if IsSpace(s[position]) {
        position := position + 1;
      } else {
        var end := EndOfWord(s, position);
        words := words + [s[position..end]];
        position := end;
      }
    }
    NoWords();
    assert s[|s|..] == [] && words + [] == words;
  }

  method EndOfWord(s: Text, start: nat) returns (end: nat)
    requires start < |s| && !IsSpace(s[start])
    ensures start < end <= |s| && end == start + WordEnd(s[start..])
  {
    end := start;
    while end < |s| && !IsSpace(s[end])
      invariant start <= end <= |s|
      invariant WordEnd(s[start..]) == end - start + WordEnd(s[end..])
    {
      assert s[end..][1..] == s[end + 1..];
      end := end + 1;
    }
  }

  lemma NoWords()
    ensures Words([]) == []
  {
  }

  lemma WordsStep(s: Text, at: nat, words: seq<Text>)
    requires at < |s|
    ensures IsSpace(s[at]) ==> Words(s[at..]) == Words(s[at + 1..])
    ensures !IsSpace(s[at]) ==>
      var end := at + WordEnd(s[at..]);
      words + Words(s[at..]) == words + [s[at..end]] + Words(s[end..])
  {
    hide Words, WordEnd, IsSpace;
    var n := WordEnd(s[at..]);
    WordsFrom(s[at..]);
    RestAt(s, at, n);
    if !IsSpace(s[at]) {
      OneWordMore(words, s[at..at + n], Words(s[at + n..]));
    }
  }

  lemma WordsFrom(s: Text)
    requires s != []
    ensures Words(s) == if IsSpace(s[0]) then Words(s[1..]) else [s[..WordEnd(s)]] + Words(s[WordEnd(s)..])
  {
  }

  lemma OneWordMore(words: seq<Text>, word: Text, rest: seq<Text>)
    ensures words + ([word] + rest) == words + [word] + rest
  {
  }

  lemma RestAt(s: Text, at: nat, n: nat)
    requires at < |s| && at + n <= |s|
    ensures s[at..][0] == s[at] && s[at..][1..] == s[at + 1..]
    ensures s[at..][n..] == s[at + n..] && s[at..][..n] == s[at..at + n]
  {
  }

  /** `std::getline`: the next line and what is left, or nothing at the end. */
  method GetLine(s: Text) returns (line: Option<Text>, rest: Text)
    ensures Lines(s) == Remaining(line, rest)
    ensures if line.Some? then |rest| < |s| else rest == []
  {
    if s == [] {
      return None, [];
    }
    var n := 0;
    assert s[0..] == s;
    while n < |s| && s[n] != '\n'
      invariant n <= |s| && LineEnd(s) == n + LineEnd(s[n..])
    {
      assert s[n..][1..] == s[n + 1..];
      n := n + 1;
    }
    return Some(s[..n]), if n < |s| then s[n + 1..] else [];
  }

  /** The lines still to come, the one just read included. */
  function Remaining(line: Option<Text>, rest: Text): seq<Text> {
    if line.None? then [] else [line.value] + Lines(rest)
  }

  method LoadColumn(line: Text) returns (r: Result<Column, CatalogError>)
    ensures r == ReadColumn(line)
  {
    var words := Split(line);
    if |words| != 6 {
      return Err(UnvalidColumnLineFormat);
    }
    var textLength := Stoi(words[3]);
    if textLength.None? {
      return Err(NotANumber);
    }
    var dataType := TypeOf(words[2]);
    if dataType.None? {
      return Err(UnknownType);
    }
    return Ok(Column(words[1], dataType.value, textLength.value, words[4] == "true", words[5] == "true"));
  }

  /** The inner loop of `load`: the lines of one table. */
  method LoadTable(name: Text, text: Text) returns (r: Result<TableSchema, CatalogError>, rest: Text)
    ensures |rest| <= |text|
    ensures Loaded(ReadBody(Lines(text), TableSchema(name, [], [])), r, rest)
  {
    hide ReadColumn, Words, Lines;
    var t := TableSchema(name, [], []);
    ghost var all := Lines(text);
    var line;
    line, rest := GetLine(text);
    while line.Some? && line.value != "END"
      invariant |rest| <= |text|
      invariant ReadBody(all, TableSchema(name, [], [])) == ReadBody(Remaining(line, rest), t)
      decreases |rest|, line.Some?
    {
      assert Remaining(line, rest)[1..] == Lines(rest);
      if "COLUMN" <= line.value {
        var column := LoadColumn(line.value);
        if column.Err? {
          return Err(column.error), rest;
        }
        t := t.(columns := t.columns + [column.value]);
      } else if "FILE" <= line.value {
        var words := Split(line.value);
        if |words| == 2 {
          t := t.(filePath := words[1]);
        }
      }
      line, rest := GetLine(rest);
    }
    assert line.Some? ==> Remaining(line, rest)[1..] == Lines(rest);
    EmptyText();
    return Ok(t), if line.Some? then rest else [];
  }

  lemma EmptyText()
    ensures Lines([]) == []
  {
  }

  ghost predicate Loaded(body: Result<(TableSchema, seq<Text>), CatalogError>,
                         r: Result<TableSchema, CatalogError>, rest: Text) {
    match body
    case Err(e) => r == Err(e)
    case Ok((t, lines)) => r == Ok(t) && Lines(rest) == lines
  }

  predicate NamesDistinct(tables: seq<TableSchema>) {
    forall i, j :: 0 <= i < j < |tables| ==> tables[i].tableName != tables[j].tableName
  }

  predicate Named(tables: seq<TableSchema>, name: Text) { exists i :: 0 <= i < |tables| && tables[i].tableName == name }

  /** Loading lines into a catalog that has tables already. */
  function LoadFrom(tables: seq<TableSchema>, lines: seq<Text>): (seq<TableSchema>, Result<(), CatalogError>) {
    var (more, r) := ReadTables(lines);
    (tables + more, r)
  }

  lemma NothingLeft(tables: seq<TableSchema>, rest: Text)
    ensures LoadFrom(tables, Remaining(None, rest)) == (tables, Ok(()))
  {
    assert tables + [] == tables;
  }

  lemma OtherLine(tables: seq<TableSchema>, line: Text, rest: Text)
    requires !("TABLE" <= line)
    ensures LoadFrom(tables, Remaining(Some(line), rest)) == LoadFrom(tables, Lines(rest))
  {
    hide Lines, Words, ReadBody;
    assert Remaining(Some(line), rest)[1..] == Lines(rest);
  }

  lemma BadTableLine(tables: seq<TableSchema>, line: Text, rest: Text)
    requires "TABLE" <= line && |Words(line)| != 2
    ensures LoadFrom(tables, Remaining(Some(line), rest)) == (tables, Err(UnvalidTableLineFormat))
  {
    hide Lines, Words, ReadBody;
    assert tables + [] == tables;
  }

  lemma TableLoaded(tables: seq<TableSchema>, line: Text, text: Text, name: Text,
                    table: Result<TableSchema, CatalogError>, rest: Text)
    requires "TABLE" <= line && |Words(line)| == 2 && name == Words(line)[1]
    requires Loaded(ReadBody(Lines(text), TableSchema(name, [], [])), table, rest)
    ensures table.Err? ==> LoadFrom(tables, Remaining(Some(line), text)) == (tables, Err(table.error))
    ensures table.Ok? ==>
      LoadFrom(tables, Remaining(Some(line), text)) == LoadFrom(tables + [table.value], Lines(rest))
  {
    hide Words, ReadBody, Lines;
    assert Remaining(Some(line), text)[1..] == Lines(text) && tables + [] == tables;
    if table.Ok? {
      var more := ReadTables(Lines(rest)).0;
      assert tables + ([table.value] + more) == tables + [table.value] + more;
    }
  }

  /** Table `i`, the first of this name, is gone; its path was this. */
  predicate Removed(tables: seq<TableSchema>, left: seq<TableSchema>, i: nat, name: Text, path: Text) {
    && i < |tables| && tables[i].tableName == name && tables[i].filePath == path && !Named(tables[..i], name)
    && left == tables[..i] + tables[i + 1..]
  }

  class Catalog {
    var tables: seq<TableSchema>

    constructor ()
      ensures tables == []
    {
      tables := [];
    }

    /** The tables of the file follow those already there, up to the first error. */
    method Load(file: Option<Text>) returns (r: Result<(), CatalogError>)
      modifies this
      ensures file.None? ==> r == Err(FileNotOpen) && tables == old(tables)
      ensures file.Some? ==> (tables, r) == LoadFrom(old(tables), Lines(file.value))
    {
      if file.None? {
        return Err(FileNotOpen);
      }
      hide *;
      ghost var result := LoadFrom(tables, Lines(file.value));
      var line, rest := GetLine(file.value);
      while line.Some?
        invariant LoadFrom(tables, Remaining(line, rest)) == result
        decreases |rest|, line.Some?
      {
        if "TABLE" <= line.value {
          var words := Split(line.value);
          if |words| != 2 {
            BadTableLine(tables, line.value, rest);
            return Err(UnvalidTableLineFormat);
          }
          ghost var text := rest;
          var table;
          table, rest := LoadTable(words[1], rest);
          TableLoaded(tables, line.value, text, words[1], table, rest);
          if table.Err? {
            return Err(table.error);
          }
          tables := tables + [table.value];
        } else {
          OtherLine(tables, line.value, rest);
        }
        line, rest := GetLine(rest);
      }
      NothingLeft(tables, rest);
      return Ok(());
    }

    method Save() returns (content: Text)
      ensures content == SavedText(tables)
    {
      hide TableLines;
      content := [];
      assert tables[0..] == tables;
      for i := 0 to |tables|
        invariant content + Join(CatalogLines(tables[i..])) == SavedText(tables)
      {
        assert tables[i..][0] == tables[i] && tables[i..][1..] == tables[i + 1..];
        JoinBoth(TableLines(tables[i]), CatalogLines(tables[i + 1..]));
        var text := SaveTable(tables[i]);
        content := content + text;
      }
    }

    method FindTable(name: Text) returns (found: Option<nat>)
      ensures found.Some? ==>
        found.value < |tables| && tables[found.value].tableName == name && !Named(tables[..found.value], name)
      ensures found.None? <==> !Named(tables, name)
    {
      for i := 0 to |tables|
        invariant forall j :: 0 <= j < i ==> tables[j].tableName != name
      {
        if tables[i].tableName == name {
          return Some(i);
        }
      }
      return None;
    }

    /** Refused exactly when the name is taken, so names stay distinct. */
    method AddTable(schema: TableSchema) returns (r: Result<(), CatalogError>)
      modifies this
      ensures r == if Named(old(tables), schema.tableName) then Err(DuplicateTable) else Ok(())
      ensures tables == if r.Ok? then old(tables) + [schema] else old(tables)
      ensures NamesDistinct(old(tables)) ==> NamesDistinct(tables)
    {
      var found := FindTable(schema.tableName);
      if found.Some? {
        return Err(DuplicateTable);
      }
      tables := tables + [schema];
      return Ok(());
    }

    /** Removes the first table of the name, the others staying in order, and returns the path of its file. */
    method DropTable(name: Text) returns (r: Result<Text, CatalogError>)
      modifies this
      ensures r.Err? ==> r.error == TableNotFound && !Named(tables, name) && tables == old(tables)
      ensures r.Ok? ==> exists i: nat :: Removed(old(tables), tables, i, name, r.value)
      ensures NamesDistinct(old(tables)) ==> NamesDistinct(tables) && !Named(tables, name)
    {
      var found := FindTable(name);
      if found.None? {
        return Err(TableNotFound);
      }
      var i := found.value;
      r := Ok(tables[i].filePath);
      tables := tables[..i] + tables[i + 1..];
      assert Removed(old(tables), tables, i, name, r.value);
    }
  }

  method SaveTable(t: TableSchema) returns (text: Text)
    ensures text == Join(TableLines(t))
  {
    hide ColumnLine;
    var first, last := "TABLE " + t.tableName, ["FILE " + t.filePath, "END"];
    text := first + "\n";
    assert t.columns[0..] == t.columns;
    SavedFirst(first, ColumnLines(t.columns) + last);
    hide TableLines;
    for i := 0 to |t.columns|
      invariant text + Join(ColumnLines(t.columns[i..]) + last) == Join(TableLines(t))
    {
      var line := ColumnLine(t.columns[i]);
      ghost var rest := ColumnLines(t.columns[i + 1..]) + last;
      assert t.columns[i..][0] == t.columns[i] && t.columns[i..][1..] == t.columns[i + 1..];
      assert ColumnLines(t.columns[i..]) + last == [line] + rest;
      SavedFirst(line, rest);
      SavedText3(text, line, Join(rest));
      text := text + (line + "\n");
    }
    assert ColumnLines([]) + last == last;
    SavedLast("FILE " + t.filePath, "END");
    text := text + ("FILE " + t.filePath + "\n" + ("END" + "\n"));
  }

  lemma SavedFirst(line: Text, rest: seq<Text>)
    ensures Join([line] + rest) == (line + "\n") + Join(rest)
  {
    assert ([line] + rest)[1..] == rest;
    assert line + ("\n" + Join(rest)) == (line + "\n") + Join(rest);
  }

  lemma SavedText3(text: Text, line: Text, rest: Text)
    ensures text + ((line + "\n") + rest) == text + (line + "\n") + rest
  {
  }

  lemma SavedLast(file: Text, end: Text)
    ensures Join([file, end]) == file + "\n" + (end + "\n")
  {
    assert [file, end] == [file] + [end] && [end] == [end] + [];
    SavedFirst(file, [end]);
    SavedFirst(end, []);
    assert (end + "\n") + [] == end + "\n";
  }
}
