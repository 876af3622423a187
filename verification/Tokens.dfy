/**
 Tokens as the parser sees them. The text of a keyword or sign only ever reaches error messages,
 so it is dropped; identifiers and literals keep theirs.
 */
module Tokens {
  import opened Values

  datatype Kind =
    | Select | From | Where | Insert | Into | ValuesWord | Update | Set | Delete | Create | Drop
    | Primary | Key | Table | Index | On | Begin | Commit | Rollback
    | And | Or | Not | Is | NullWord | True | False
    | IntegerWord | FloatWord | TextWord | BooleanWord
    | Equal | NotEqual | LessThan | LessEq | GreaterThan | GreaterEq
    | Plus | Minus | Asterisk | Slash | Comma | Semicolon | LeftParen | RightParen | Dot
    | EndOfFile | Unknown | Error

  const INT_MAX := 0x7FFF_FFFF

  predicate IsDigit(c: char) { '0' <= c <= '9' }

  predicate AllDigits(s: Text) { forall i :: 0 <= i < |s| ==> IsDigit(s[i]) }

  function DigitValue(c: char): nat
    requires IsDigit(c)
  {
    c as int - '0' as int
  }

  function DecimalValue(s: Text): nat
    requires AllDigits(s)
  {
    if s == [] then 0 else 10 * DecimalValue(s[..|s| - 1]) + DigitValue(s[|s| - 1])
  }

  /** What `isInt` accepts of a word that starts with a digit: digits whose value fits an `int`. */
  predicate IsInt(s: Text) { s != [] && AllDigits(s) && DecimalValue(s) <= INT_MAX }

  type IntDigits = s: Text | IsInt(s) witness "0"

  datatype Token =
    | Sign(kind: Kind)
    | Identifier(name: Text)
    | IntegerLiteral(digits: IntDigits)
    | FloatLiteral(text: Text)
    | StringLiteral(text: Text)

  /** The parser relies on the lexer for one thing: the last token is the end of the file. */
  type TokenList = ts: seq<Token> | ts != [] && ts[|ts| - 1] == Sign(EndOfFile) witness [Sign(EndOfFile)]

  function DigitChar(d: nat): (c: char8)
    requires d < 10
    ensures IsDigit(c) && DigitValue(c) == d
  {
    (d + '0' as int) as char
  }

  function DecimalText(n: nat): (s: Text)
    ensures s != [] && AllDigits(s) && DecimalValue(s) == n
  {
    if n < 10 then
      assert [DigitChar(n)][..0] == [];
      [DigitChar(n)]
    else
      var s := DecimalText(n / 10) + [DigitChar(n % 10)];
      assert s[..|s| - 1] == DecimalText(n / 10);
      s
  }
}
