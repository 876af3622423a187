/**
 The prompt: lines are joined by blanks and cut at the first semicolon. Since no newline survives the
 joining, a comment typed there is never ended, and the lexer never returns from it.
 */
module Prompts {
  import opened Values
  import opened Lexers
  import opened LexerProofs
  import opened Wrappers

  const EXIT: Text := "exit;"

  /** `find(';')`. */
  function FirstSemicolon(s: Text): (n: Option<nat>)
    ensures n.Some? ==> n.value < |s| && s[n.value] == ';' && ';' !in s[..n.value]
    ensures n.None? <==> ';' !in s
  {
    if s == [] then None
    else if s[0] == ';' then Some(0)
    else match FirstSemicolon(s[1..])
      case None => None
      case Some(n) =>
        assert s[..n + 1] == [s[0]] + s[1..][..n];
        Some(n + 1)
  }

  function Joined(buffer: Text, line: Text): Text {
    (if buffer == [] then [] else buffer + SPACE) + line
  }

  /** The statements the prompt submits, in order, from what it holds already and the lines to come. */
  function Submitted(buffer: Text, lines: seq<Text>): seq<Text>
    decreases |lines|
  {
    if lines == [] then []
    else
      var joined := Joined(buffer, lines[0]);
      match FirstSemicolon(joined)
      case None => Submitted(joined, lines[1..])
      case Some(n) =>
        if joined[..n + 1] == EXIT then [] else [joined[..n + 1]] + Submitted([], lines[1..])
  }

  /** What one line does. */
  lemma OneLine(buffer: Text, lines: seq<Text>, i: nat)
    requires i < |lines|
    ensures var joined := Joined(buffer, lines[i]);
      Submitted(buffer, lines[i..]) ==
        match FirstSemicolon(joined)
        case None => Submitted(joined, lines[i + 1..])
        case Some(n) =>
          if joined[..n + 1] == EXIT then [] else [joined[..n + 1]] + Submitted([], lines[i + 1..])
  {
    hide FirstSemicolon, Joined;
    assert lines[i..][0] == lines[i] && lines[i..][1..] == lines[i + 1..];
  }

  /** What one line adds to the statements there were. */
  lemma NextLine(queries: seq<Text>, buffer: Text, lines: seq<Text>, i: nat)
    requires i < |lines|
    ensures var joined := Joined(buffer, lines[i]);
      queries + Submitted(buffer, lines[i..]) ==
        match FirstSemicolon(joined)
        case None => queries + Submitted(joined, lines[i + 1..])
        case Some(n) =>
          if joined[..n + 1] == EXIT then queries else queries + [joined[..n + 1]] + Submitted([], lines[i + 1..])
  {
    OneLine(buffer, lines, i);
    hide FirstSemicolon, Joined, Submitted;
  }

  /** The loop of `main`, without what it does with each statement. */
  method ReadStatements(lines: seq<Text>) returns (queries: seq<Text>)
    ensures queries == Submitted([], lines)
  {
    var buffer: Text := [];
    queries := [];
    var i := 0;
    assert lines[0..] == lines && Submitted([], []) == [];
    hide FirstSemicolon, Submitted;
    while i < |lines|
      invariant 0 <= i <= |lines|
      invariant Submitted([], lines) == queries + Submitted(buffer, lines[i..])
    {
      NextLine(queries, buffer, lines, i);
      ghost var joined := Joined(buffer, lines[i]);
      if |buffer| > 0 {
        buffer := buffer + SPACE;
      }
      buffer := buffer + lines[i];
      assert buffer == joined;
      i := i + 1;
      var semicolon := FirstSemicolon(buffer);
      if semicolon.Some? {
        var query := buffer[..semicolon.value + 1];
        buffer := [];
        if query == EXIT {
          return;
        }
        queries := queries + [query];
      }
    }
  }

  /** A statement ends at its only semicolon. */
  ghost predicate IsStatement(q: Text) {
    q != [] && q[|q| - 1] == ';' && ';' !in q[..|q| - 1]
  }

  lemma {:induction false} SubmittedAreStatements(buffer: Text, lines: seq<Text>)
    requires '\n' !in buffer && forall i :: 0 <= i < |lines| ==> '\n' !in lines[i]
    ensures forall q :: q in Submitted(buffer, lines) ==> IsStatement(q) && '\n' !in q
    decreases |lines|
  {
    hide IsStatement, FirstSemicolon, Joined;
    if lines != [] {
      var joined := Joined(buffer, lines[0]);
      JoinedHasNoNewline(buffer, lines[0]);
      var n := FirstSemicolon(joined);
      if n.None? {
        SubmittedAreStatements(joined, lines[1..]);
      } else {
        SubmittedAreStatements([], lines[1..]);
        CutIsStatement(joined, n.value);
      }
    }
  }

  lemma JoinedHasNoNewline(buffer: Text, line: Text)
    requires '\n' !in buffer && '\n' !in line
    ensures '\n' !in Joined(buffer, line)
  {
  }

  lemma CutIsStatement(s: Text, n: nat)
    requires FirstSemicolon(s) == Some(n) && '\n' !in s
    ensures IsStatement(s[..n + 1]) && '\n' !in s[..n + 1]
  {
    assert s[..n + 1][..n] == s[..n];
  }

  /** What stands after a semicolon on the same line is dropped, a second statement too. */
  lemma RestOfLineIsDropped(statement: Text, rest: Text, lines: seq<Text>)
    requires IsStatement(statement) && statement != EXIT
    ensures Submitted([], [statement + rest] + lines) == [statement] + Submitted([], lines)
  {
    var line, n := statement + rest, |statement| - 1;
    assert line[..n] == statement[..n] && line[..n + 1] == statement && line[n] == ';';
    FirstSemicolonAt(line, n);
    hide Submitted, FirstSemicolon;
    var all := [line] + lines;
    assert all[0..] == all && all[1..] == lines && Joined([], line) == line;
    OneLine([], all, 0);
  }

  /** Lines with a blank between each two. */
  function Glued(lines: seq<Text>): Text
    requires lines != []
  {
    if |lines| == 1 then lines[0] else Glued(lines[..|lines| - 1]) + SPACE + lines[|lines| - 1]
  }

  lemma {:induction false} GluedHasNoSemicolon(lines: seq<Text>)
    requires lines != [] && lines[0] != [] && forall i :: 0 <= i < |lines| ==> ';' !in lines[i]
    ensures Glued(lines) != [] && ';' !in Glued(lines)
  {
    if |lines| > 1 {
      GluedHasNoSemicolon(lines[..|lines| - 1]);
    }
  }

  /** Lines without a semicolon are held back, joined by blanks. */
  lemma {:induction false} LinesAreHeld(lines: seq<Text>, m: nat)
    requires 0 < m <= |lines| && lines[0] != [] && forall i :: 0 <= i < m ==> ';' !in lines[i]
    ensures Submitted([], lines) == Submitted(Glued(lines[..m]), lines[m..])
  {
    hide Submitted, FirstSemicolon;
    if m == 1 {
      OneLine([], lines, 0);
      assert lines[0..] == lines && lines[..1] == [lines[0]] && Joined([], lines[0]) == lines[0];
    } else {
      LinesAreHeld(lines, m - 1);
      var held := lines[..m - 1];
      GluedHasNoSemicolon(held);
      OneLine(Glued(held), lines, m - 1);
      assert lines[..m][..m - 1] == held && Joined(Glued(held), lines[m - 1]) == Glued(lines[..m]);
      GluedHasNoSemicolon(lines[..m]);
    }
  }

  /** A statement over several lines is these lines, joined by blanks and cut after its first semicolon. */
  lemma LinesAreJoined(lines: seq<Text>, m: nat, k: nat)
    requires 0 < m < |lines| && lines[0] != [] && forall i :: 0 <= i < m ==> ';' !in lines[i]
    requires k < |lines[m]| && lines[m][k] == ';' && ';' !in lines[m][..k]
    ensures var statement := Glued(lines[..m]) + SPACE + lines[m][..k + 1];
      Submitted([], lines) == if statement == EXIT then [] else [statement] + Submitted([], lines[m + 1..])
  {
    LinesAreHeld(lines, m);
    GluedHasNoSemicolon(lines[..m]);
    hide *;
    LineEndsStatement(Glued(lines[..m]), lines, m, k);
  }

  lemma LineEndsStatement(held: Text, lines: seq<Text>, m: nat, k: nat)
    requires held != [] && ';' !in held && m < |lines|
    requires k < |lines[m]| && lines[m][k] == ';' && ';' !in lines[m][..k]
    ensures var statement := held + SPACE + lines[m][..k + 1];
      Submitted(held, lines[m..]) == if statement == EXIT then [] else [statement] + Submitted([], lines[m + 1..])
  {
    hide *;
    CutOfJoined(held, lines[m], k);
    OneLine(held, lines, m);
  }

  /** The cut of two joined texts, the first of which has no semicolon. */
  lemma CutOfJoined(held: Text, line: Text, k: nat)
    requires held != [] && ';' !in held && k < |line| && line[k] == ';' && ';' !in line[..k]
    ensures var joined := Joined(held, line);
      FirstSemicolon(joined) == Some(|held| + 1 + k) && joined[..|held| + 1 + k + 1] == held + SPACE + line[..k + 1]
  {
    var joined, n := held + SPACE + line, |held| + 1 + k;
    assert joined[..n] == held + SPACE + line[..k];
    FirstSemicolonAt(joined, n);
    hide FirstSemicolon;
  }

  lemma FirstSemicolonAt(s: Text, n: nat)
    requires n < |s| && s[n] == ';' && ';' !in s[..n]
    ensures FirstSemicolon(s) == Some(n)
  {
    var found := FirstSemicolon(s);
    hide FirstSemicolon;
  }

  /** Empty lines before a statement leave no trace. */
  lemma EmptyLineIsNothing(lines: seq<Text>)
    ensures Submitted([], [[]] + lines) == Submitted([], lines)
  {
    assert ([[]] + lines)[1..] == lines && Joined([], []) == [];
  }

  // Where a comment begins.

  /** Outside and inside quotes, and after a NUL outside, where the text ends for the lexer. */
  datatype Place = Outside | Inside | Ended

  function Passed(place: Place, c: char8): Place {
    match place
    case Outside => if c == '\'' then Inside else if c == NUL then Ended else Outside
    case Inside => if c == '\'' || c == NUL then Outside else Inside
    case Ended => Ended
  }

  function PlaceAfter(place: Place, s: Text): Place
    decreases |s|
  {
    if s == [] then place else PlaceAfter(Passed(place, s[0]), s[1..])
  }

  /** Two dashes outside quotes, when the text starts at `place`. */
  predicate CommentAt(s: Text, i: nat, place: Place) {
    i + 1 < |s| && s[i] == '-' && s[i + 1] == '-' && PlaceAfter(place, s[..i]) == Outside
  }

  ghost predicate HasComment(s: Text, place: Place) {
    exists i: nat :: CommentAt(s, i, place)
  }

  lemma {:induction false} StaysEnded(s: Text)
    ensures PlaceAfter(Ended, s) == Ended
  {
    if s != [] {
      StaysEnded(s[1..]);
    }
  }

  lemma CommentAtNext(s: Text, i: nat, place: Place)
    requires s != []
    ensures CommentAt(s, i + 1, place) <==> CommentAt(s[1..], i, Passed(place, s[0]))
  {
    if i + 1 < |s| {
      assert s[..i + 1][0] == s[0] && s[..i + 1][1..] == s[1..][..i];
    }
  }

  lemma HasCommentNext(s: Text, place: Place)
    requires s != []
    ensures HasComment(s, place) <==> CommentAt(s, 0, place) || HasComment(s[1..], Passed(place, s[0]))
  {
    hide CommentAt;
    if HasComment(s, place) {
      var i: nat :| CommentAt(s, i, place);
      if i > 0 {
        CommentAtNext(s, i - 1, place);
      }
    }
    if HasComment(s[1..], Passed(place, s[0])) {
      var i: nat :| CommentAt(s[1..], i, Passed(place, s[0]));
      CommentAtNext(s, i, place);
    }
  }

  lemma {:induction false} StaysInComment(s: Text)
    requires '\n' !in s
    ensures EndsInComment(s, Comment)
  {
    if s != [] {
      StaysInComment(s[1..]);
    }
  }

  lemma {:induction false} EndsInCommentIff(s: Text, place: Place)
    requires '\n' !in s && place != Ended
    ensures EndsInComment(s, if place == Outside then Plain else Quoted) <==> HasComment(s, place)
  {
    if s != [] {
      HasCommentNext(s, place);
      assert CommentAt(s, 0, place) <==> |s| > 1 && s[0] == '-' && s[1] == '-' && place == Outside by {
        assert s[..0] == [];
      }
      hide HasComment, CommentAt;
      if Passed(place, s[0]) == Ended {
        NoCommentAfterEnd(s[1..]);
      } else {
        StaysInComment(s[1..]);
        EndsInCommentIff(s[1..], Passed(place, s[0]));
      }
    }
  }

  lemma NoCommentAfterEnd(s: Text)
    ensures !HasComment(s, Ended)
  {
    forall i: nat | i <= |s|
      ensures PlaceAfter(Ended, s[..i]) == Ended
    {
      StaysEnded(s[..i]);
    }
  }

  /** Without a newline, the lexer never returns if and only if two dashes stand together outside quotes. */
  lemma NeverReturnsIff(s: Text, isFloat: Text -> bool)
    requires '\n' !in s
    ensures Lex(s, isFloat).None? <==> HasComment(s, Outside)
  {
    hide Lex, HasComment;
    ReturnsIff(s, isFloat);
    EndsInCommentIff(s, Outside);
  }

  /** So it is for everything the prompt submits: any comment typed before the first semicolon hangs the program. */
  lemma TypedCommentHangs(lines: seq<Text>, isFloat: Text -> bool)
    requires forall i :: 0 <= i < |lines| ==> '\n' !in lines[i]
    ensures forall q :: q in Submitted([], lines) ==> (Lex(q, isFloat).None? <==> HasComment(q, Outside))
  {
    SubmittedAreStatements([], lines);
    forall q | q in Submitted([], lines)
      ensures Lex(q, isFloat).None? <==> HasComment(q, Outside)
    {
      NeverReturnsIff(q, isFloat);
    }
  }
}
