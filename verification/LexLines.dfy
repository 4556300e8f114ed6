/** Line numbers, character boundaries and errors of the scanner on valid UTF-8 sources
    (RFC 3629, section 4). */
module LexLines {
  import opened Common
  import opened LexRules

  // ---- Valid UTF-8 -------------------------------------------------------------------------

  predicate Tail(b: byte) {
    0x80 <= b <= 0xBF
  }

  // The length of the well-formed character at the front, or 0.
  function CharLen(s: Bytes): (n: nat)
    ensures n <= |s|
    ensures n > 0 ==> forall k :: 1 <= k < n ==> Tail(s[k])
    ensures n > 0 ==> !Tail(s[0]) && n == Utf8CharLen(s[0])
  {
    if |s| >= 1 && s[0] <= 0x7F then 1
    else if |s| >= 2 && 0xC2 <= s[0] <= 0xDF && Tail(s[1]) then 2
    else if |s| >= 3 && Tail(s[2]) &&
            ((s[0] == 0xE0 && 0xA0 <= s[1] <= 0xBF) || (0xE1 <= s[0] <= 0xEC && Tail(s[1])) ||
             (s[0] == 0xED && 0x80 <= s[1] <= 0x9F) || (0xEE <= s[0] <= 0xEF && Tail(s[1]))) then 3
    else if |s| >= 4 && Tail(s[2]) && Tail(s[3]) &&
            ((s[0] == 0xF0 && 0x90 <= s[1] <= 0xBF) || (0xF1 <= s[0] <= 0xF3 && Tail(s[1])) ||
             (s[0] == 0xF4 && 0x80 <= s[1] <= 0x8F)) then 4
    else 0
  }

  predicate ValidUtf8(s: Bytes)
    decreases |s|
  {
    s == [] || (CharLen(s) > 0 && ValidUtf8(s[CharLen(s)..]))
  }

  // An ASCII byte is a character of its own, so what follows it is valid again.
  lemma {:induction false} ValidAfterAscii(s: Bytes, i: nat)
    requires ValidUtf8(s) && i < |s| && s[i] < 0x80
    ensures ValidUtf8(s[i + 1..])
    decreases |s|
  {
    hide CharLen, Utf8CharLen, ValidUtf8;
    FirstChar(s);
    var n := CharLen(s);
    if i < n {
      assert i == 0;
      FirstIsAscii(s);
    } else {
      ValidAfterAscii(s[n..], i - n);
      assert s[n..][i - n + 1..] == s[i + 1..];
    }
  }

  lemma FirstChar(s: Bytes)
    requires ValidUtf8(s) && s != []
    ensures CharLen(s) > 0 && ValidUtf8(s[CharLen(s)..])
  {
    hide CharLen;
  }

  lemma FirstIsAscii(s: Bytes)
    requires s != [] && s[0] < 0x80
    ensures CharLen(s) == 1
  {
  }

  // `str::is_char_boundary`.
  predicate CharBoundary(s: Bytes, i: nat) {
    i == 0 || i == |s| || (i < |s| && !Tail(s[i]))
  }

  // Positions next to an ASCII byte, or at either end.
  predicate Clean(s: Bytes, i: nat) {
    i == 0 || i >= |s| || s[i] < 0x80 || s[i - 1] < 0x80
  }

  lemma CleanIsBoundary(s: Bytes, i: nat)
    requires ValidUtf8(s) && i <= |s| && Clean(s, i)
    ensures CharBoundary(s, i)
  {
    if 0 < i < |s| && s[i - 1] < 0x80 {
      ValidAfterAscii(s, i - 1);
      assert s[i..][0] == s[i];
    }
  }

  // Every piece starts and ends next to an ASCII byte.
  lemma PieceEndsClean(s: Bytes, i: nat)
    requires i < |s| && Clean(s, i) && !PieceAt(s, i).Broken?
    ensures Clean(s, PieceAt(s, i).end) && (PieceAt(s, i).Word? ==> Clean(s, PieceAt(s, i).from))
  {
    hide HashRun, Utf8CharLen, CommentEnd, QuotedEnd, RawEnd, EscapedCharEnd, IdentEnd, LineEnd, CharLiteralEnd;
  }

  lemma {:induction false} LexemesClean(s: Bytes, i: nat, line: nat)
    requires i <= |s| && Clean(s, i) && Lexemes(s, i, line).Ok?
    ensures forall x :: x in Lexemes(s, i, line).value ==> i <= x.from < x.end <= |s| && Clean(s, x.from) && Clean(s, x.end)
    decreases |s| - i
  {
    if i < |s| {
      PieceEndsClean(s, i);
      LexemesClean(s, PieceAt(s, i).end, LineAfter(s, i, line));
    }
  }

  // Every identifier the scanner slices out begins and ends on a character boundary.
  lemma SlicesOnBoundaries(s: Bytes, x: Lexeme)
    requires ValidUtf8(s) && Lexemes(s, 0, 1).Ok? && x in Lexemes(s, 0, 1).value
    ensures x.from < x.end <= |s| && CharBoundary(s, x.from) && CharBoundary(s, x.end)
  {
    LexemesClean(s, 0, 1);
    CleanIsBoundary(s, x.from);
    CleanIsBoundary(s, x.end);
  }

  // ---- Line accounting -----------------------------------------------------------------------

  // A character literal holding a raw newline: the one place the line counter misses one.
  predicate NewlineLiteral(s: Bytes, i: nat)
    requires i < |s|
  {
    PieceAt(s, i).Literal? && Triple(s, PieceAt(s, i).end - 3)
  }

  predicate Triple(s: Bytes, q: int) {
    0 <= q && q + 2 < |s| && s[q] == APOSTROPHE && s[q + 1] == NEWLINE && s[q + 2] == APOSTROPHE
  }

  // Newline literals among the pieces read between `i` and `p`.
  function Missed(s: Bytes, i: nat, p: nat): nat
    requires i <= |s|
    decreases |s| - i
  {
    if i == |s| || i >= p || PieceAt(s, i).Broken? then 0
    else (if NewlineLiteral(s, i) then 1 else 0) + Missed(s, PieceAt(s, i).end, p)
  }

  // After a quote in valid UTF-8 comes one whole character, or something that is no literal.
  lemma QuotedChar(s: Bytes, q: nat)
    requires ValidUtf8(s) && q + 1 < |s| && s[q] == APOSTROPHE
    ensures forall k :: q + 2 <= k <= q + Utf8CharLen(s[q + 1]) && k < |s| ==> Tail(s[k])
  {
    ValidAfterAscii(s, q);
    var rest := s[q + 1..];
    assert rest[0] == s[q + 1] && CharLen(rest) > 0;
    assert forall k :: 1 <= k < CharLen(rest) ==> s[q + 1 + k] == rest[k];
  }

  lemma QuoteThenChar(s: Bytes, q: nat, e: nat)
    requires ValidUtf8(s) && q + 1 < |s| && s[q] == APOSTROPHE && s[q + 1] != BACKSLASH
    requires CharLiteralEnd(s, q) == Some(e)
    ensures Newlines(s[q..e]) == if s[q + 1] == NEWLINE then 1 else 0
    ensures s[q + 1] == NEWLINE ==> e == q + 3
    ensures s[q + 1] != NEWLINE ==> !Triple(s, e - 3)
  {
    if s[q + 1] == NEWLINE {
      hide ValidUtf8, Newlines;
      assert s[q..e] == [APOSTROPHE, NEWLINE, APOSTROPHE];
      OneNewline();
    } else {
      QuietChar(s, q, e);
    }
  }

  lemma QuietChar(s: Bytes, q: nat, e: nat)
    requires ValidUtf8(s) && q + 1 < |s| && s[q] == APOSTROPHE && s[q + 1] != BACKSLASH && s[q + 1] != NEWLINE
    requires CharLiteralEnd(s, q) == Some(e)
    ensures Newlines(s[q..e]) == 0 && forall k :: q <= k < e ==> s[k] != NEWLINE
  {
    hide ValidUtf8, Newlines, CharLiteralEnd, Utf8CharLen;
    QuotedChar(s, q);
    PlainEnd(s, q, e);
    forall k | q <= k < e ensures s[k] != NEWLINE {
      assert q + 2 <= k <= q + Utf8CharLen(s[q + 1]) ==> Tail(s[k]);
    }
    assert forall k :: 0 <= k < e - q ==> s[q..e][k] == s[q + k];
    NoNewlines(s[q..e]);
  }

  lemma PlainEnd(s: Bytes, q: nat, e: nat)
    requires q + 1 < |s| && s[q + 1] != BACKSLASH && CharLiteralEnd(s, q) == Some(e)
    ensures e == q + 2 + Utf8CharLen(s[q + 1]) <= |s| && s[e - 1] == APOSTROPHE
  {
    hide Utf8CharLen;
  }

  lemma OneNewline()
    ensures Newlines([APOSTROPHE, NEWLINE, APOSTROPHE]) == 1
  {
    var s: Bytes := [APOSTROPHE, NEWLINE, APOSTROPHE];
    assert s[1..] == [NEWLINE, APOSTROPHE] && s[1..][1..] == [APOSTROPHE];
    NoNewlines(s[1..][1..]);
  }

  lemma EscapedChar(s: Bytes, q: nat, e: nat)
    requires q + 1 < |s| && s[q] == APOSTROPHE && s[q + 1] == BACKSLASH
    requires CharLiteralEnd(s, q) == Some(e)
    ensures Newlines(s[q..e]) == 0 && !Triple(s, e - 3)
  {
    NoNewlines(s[q..e]);
  }

  lemma CharLiteralCount(s: Bytes, q: nat, e: nat)
    requires ValidUtf8(s) && q < |s| && s[q] == APOSTROPHE && CharLiteralEnd(s, q) == Some(e)
    ensures Newlines(s[q..e]) == if Triple(s, e - 3) then 1 else 0
  {
    if s[q + 1] == BACKSLASH {
      EscapedChar(s, q, e);
    } else {
      QuoteThenChar(s, q, e);
    }
  }

  lemma LiteralSource(s: Bytes, i: nat) returns (q: nat, e: nat)
    requires i < |s| && PieceAt(s, i).Literal?
    ensures PieceAt(s, i) == Literal(e) && i <= q < e <= |s| && s[q] == APOSTROPHE && CharLiteralEnd(s, q) == Some(e)
    ensures q == i || (q == i + 1 && s[i] == LOWER_B)
  {
    q := if s[i] == APOSTROPHE then i else i + 1;
    e := PieceAt(s, i).end;
  }

  lemma NewlineLiteralIs(s: Bytes, i: nat, e: nat)
    requires i < |s| && PieceAt(s, i) == Literal(e)
    ensures NewlineLiteral(s, i) <==> Triple(s, e - 3)
  {
  }

  lemma LiteralCount(s: Bytes, i: nat)
    requires ValidUtf8(s) && i < |s| && PieceAt(s, i).Literal?
    ensures Newlines(s[i..PieceAt(s, i).end]) == if NewlineLiteral(s, i) then 1 else 0
  {
    hide PieceAt, CharLiteralEnd, ValidUtf8, Newlines, NewlineLiteral, Triple;
    var q, e := LiteralSource(s, i);
    NewlineLiteralIs(s, i, e);
    CharLiteralCount(s, q, e);
    NewlinesSplit(s, i, q, e);
    PrefixQuiet(s, i, q);
  }

  lemma PrefixQuiet(s: Bytes, i: nat, q: nat)
    requires i <= q <= |s| && (q == i || (q == i + 1 && s[i] == LOWER_B))
    ensures Newlines(s[i..q]) == 0
  {
    hide Newlines;
    assert forall k :: 0 <= k < q - i ==> s[i..q][k] == LOWER_B;
    NoNewlines(s[i..q]);
  }

  // One step keeps the books balanced.
  lemma LineStep(s: Bytes, i: nat, line: nat, missed: nat)
    requires ValidUtf8(s) && i < |s| && !PieceAt(s, i).Broken?
    requires line + missed == 1 + Newlines(s[..i])
    ensures LineAfter(s, i, line) + missed + (if NewlineLiteral(s, i) then 1 else 0) == 1 + Newlines(s[..PieceAt(s, i).end])
  {
    var e := PieceAt(s, i).end;
    assert s[..i] == s[0..i] && s[..e] == s[0..e];
    NewlinesSplit(s, 0, i, e);
    if PieceAt(s, i).Literal? {
      LiteralCount(s, i);
    }
  }

  lemma WordIsQuiet(s: Bytes, i: nat)
    requires i < |s| && PieceAt(s, i).Word?
    ensures Newlines(s[..PieceAt(s, i).from]) == Newlines(s[..i])
  {
    var from := PieceAt(s, i).from;
    assert s[..i] == s[0..i] && s[..from] == s[0..from];
    NewlinesSplit(s, 0, i, from);
    NoNewlines(s[i..from]);
  }

  lemma {:induction false} LineAccountFrom(s: Bytes, i: nat, line: nat, missed: nat, x: Lexeme)
    requires ValidUtf8(s) && i <= |s| && Lexemes(s, i, line).Ok? && x in Lexemes(s, i, line).value
    requires line + missed == 1 + Newlines(s[..i])
    ensures i <= x.from <= |s| && x.line + missed + Missed(s, i, x.from) == 1 + Newlines(s[..x.from])
    decreases |s| - i
  {
    if i < |s| {
      var p := PieceAt(s, i);
      LineStep(s, i, line, missed);
      if p.Word? && x == Lexeme(p.from, p.end, line) {
        WordIsQuiet(s, i);
        if p.from > i {
          MissedNone(s, i, p.from);
        }
      } else {
        assert x in Lexemes(s, p.end, LineAfter(s, i, line)).value;
        LineAccountFrom(s, p.end, LineAfter(s, i, line), missed + (if NewlineLiteral(s, i) then 1 else 0), x);
      }
    }
  }

  // Inside a word nothing is missed.
  lemma MissedNone(s: Bytes, i: nat, p: nat)
    requires i < |s| && PieceAt(s, i).Word? && i <= p <= PieceAt(s, i).end
    ensures Missed(s, i, p) == 0
  {
  }

  // The reported line falls short of the true one by exactly the newline literals before it.
  lemma LineAccount(s: Bytes, x: Lexeme)
    requires ValidUtf8(s) && Lexemes(s, 0, 1).Ok? && x in Lexemes(s, 0, 1).value
    ensures x.from <= |s| && x.line + Missed(s, 0, x.from) == 1 + Newlines(s[..x.from])
    ensures x.line == 1 + Newlines(s[..x.from]) <==> Missed(s, 0, x.from) == 0
  {
    LineAccountFrom(s, 0, 1, 0, x);
  }

  // Where the scan stops: at the end, or where something opens that is never closed.
  function Stop(s: Bytes, i: nat): (p: nat)
    requires i <= |s|
    ensures i <= p <= |s|
    decreases |s| - i
  {
    if i == |s| || PieceAt(s, i).Broken? then i else Stop(s, PieceAt(s, i).end)
  }

  lemma {:induction false} ErrorAccountFrom(s: Bytes, i: nat, line: nat, missed: nat)
    requires ValidUtf8(s) && i <= |s| && Lexemes(s, i, line).Err? && line + missed == 1 + Newlines(s[..i])
    ensures var f, p := Lexemes(s, i, line).error, Stop(s, i);
      && p < |s| && PieceAt(s, p) == Broken(f.error)
      && f.line + missed + Missed(s, i, p) ==
         1 + if f.error == UnterminatedBlockComment then Newlines(s[..p]) else Newlines(s)
    decreases |s| - i
  {
    hide PieceAt, Newlines, ValidUtf8, NewlineLiteral;
    if PieceAt(s, i).Broken? {
      assert s[..i] == s[0..i] && s[i..] == s[i..|s|] && s == s[0..|s|];
      NewlinesSplit(s, 0, i, |s|);
    } else {
      LineStep(s, i, line, missed);
      ErrorAccountFrom(s, PieceAt(s, i).end, LineAfter(s, i, line), missed + (if NewlineLiteral(s, i) then 1 else 0));
    }
  }

  // An error carries the line on which its comment opens, or the last line for a string that runs
  // to the end; both fall short by the newline literals before the opener.
  lemma ErrorLineAccount(s: Bytes)
    requires ValidUtf8(s) && Lexemes(s, 0, 1).Err?
    ensures var f, p := Lexemes(s, 0, 1).error, Stop(s, 0);
      && p < |s| && PieceAt(s, p) == Broken(f.error)
      && f.line + Missed(s, 0, p) == 1 + if f.error == UnterminatedBlockComment then Newlines(s[..p]) else Newlines(s)
  {
    hide Lexemes, Stop, Missed, ValidUtf8;
    ErrorAccountFrom(s, 0, 1, 0);
  }

  lemma {:induction false} NoTripleNoneMissed(s: Bytes, i: nat, p: nat)
    requires i <= |s| && forall q :: 0 <= q < |s| ==> !Triple(s, q)
    ensures Missed(s, i, p) == 0
    decreases |s| - i
  {
    if i < |s| && i < p && !PieceAt(s, i).Broken? {
      NoTripleNoneMissed(s, PieceAt(s, i).end, p);
    }
  }

  // Without an apostrophe, a newline and an apostrophe in a row, every line is right.
  lemma LinesAreExact(s: Bytes, x: Lexeme)
    requires ValidUtf8(s) && forall q :: 0 <= q < |s| ==> !Triple(s, q)
    requires Lexemes(s, 0, 1).Ok? && x in Lexemes(s, 0, 1).value
    ensures x.from <= |s| && x.line == 1 + Newlines(s[..x.from])
  {
    NoTripleNoneMissed(s, 0, x.from);
    LineAccount(s, x);
  }

  // The smallest source whose only identifier is reported one line too early.
  lemma NewlineLiteralMisleads()
    ensures var s: Bytes := [APOSTROPHE, NEWLINE, APOSTROPHE, 120];
            ValidUtf8(s) && Lexemes(s, 0, 1) == Ok([Lexeme(3, 4, 1)]) && 1 + Newlines(s[..3]) == 2
  {
    hide ValidUtf8, Newlines, PieceAt, Lexemes;
    var s: Bytes := [APOSTROPHE, NEWLINE, APOSTROPHE, 120];
    FourAscii(s);
    FourBytes(s);
    assert s[..3] == [APOSTROPHE, NEWLINE, APOSTROPHE];
    OneNewline();
  }

  lemma FourAscii(s: Bytes)
    requires |s| == 4 && s[0] < 0x80 && s[1] < 0x80 && s[2] < 0x80 && s[3] < 0x80
    ensures ValidUtf8(s)
  {
    hide CharLen;
    var a, b, c := s[1..], s[1..][1..], s[1..][1..][1..];
    FirstIsAscii(s);
    FirstIsAscii(a);
    FirstIsAscii(b);
    FirstIsAscii(c);
    assert c[1..] == [];
    assert ValidUtf8(c);
    assert ValidUtf8(b);
    assert ValidUtf8(a);
  }

  // The scanner takes the first three bytes for a literal and counts no line.
  lemma FourBytes(s: Bytes)
    requires s == [APOSTROPHE, NEWLINE, APOSTROPHE, 120]
    ensures Lexemes(s, 0, 1) == Ok([Lexeme(3, 4, 1)])
  {
    hide ValidUtf8, Newlines;
    assert PieceAt(s, 0) == Literal(3);
    assert IdentEnd(s, 4) == 4;
    assert PieceAt(s, 3) == Word(3, 4);
    hide PieceAt;
    NoNewlines(s[3..4]);
    assert LineAfter(s, 0, 1) == 1 && LineAfter(s, 3, 1) == 1;
    assert Lexemes(s, 4, 1) == Ok([]);
    assert Lexemes(s, 3, 1) == Cons(Lexeme(3, 4, 1), Lexemes(s, 4, 1));
    var one := [Lexeme(3, 4, 1)];
    assert one + [] == one;
    assert Lexemes(s, 0, 1) == Lexemes(s, 3, 1);
  }
}
