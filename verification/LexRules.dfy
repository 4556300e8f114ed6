/** What the runtime guard's scanner does at one position of a source file: which piece of
    source starts there and where it ends. */
module LexRules {
  import opened Common

  newtype byte = b: int | 0 <= b < 256

  const NEWLINE: byte := 10
  const QUOTE: byte := 34
  const HASH: byte := 35
  const APOSTROPHE: byte := 39
  const STAR: byte := 42
  const SLASH: byte := 47
  const BACKSLASH: byte := 92
  const UNDERSCORE: byte := 95
  const LOWER_B: byte := 98
  const LOWER_C: byte := 99
  const LOWER_R: byte := 114

  type Bytes = seq<byte>

  predicate IsWhitespace(b: byte) {
    b == 32 || b == 9 || b == NEWLINE || b == 12 || b == 13
  }

  predicate IsDigit(b: byte) {
    48 <= b <= 57
  }

  predicate IsIdentStart(b: byte) {
    b == UNDERSCORE || 65 <= b <= 90 || 97 <= b <= 122 || b >= 0x80
  }

  predicate IsIdentContinue(b: byte) {
    IsIdentStart(b) || IsDigit(b)
  }

  predicate Pair(s: Bytes, i: nat, a: byte, b: byte) {
    i + 1 < |s| && s[i] == a && s[i + 1] == b
  }

  function Newlines(s: Bytes): nat {
    if s == [] then 0 else (if s[0] == NEWLINE then 1 else 0) + Newlines(s[1..])
  }

  // ---- Where a piece ends --------------------------------------------------------------

  function IdentEnd(s: Bytes, i: nat): (e: nat)
    requires i <= |s|
    ensures i <= e <= |s|
    ensures forall k :: i <= k < e ==> IsIdentContinue(s[k])
    ensures e < |s| ==> !IsIdentContinue(s[e])
    decreases |s| - i
  {
    if i < |s| && IsIdentContinue(s[i]) then IdentEnd(s, i + 1) else i
  }

  function LineEnd(s: Bytes, i: nat): (e: nat)
    requires i <= |s|
    ensures i <= e <= |s|
    ensures forall k :: i <= k < e ==> s[k] != NEWLINE
    ensures e < |s| ==> s[e] == NEWLINE
    decreases |s| - i
  {
    if i < |s| && s[i] != NEWLINE then LineEnd(s, i + 1) else i
  }

  // Past the closing quote; `i` is just after the opening one.
  function QuotedEnd(s: Bytes, i: nat): (e: Option<nat>)
    requires i <= |s|
    ensures e.Some? ==> i < e.value <= |s| && s[e.value - 1] == QUOTE
    decreases |s| - i
  {
    if i == |s| then None
    else if s[i] == BACKSLASH then (if i + 1 < |s| then QuotedEnd(s, i + 2) else None)
    else if s[i] == QUOTE then Some(i + 1)
    else QuotedEnd(s, i + 1)
  }

  predicate AllHashes(s: Bytes) {
    forall k :: 0 <= k < |s| ==> s[k] == HASH
  }

  // A quote followed by the right number of hashes.
  predicate Terminator(s: Bytes, i: nat, hashes: nat) {
    i + 1 + hashes <= |s| && s[i] == QUOTE && AllHashes(s[i + 1..i + 1 + hashes])
  }

  function RawEnd(s: Bytes, i: nat, hashes: nat): (e: Option<nat>)
    requires i <= |s|
    ensures e.Some? ==> i < e.value <= |s| && s[e.value - 1] < 0x80
    decreases |s| - i
  {
    if i == |s| then None
    else if Terminator(s, i, hashes) then
      assert hashes > 0 ==> s[i + 1..i + 1 + hashes][hashes - 1] == HASH == s[i + hashes];
      Some(i + 1 + hashes)
    else RawEnd(s, i + 1, hashes)
  }

  // Past the delimiter that brings the nesting depth back to zero.
  function CommentEnd(s: Bytes, i: nat, depth: nat): (e: Option<nat>)
    requires i <= |s|
    ensures e.Some? ==> i <= e.value <= |s| && (depth > 0 ==> i < e.value && s[e.value - 1] == SLASH)
    decreases |s| - i
  {
    if depth == 0 then Some(i)
    else if i == |s| then None
    else if Pair(s, i, SLASH, STAR) then CommentEnd(s, i + 2, depth + 1)
    else if Pair(s, i, STAR, SLASH) then CommentEnd(s, i + 2, depth - 1)
    else CommentEnd(s, i + 1, depth)
  }

  lemma CommentUnfolds(s: Bytes, i: nat, depth: nat)
    requires i <= |s|
    ensures CommentEnd(s, i, 0) == Some(i)
    ensures CommentEnd(s, i, depth + 1) ==
      if i == |s| then None
      else if Pair(s, i, SLASH, STAR) then CommentEnd(s, i + 2, depth + 2)
      else if Pair(s, i, STAR, SLASH) then CommentEnd(s, i + 2, depth)
      else CommentEnd(s, i + 1, depth + 1)
  {
  }

  function Utf8CharLen(first: byte): nat {
    if first <= 0x7f then 1
    else if 0xc0 <= first <= 0xdf then 2
    else if 0xe0 <= first <= 0xef then 3
    else 4
  }

  // An escaped character literal runs to the next apostrophe on the same line.
  function EscapedCharEnd(s: Bytes, i: nat): (e: Option<nat>)
    requires i <= |s|
    ensures e.Some? ==> i < e.value <= |s| && s[e.value - 1] == APOSTROPHE
    ensures e.Some? ==> forall k :: i <= k < e.value ==> s[k] != NEWLINE
    decreases |s| - i
  {
    if i < |s| && s[i] != NEWLINE then
      if s[i] == APOSTROPHE then Some(i + 1) else EscapedCharEnd(s, i + 1)
    else None
  }

  function CharLiteralEnd(s: Bytes, quote: nat): (e: Option<nat>)
    requires quote < |s|
    ensures e.Some? ==> quote + 1 < e.value <= |s| && s[e.value - 1] == APOSTROPHE
  {
    if quote + 1 >= |s| then None
    else if s[quote + 1] == BACKSLASH then EscapedCharEnd(s, quote + 2)
    else
      var close := quote + 1 + Utf8CharLen(s[quote + 1]);
      if close < |s| && s[close] == APOSTROPHE then Some(close + 1) else None
  }

  function HashRun(s: Bytes, i: nat): (n: nat)
    requires i <= |s|
    ensures i + n <= |s| && AllHashes(s[i..i + n])
    ensures i + n < |s| ==> s[i + n] != HASH
    decreases |s| - i
  {
    if i < |s| && s[i] == HASH then
      var n := HashRun(s, i + 1);
      assert s[i..i + n + 1] == [s[i]] + s[i + 1..i + 1 + n];
      n + 1
    else 0
  }

  datatype RawStart = RawStart(content: nat, hashes: nat)

  function RawPrefix(s: Bytes, i: nat): nat
    requires i <= |s|
  {
    if i < |s| && s[i] == LOWER_R then 1
    else if Pair(s, i, LOWER_B, LOWER_R) || Pair(s, i, LOWER_C, LOWER_R) then 2
    else 0
  }

  function RawStringStart(s: Bytes, i: nat): (r: Option<RawStart>)
    requires i <= |s|
    ensures r.Some? ==> i + 1 < r.value.content <= |s|
    ensures r.Some? ==> forall k :: i <= k < r.value.content ==> s[k] < 0x80 && s[k] != NEWLINE
  {
    var prefix := RawPrefix(s, i);
    if prefix == 0 then None
    else
      var hashes := HashRun(s, i + prefix);
      var index := i + prefix + hashes;
      assert forall k :: i + prefix <= k < index ==> s[k] == s[i + prefix..index][k - i - prefix];
      if index < |s| && s[index] == QUOTE then Some(RawStart(index + 1, hashes)) else None
  }

  // ---- The piece at a position -----------------------------------------------------------

  datatype LexError = UnterminatedString | UnterminatedRawString | UnterminatedBlockComment

  // `Gap` yields nothing, `Literal` is a gap made by a character literal, `Word` yields the
  // identifier between its bounds.
  datatype Piece = Gap(end: nat) | Literal(end: nat) | Word(from: nat, end: nat) | Broken(error: LexError)

  function Closed(end: Option<nat>, error: LexError): Piece {
    match end case Some(e) => Gap(e) case None => Broken(error)
  }

  predicate StringAt(s: Bytes, i: nat)
    requires i < |s|
  {
    s[i] == QUOTE || Pair(s, i, LOWER_B, QUOTE) || Pair(s, i, LOWER_C, QUOTE)
  }

  function QuoteOf(s: Bytes, i: nat): nat
    requires i < |s|
  {
    if s[i] == QUOTE then i else i + 1
  }

  // The end of the character literal starting here, if one does.
  function LiteralEnd(s: Bytes, i: nat): (e: Option<nat>)
    requires i < |s|
    ensures e.Some? ==> i + 1 < e.value <= |s| && s[e.value - 1] == APOSTROPHE
  {
    if s[i] == APOSTROPHE then CharLiteralEnd(s, i)
    else if Pair(s, i, LOWER_B, APOSTROPHE) then CharLiteralEnd(s, i + 1)
    else None
  }

  function PieceAt(s: Bytes, i: nat): (p: Piece)
    requires i < |s|
    ensures !p.Broken? ==> i < p.end <= |s|
    ensures p.Word? ==> i <= p.from < p.end
  {
    if IsWhitespace(s[i]) then Gap(i + 1)
    else if Pair(s, i, SLASH, SLASH) then Gap(LineEnd(s, i + 2))
    else if Pair(s, i, SLASH, STAR) then Closed(CommentEnd(s, i + 2, 1), UnterminatedBlockComment)
    else
      match RawStringStart(s, i)
      case Some(raw) => Closed(RawEnd(s, raw.content, raw.hashes), UnterminatedRawString)
      case None =>
        if Pair(s, i, LOWER_R, HASH) && i + 2 < |s| && IsIdentStart(s[i + 2]) then Word(i + 2, IdentEnd(s, i + 2))
        else if StringAt(s, i) then Closed(QuotedEnd(s, QuoteOf(s, i) + 1), UnterminatedString)
        else
          match LiteralEnd(s, i)
          case Some(e) => Literal(e)
          case None => if IsIdentStart(s[i]) then Word(i, IdentEnd(s, i + 1)) else Gap(i + 1)
  }

  // ---- The whole file ----------------------------------------------------------------------

  datatype Lexeme = Lexeme(from: nat, end: nat, line: nat)

  // The line counter steps over newlines everywhere but inside character literals.
  function LineAfter(s: Bytes, i: nat, line: nat): nat
    requires i < |s| && !PieceAt(s, i).Broken?
  {
    if PieceAt(s, i).Literal? then line else line + Newlines(s[i..PieceAt(s, i).end])
  }

  function ErrorLine(s: Bytes, i: nat, line: nat): nat
    requires i < |s|
  {
    if PieceAt(s, i) == Broken(UnterminatedBlockComment) then line else line + Newlines(s[i..])
  }

  datatype Failure = Failure(line: nat, error: LexError)

  function Lexemes(s: Bytes, i: nat, line: nat): Result<seq<Lexeme>, Failure>
    requires i <= |s|
    decreases |s| - i
  {
    if i == |s| then Ok([])
    else
      match PieceAt(s, i)
      case Broken(error) => Err(Failure(ErrorLine(s, i, line), error))
      case Word(from, end) => Cons(Lexeme(from, end, line), Lexemes(s, end, LineAfter(s, i, line)))
      case Gap(end) => Lexemes(s, end, LineAfter(s, i, line))
      case Literal(end) => Lexemes(s, end, LineAfter(s, i, line))
  }

  function Cons(x: Lexeme, rest: Result<seq<Lexeme>, Failure>): Result<seq<Lexeme>, Failure> {
    match rest case Ok(xs) => Ok([x] + xs) case Err(f) => Err(f)
  }

  // ---- Counting newlines ---------------------------------------------------------------------

  lemma {:induction false} NewlinesConcat(a: Bytes, b: Bytes)
    ensures Newlines(a + b) == Newlines(a) + Newlines(b)
  {
    if a == [] {
      assert a + b == b;
    } else {
      NewlinesConcat(a[1..], b);
      assert (a + b)[1..] == a[1..] + b;
    }
  }

  lemma {:induction false} NoNewlines(s: Bytes)
    requires forall k :: 0 <= k < |s| ==> s[k] != NEWLINE
    ensures Newlines(s) == 0
  {
    if s != [] {
      NoNewlines(s[1..]);
    }
  }

  lemma NewlinesSplit(s: Bytes, i: nat, j: nat, k: nat)
    requires i <= j <= k <= |s|
    ensures Newlines(s[i..k]) == Newlines(s[i..j]) + Newlines(s[j..k])
  {
    assert s[i..k] == s[i..j] + s[j..k];
    NewlinesConcat(s[i..j], s[j..k]);
  }
}
