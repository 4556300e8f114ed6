/** What strings, raw strings and nested comments look like, independently of how they are
    scanned, and the agreement of the scanner with that grammar in both directions. */
module LexGrammar {
  import opened Common
  import opened LexRules

  // `t` occurs in `s` at position `i`.
  ghost predicate At(s: Bytes, i: nat, t: Bytes) {
    i + |t| <= |s| && s[i..i + |t|] == t
  }

  lemma AtSplit(s: Bytes, i: nat, a: Bytes, b: Bytes)
    ensures At(s, i, a + b) <==> At(s, i, a) && At(s, i + |a|, b)
  {
    if i + |a| + |b| <= |s| {
      var w := s[i..i + |a + b|];
      assert w == s[i..i + |a|] + s[i + |a|..i + |a| + |b|];
      assert (a + b)[..|a|] == a && (a + b)[|a|..] == b;
      assert w[..|a|] == s[i..i + |a|] && w[|a|..] == s[i + |a|..i + |a| + |b|];
    }
  }

  lemma AtOne(s: Bytes, i: nat)
    requires i < |s|
    ensures At(s, i, [s[i]])
  {
  }

  lemma AtPair(s: Bytes, i: nat, a: byte, b: byte)
    ensures At(s, i, [a, b]) <==> Pair(s, i, a, b)
  {
    if At(s, i, [a, b]) {
      AtByte(s, i, [a, b], 0);
      AtByte(s, i, [a, b], 1);
    }
  }

  lemma AtByte(s: Bytes, i: nat, t: Bytes, k: nat)
    requires At(s, i, t) && k < |t|
    ensures i + k < |s| && s[i + k] == t[k]
  {
    assert s[i..i + |t|][k] == s[i + k];
  }

  // ---- Quoted strings ----------------------------------------------------------------------

  datatype StrPart = Plain(b: byte) | Escape(b: byte)

  predicate GoodPart(p: StrPart) {
    p.Escape? || (p.b != QUOTE && p.b != BACKSLASH)
  }

  predicate GoodString(parts: seq<StrPart>) {
    forall k :: 0 <= k < |parts| ==> GoodPart(parts[k])
  }

  function PartBytes(p: StrPart): Bytes {
    match p case Plain(b) => [b] case Escape(b) => [BACKSLASH, b]
  }

  // The characters of a string and its closing quote.
  function StringBytes(parts: seq<StrPart>): Bytes {
    if parts == [] then [QUOTE] else PartBytes(parts[0]) + StringBytes(parts[1..])
  }

  lemma {:induction false} ScansString(s: Bytes, i: nat, parts: seq<StrPart>)
    requires GoodString(parts) && At(s, i, StringBytes(parts))
    ensures i <= |s| && QuotedEnd(s, i) == Some(i + |StringBytes(parts)|)
    decreases |parts|
  {
    hide At;
    if parts == [] {
      AtByte(s, i, [QUOTE], 0);
    } else {
      var p := PartBytes(parts[0]);
      AtSplit(s, i, p, StringBytes(parts[1..]));
      AtByte(s, i, p, 0);
      assert GoodPart(parts[0]);
      ScansString(s, i + |p|, parts[1..]);
    }
  }

  lemma {:induction false} ParsesString(s: Bytes, i: nat) returns (parts: seq<StrPart>)
    requires i <= |s| && QuotedEnd(s, i).Some?
    ensures GoodString(parts) && At(s, i, StringBytes(parts)) && QuotedEnd(s, i) == Some(i + |StringBytes(parts)|)
    decreases |s| - i
  {
    hide At;
    if s[i] == QUOTE {
      parts := [];
      AtOne(s, i);
    } else {
      var p := if s[i] == BACKSLASH then Escape(s[i + 1]) else Plain(s[i]);
      var n := |PartBytes(p)|;
      var rest := ParsesString(s, i + n);
      parts := [p] + rest;
      assert parts[1..] == rest;
      if p.Escape? { AtPair(s, i, BACKSLASH, p.b); } else { AtOne(s, i); }
      AtSplit(s, i, PartBytes(p), StringBytes(rest));
    }
  }

  // A string is closed exactly when the source continues with well-formed characters and a quote.
  lemma StringClosed(s: Bytes, i: nat)
    requires i <= |s|
    ensures QuotedEnd(s, i).Some? <==> exists parts :: GoodString(parts) && At(s, i, StringBytes(parts))
  {
    if QuotedEnd(s, i).Some? {
      var parts := ParsesString(s, i);
    }
    if parts :| GoodString(parts) && At(s, i, StringBytes(parts)) {
      ScansString(s, i, parts);
    }
  }

  // ---- Raw strings -------------------------------------------------------------------------

  // The raw string ends at its first terminator.
  lemma {:induction false} RawClosed(s: Bytes, i: nat, hashes: nat, k: nat)
    requires i <= k && Terminator(s, k, hashes)
    requires forall j :: i <= j < k ==> !Terminator(s, j, hashes)
    ensures RawEnd(s, i, hashes) == Some(k + 1 + hashes)
    decreases k - i
  {
    if i < k {
      RawClosed(s, i + 1, hashes, k);
    }
  }

  lemma {:induction false} RawNotClosed(s: Bytes, i: nat, hashes: nat)
    requires i <= |s|
    ensures RawEnd(s, i, hashes).None? <==> forall j :: i <= j < |s| ==> !Terminator(s, j, hashes)
    decreases |s| - i
  {
    if i < |s| {
      RawNotClosed(s, i + 1, hashes);
    }
  }

  // ---- Nested comments -----------------------------------------------------------------------

  // What follows an opening delimiter: bytes and nested comments, up to the matching close.
  datatype Body = Close | Byte(b: byte, rest: Body) | Nest(inner: Body, rest: Body)

  function BodyBytes(body: Body): (t: Bytes)
    ensures |t| >= 2
  {
    match body
    case Close => [STAR, SLASH]
    case Byte(b, rest) => [b] + BodyBytes(rest)
    case Nest(inner, rest) => [SLASH, STAR] + BodyBytes(inner) + BodyBytes(rest)
  }

  // No byte of text starts a delimiter together with what follows it.
  predicate GoodBody(body: Body) {
    match body
    case Close => true
    case Byte(b, rest) =>
      && !(b == SLASH && BodyBytes(rest)[0] == STAR) && !(b == STAR && BodyBytes(rest)[0] == SLASH)
      && GoodBody(rest)
    case Nest(inner, rest) => GoodBody(inner) && GoodBody(rest)
  }

  lemma CommentStep(s: Bytes, i: nat, body: Body, depth: nat)
    requires GoodBody(body) && At(s, i, BodyBytes(body))
    ensures i + |BodyBytes(body)| <= |s|
    ensures CommentEnd(s, i, depth + 1) == match body
      case Close => CommentEnd(s, i + 2, depth)
      case Byte(_, _) => CommentEnd(s, i + 1, depth + 1)
      case Nest(_, _) => CommentEnd(s, i + 2, depth + 2)
  {
    hide At;
    AtByte(s, i, BodyBytes(body), 0);
    AtByte(s, i, BodyBytes(body), 1);
    AtByte(s, i, BodyBytes(body), |BodyBytes(body)| - 1);
  }

  lemma {:induction false} ScansComment(s: Bytes, i: nat, body: Body, depth: nat)
    requires GoodBody(body) && At(s, i, BodyBytes(body))
    ensures i + |BodyBytes(body)| <= |s|
    ensures CommentEnd(s, i, depth + 1) == CommentEnd(s, i + |BodyBytes(body)|, depth)
    decreases body
  {
    hide At, CommentEnd;
    CommentStep(s, i, body, depth);
    match body
    case Close =>
    case Byte(b, rest) =>
      AtSplit(s, i, [b], BodyBytes(rest));
      ScansComment(s, i + 1, rest, depth);
    case Nest(inner, rest) =>
      AtSplit(s, i, [SLASH, STAR] + BodyBytes(inner), BodyBytes(rest));
      AtSplit(s, i, [SLASH, STAR], BodyBytes(inner));
      ScansComment(s, i + 2, inner, depth + 1);
      ScansComment(s, i + 2 + |BodyBytes(inner)|, rest, depth);
  }

  lemma {:induction false} ParsesComment(s: Bytes, i: nat, depth: nat) returns (body: Body)
    requires i <= |s| && CommentEnd(s, i, depth + 1).Some?
    ensures GoodBody(body) && At(s, i, BodyBytes(body)) && i + |BodyBytes(body)| <= |s|
    ensures CommentEnd(s, i + |BodyBytes(body)|, depth) == CommentEnd(s, i, depth + 1)
    decreases |s| - i
  {
    hide At, CommentEnd;
    CommentUnfolds(s, i, depth);
    if Pair(s, i, SLASH, STAR) {
      var inner := ParsesComment(s, i + 2, depth + 1);
      var rest := ParsesComment(s, i + 2 + |BodyBytes(inner)|, depth);
      body := Nest(inner, rest);
      NestAt(s, i, inner, rest);
    } else if Pair(s, i, STAR, SLASH) {
      body := Close;
      AtPair(s, i, STAR, SLASH);
    } else {
      var rest := ParsesComment(s, i + 1, depth);
      body := Byte(s[i], rest);
      ByteAt(s, i, rest);
    }
  }

  lemma NestAt(s: Bytes, i: nat, inner: Body, rest: Body)
    requires Pair(s, i, SLASH, STAR) && At(s, i + 2, BodyBytes(inner)) && At(s, i + 2 + |BodyBytes(inner)|, BodyBytes(rest))
    ensures At(s, i, BodyBytes(Nest(inner, rest))) && |BodyBytes(Nest(inner, rest))| == 2 + |BodyBytes(inner)| + |BodyBytes(rest)|
  {
    var a: Bytes, b: Bytes := BodyBytes(inner), BodyBytes(rest);
    assert BodyBytes(Nest(inner, rest)) == [SLASH, STAR] + a + b;
    hide At, BodyBytes;
    AtPair(s, i, SLASH, STAR);
    AtSplit(s, i, [SLASH, STAR], a);
    AtSplit(s, i, [SLASH, STAR] + a, b);
  }

  lemma ByteAt(s: Bytes, i: nat, rest: Body)
    requires i < |s| && GoodBody(rest) && At(s, i + 1, BodyBytes(rest))
    requires !Pair(s, i, SLASH, STAR) && !Pair(s, i, STAR, SLASH)
    ensures GoodBody(Byte(s[i], rest)) && At(s, i, BodyBytes(Byte(s[i], rest)))
    ensures |BodyBytes(Byte(s[i], rest))| == 1 + |BodyBytes(rest)|
  {
    hide At;
    AtByte(s, i + 1, BodyBytes(rest), 0);
    AtOne(s, i);
    AtSplit(s, i, [s[i]], BodyBytes(rest));
  }

  // A comment is closed exactly when the source continues with a well-nested body.
  lemma CommentClosed(s: Bytes, i: nat)
    requires i <= |s|
    ensures CommentEnd(s, i, 1).Some? <==> exists body :: GoodBody(body) && At(s, i, BodyBytes(body))
  {
    if CommentEnd(s, i, 1).Some? {
      var body := ParsesComment(s, i, 0);
    }
    if body :| GoodBody(body) && At(s, i, BodyBytes(body)) {
      ScansComment(s, i, body, 0);
    }
  }

  // ---- Errors ----------------------------------------------------------------------------

  // A string, raw string or block comment that starts at `p` and is never closed.
  ghost predicate NeverClosed(s: Bytes, p: nat, error: LexError)
    requires p < |s|
  {
    match error
    case UnterminatedBlockComment =>
      Pair(s, p, SLASH, STAR) && forall body :: GoodBody(body) ==> !At(s, p + 2, BodyBytes(body))
    case UnterminatedRawString =>
      RawStringStart(s, p).Some? &&
      forall j :: RawStringStart(s, p).value.content <= j < |s| ==> !Terminator(s, j, RawStringStart(s, p).value.hashes)
    case UnterminatedString =>
      StringAt(s, p) && forall parts :: GoodString(parts) ==> !At(s, QuoteOf(s, p) + 1, StringBytes(parts))
  }

  lemma BrokenMeans(s: Bytes, p: nat)
    requires p < |s| && PieceAt(s, p).Broken?
    ensures NeverClosed(s, p, PieceAt(s, p).error)
  {
    match PieceAt(s, p).error
    case UnterminatedBlockComment => CommentClosed(s, p + 2);
    case UnterminatedRawString =>
      var raw := RawStringStart(s, p).value;
      RawNotClosed(s, raw.content, raw.hashes);
    case UnterminatedString => StringClosed(s, QuoteOf(s, p) + 1);
  }

  // The positions the scanner stops at.
  ghost predicate Visited(s: Bytes, i: nat, p: nat)
    requires i <= |s|
    decreases |s| - i
  {
    i == p || (i < |s| && !PieceAt(s, i).Broken? && Visited(s, PieceAt(s, i).end, p))
  }

  lemma {:induction false} FailsWhereBroken(s: Bytes, i: nat, line: nat) returns (p: nat)
    requires i <= |s| && Lexemes(s, i, line).Err?
    ensures p < |s| && Visited(s, i, p) && PieceAt(s, p).Broken? && Lexemes(s, i, line).error.error == PieceAt(s, p).error
    decreases |s| - i
  {
    if PieceAt(s, i).Broken? {
      p := i;
    } else {
      p := FailsWhereBroken(s, PieceAt(s, i).end, LineAfter(s, i, line));
    }
  }

  lemma {:induction false} FailsIfBroken(s: Bytes, i: nat, line: nat, p: nat)
    requires i <= |s| && p < |s| && Visited(s, i, p) && PieceAt(s, p).Broken?
    ensures Lexemes(s, i, line).Err?
    decreases |s| - i
  {
    if i != p {
      FailsIfBroken(s, PieceAt(s, i).end, LineAfter(s, i, line), p);
    }
  }

  // What is opened at `p` and never closed is what the scanner breaks at: no earlier rule claims
  // the opening delimiter.
  lemma UnclosedBreaks(s: Bytes, p: nat, error: LexError)
    requires p < |s| && NeverClosed(s, p, error)
    ensures PieceAt(s, p) == Broken(error)
  {
    match error
    case UnterminatedBlockComment => CommentClosed(s, p + 2);
    case UnterminatedRawString =>
      var raw := RawStringStart(s, p).value;
      RawNotClosed(s, raw.content, raw.hashes);
    case UnterminatedString => StringClosed(s, QuoteOf(s, p) + 1);
  }

  // A scan fails exactly when it comes to a string, raw string or block comment that runs to the
  // end of the file unclosed, and the error names which of them it is.
  lemma ErrorsAreUnclosed(s: Bytes)
    ensures Lexemes(s, 0, 1).Err? <==> exists p, error :: 0 <= p < |s| && Visited(s, 0, p) && NeverClosed(s, p, error)
    ensures Lexemes(s, 0, 1).Err? ==>
      exists p :: 0 <= p < |s| && Visited(s, 0, p) && NeverClosed(s, p, Lexemes(s, 0, 1).error.error)
  {
    hide NeverClosed;
    if Lexemes(s, 0, 1).Err? {
      var p := FailsWhereBroken(s, 0, 1);
      BrokenMeans(s, p);
    }
    if p: nat, error :| p < |s| && Visited(s, 0, p) && NeverClosed(s, p, error) {
      UnclosedBreaks(s, p, error);
      FailsIfBroken(s, 0, 1, p);
    }
  }
}
