/** The scanner of the runtime guard as the script runs it: byte loops that advance an index
    and a line counter, and the search for forbidden identifiers. */
module RuntimeGuard {
  import opened Common
  import opened LexRules

  datatype Token = Token(identifier: Bytes, line: nat)

  // Loops that count lines keep the counter equal to `line0` plus the newlines passed.
  lemma CountStep(s: Bytes, from: nat, i: nat)
    requires from <= i < |s|
    ensures Newlines(s[from..i + 1]) == Newlines(s[from..i]) + (if s[i] == NEWLINE then 1 else 0)
  {
    NewlinesSplit(s, from, i, i + 1);
    assert s[i..i + 1] == [s[i]];
    assert Newlines([s[i]]) == (if s[i] == NEWLINE then 1 else 0) + Newlines([s[i]][1..]);
  }

  method SkipQuoted(s: Bytes, start: nat, line0: nat) returns (r: Result<nat, LexError>, line: nat)
    requires start < |s|
    ensures r == match QuotedEnd(s, start + 1) case Some(e) => Ok(e) case None => Err(UnterminatedString)
    ensures line == line0 + Newlines(s[start + 1..(if r.Ok? then r.value else |s|)])
  {
    hide Newlines;
    var index := start + 1;
    line := line0;
    assert Newlines(s[start + 1..index]) == 0 by { NoNewlines(s[start + 1..index]); }
    while index < |s|
      invariant start + 1 <= index <= |s|
      invariant QuotedEnd(s, start + 1) == QuotedEnd(s, index)
      invariant line == line0 + Newlines(s[start + 1..index])
    {
      CountStep(s, start + 1, index);
      if s[index] == BACKSLASH {
        index := index + 1;
        if index < |s| {
          CountStep(s, start + 1, index);
          if s[index] == NEWLINE {
            line := line + 1;
          }
          index := index + 1;
        }
      } else if s[index] == QUOTE {
        return Ok(index + 1), line;
      } else if s[index] == NEWLINE {
        line := line + 1;
        index := index + 1;
      } else {
        index := index + 1;
      }
    }
    return Err(UnterminatedString), line;
  }

  method CharLiteral(s: Bytes, quote: nat) returns (r: Option<nat>)
    requires quote < |s|
    ensures r == CharLiteralEnd(s, quote)
  {
    if quote + 1 >= |s| {
      return None;
    }
    var first := s[quote + 1];
    if first == BACKSLASH {
      var index := quote + 2;
      while index < |s| && s[index] != NEWLINE
        invariant quote + 2 <= index <= |s|
        invariant EscapedCharEnd(s, quote + 2) == EscapedCharEnd(s, index)
      {
        if s[index] == APOSTROPHE {
          return Some(index + 1);
        }
        index := index + 1;
      }
      return None;
    }
    var close := quote + 1 + Utf8CharLen(first);
    return if close < |s| && s[close] == APOSTROPHE then Some(close + 1) else None;
  }

  method FindRawStart(s: Bytes, start: nat) returns (r: Option<RawStart>)
    requires start <= |s|
    ensures r == RawStringStart(s, start)
  {
    hide HashRun;
    var prefix := 0;
    if start < |s| && s[start] == LOWER_R {
      prefix := 1;
    } else if Pair(s, start, LOWER_B, LOWER_R) || Pair(s, start, LOWER_C, LOWER_R) {
      prefix := 2;
    } else {
      return None;
    }
    var index := start + prefix;
    var hashes := CountHashes(s, index);
    index := index + hashes;
    return if index < |s| && s[index] == QUOTE then Some(RawStart(index + 1, hashes)) else None;
  }

  method CountHashes(s: Bytes, start: nat) returns (hashes: nat)
    requires start <= |s|
    ensures hashes == HashRun(s, start)
  {
    hide HashRun;
    var index := start;
    hashes := 0;
    HashStep(s, index);
    while index < |s| && s[index] == HASH
      invariant index == start + hashes <= |s|
      invariant HashRun(s, start) == hashes + HashRun(s, index)
    {
      HashStep(s, index);
      hashes := hashes + 1;
      index := index + 1;
    }
    HashStep(s, index);
  }

  lemma HashStep(s: Bytes, i: nat)
    requires i <= |s|
    ensures HashRun(s, i) == if i < |s| && s[i] == HASH then 1 + HashRun(s, i + 1) else 0
  {
  }

  method SkipRawString(s: Bytes, content: nat, hashes: nat, line0: nat) returns (r: Result<nat, LexError>, line: nat)
    requires content <= |s|
    ensures r == match RawEnd(s, content, hashes) case Some(e) => Ok(e) case None => Err(UnterminatedRawString)
    ensures line == line0 + Newlines(s[content..(if r.Ok? then r.value else |s|)])
  {
    hide RawEnd, Newlines;
    var index := content;
    line := line0;
    NothingCounted(s, content);
    while index < |s|
      invariant content <= index <= |s|
      invariant RawEnd(s, content, hashes) == RawEnd(s, index, hashes)
      invariant line == line0 + Newlines(s[content..index])
    {
      CountStep(s, content, index);
      RawStep(s, index, hashes);
      if s[index] == NEWLINE {
        line := line + 1;
      }
      if s[index] == QUOTE && index + 1 + hashes <= |s| && AllHashes(s[index + 1..index + 1 + hashes]) {
        NewlinesSplit(s, content, index + 1, index + 1 + hashes);
        NoNewlines(s[index + 1..index + 1 + hashes]);
        return Ok(index + 1 + hashes), line;
      }
      index := index + 1;
    }
    RawStep(s, index, hashes);
    return Err(UnterminatedRawString), line;
  }

  lemma RawStep(s: Bytes, i: nat, hashes: nat)
    requires i <= |s|
    ensures RawEnd(s, i, hashes) ==
      if i == |s| then None else if Terminator(s, i, hashes) then Some(i + 1 + hashes) else RawEnd(s, i + 1, hashes)
  {
  }

  lemma NothingCounted(s: Bytes, i: nat)
    requires i <= |s|
    ensures Newlines(s[i..i]) == 0
  {
    assert s[i..i] == [];
  }

  lemma CountPair(s: Bytes, from: nat, i: nat)
    requires from <= i && i + 1 < |s| && s[i] != NEWLINE && s[i + 1] != NEWLINE
    ensures Newlines(s[from..i + 2]) == Newlines(s[from..i])
  {
    hide Newlines;
    CountStep(s, from, i);
    CountStep(s, from, i + 1);
  }

  method SkipBlockComment(s: Bytes, start: nat, line0: nat) returns (end: Option<nat>, line: nat)
    requires start <= |s|
    ensures end == CommentEnd(s, start, 1)
    ensures end.Some? ==> line == line0 + Newlines(s[start..end.value])
  {
    hide InComment;
    var index := start;
    var depth: nat := 1;
    line := line0;
    CommentOpens(s, start, line0);
    while index < |s| && depth > 0
      invariant start <= index <= |s| && InComment(s, start, line0, index, depth, line)
      decreases |s| - index
    {
      if Pair(s, index, SLASH, STAR) {
        CommentPair(s, start, line0, index, depth, line);
        depth := depth + 1;
        index := index + 2;
      } else if Pair(s, index, STAR, SLASH) {
        CommentPair(s, start, line0, index, depth, line);
        depth := depth - 1;
        index := index + 2;
      } else {
        CommentByte(s, start, line0, index, depth, line);
        if s[index] == NEWLINE {
          line := line + 1;
        }
        index := index + 1;
      }
    }
    CommentDone(s, start, line0, index, depth, line);
    if depth != 0 {
      return None, line;
    }
    return Some(index), line;
  }

  // The rest of the comment is read from `index` at this depth; the newlines so far are counted.
  ghost predicate InComment(s: Bytes, start: nat, line0: nat, index: nat, depth: nat, line: nat)
    requires start <= index <= |s|
  {
    CommentEnd(s, start, 1) == CommentEnd(s, index, depth) && line == line0 + Newlines(s[start..index])
  }

  lemma CommentOpens(s: Bytes, start: nat, line0: nat)
    requires start <= |s|
    ensures InComment(s, start, line0, start, 1, line0)
  {
  }

  lemma CommentPair(s: Bytes, start: nat, line0: nat, index: nat, depth: nat, line: nat)
    requires start <= index < |s| && depth > 0 && InComment(s, start, line0, index, depth, line)
    ensures Pair(s, index, SLASH, STAR) ==> InComment(s, start, line0, index + 2, depth + 1, line)
    ensures Pair(s, index, STAR, SLASH) ==> InComment(s, start, line0, index + 2, depth - 1, line)
  {
    hide CommentEnd, Newlines;
    CommentUnfolds(s, index, depth - 1);
    if Pair(s, index, SLASH, STAR) || Pair(s, index, STAR, SLASH) {
      CountPair(s, start, index);
    }
  }

  lemma CommentByte(s: Bytes, start: nat, line0: nat, index: nat, depth: nat, line: nat)
    requires start <= index < |s| && depth > 0 && InComment(s, start, line0, index, depth, line)
    requires !Pair(s, index, SLASH, STAR) && !Pair(s, index, STAR, SLASH)
    ensures InComment(s, start, line0, index + 1, depth, if s[index] == NEWLINE then line + 1 else line)
  {
    hide CommentEnd, Newlines;
    CommentUnfolds(s, index, depth - 1);
    CountStep(s, start, index);
  }

  lemma CommentDone(s: Bytes, start: nat, line0: nat, index: nat, depth: nat, line: nat)
    requires start <= index <= |s| && InComment(s, start, line0, index, depth, line) && (depth == 0 || index == |s|)
    ensures CommentEnd(s, start, 1) == if depth == 0 then Some(index) else None
    ensures line == line0 + Newlines(s[start..index])
  {
    hide CommentEnd, Newlines;
    CommentUnfolds(s, index, if depth == 0 then 0 else depth - 1);
  }

  method SkipIdent(s: Bytes, start: nat) returns (index: nat)
    requires start <= |s|
    ensures index == IdentEnd(s, start)
  {
    index := start;
    while index < |s| && IsIdentContinue(s[index])
      invariant start <= index <= |s|
      invariant IdentEnd(s, start) == IdentEnd(s, index)
    {
      index := index + 1;
    }
  }

  method SkipLine(s: Bytes, start: nat) returns (index: nat)
    requires start <= |s|
    ensures index == LineEnd(s, start)
  {
    index := start;
    while index < |s| && s[index] != NEWLINE
      invariant start <= index <= |s|
      invariant LineEnd(s, start) == LineEnd(s, index)
    {
      index := index + 1;
    }
  }

  // ---- Lexing ----------------------------------------------------------------------------

  function TokenOf(s: Bytes, x: Lexeme): Token {
    if x.from <= x.end <= |s| then Token(s[x.from..x.end], x.line) else Token([], x.line)
  }

  function TokensOf(s: Bytes, xs: seq<Lexeme>): (r: seq<Token>)
    ensures |r| == |xs| && forall k :: 0 <= k < |xs| ==> r[k] == TokenOf(s, xs[k])
  {
    if xs == [] then [] else [TokenOf(s, xs[0])] + TokensOf(s, xs[1..])
  }

  function Lexed(s: Bytes): Result<seq<Token>, Failure> {
    match Lexemes(s, 0, 1)
    case Ok(xs) => Ok(TokensOf(s, xs))
    case Err(f) => Err(f)
  }

  // What is still to come after `tokens`, read at `index`.
  ghost predicate Pending(s: Bytes, tokens: seq<Token>, index: nat, line: nat)
    requires index <= |s|
  {
    Lexed(s) == match Lexemes(s, index, line)
                case Ok(xs) => Ok(tokens + TokensOf(s, xs))
                case Err(f) => Err(f)
  }

  lemma PendingGap(s: Bytes, tokens: seq<Token>, index: nat, line: nat, end: nat, line': nat)
    requires index < |s| && Pending(s, tokens, index, line)
    requires PieceAt(s, index) == Gap(end) && line' == line + Newlines(s[index..end])
    ensures end <= |s| && Pending(s, tokens, end, line')
  {
    hide PieceAt, Lexed, TokensOf, Newlines;
  }

  lemma PendingWord(s: Bytes, tokens: seq<Token>, index: nat, line: nat, from: nat, end: nat)
    requires index < |s| && Pending(s, tokens, index, line) && PieceAt(s, index) == Word(from, end)
    requires forall k :: index <= k < end ==> s[k] != NEWLINE
    ensures from <= end <= |s| && Pending(s, tokens + [Token(s[from..end], line)], end, line)
  {
    hide PieceAt, Lexemes;
    NoNewlines(s[index..end]);
    var rest := Lexemes(s, end, line);
    WordFirst(s, index, line, from, end);
    if rest.Ok? {
      TokensCons(s, tokens, Lexeme(from, end, line), rest.value);
    }
  }

  lemma WordFirst(s: Bytes, index: nat, line: nat, from: nat, end: nat)
    requires index < |s| && PieceAt(s, index) == Word(from, end) && Newlines(s[index..end]) == 0
    ensures Lexemes(s, index, line) == Cons(Lexeme(from, end, line), Lexemes(s, end, line))
  {
    hide PieceAt, Newlines;
  }

  lemma TokensCons(s: Bytes, tokens: seq<Token>, x: Lexeme, xs: seq<Lexeme>)
    ensures tokens + TokensOf(s, [x] + xs) == (tokens + [TokenOf(s, x)]) + TokensOf(s, xs)
  {
    assert ([x] + xs)[1..] == xs;
    assert TokensOf(s, [x] + xs) == [TokenOf(s, x)] + TokensOf(s, xs);
  }

  // Bytes without a newline leave the count alone.
  lemma QuietPrefix(s: Bytes, i: nat, j: nat, k: nat)
    requires i <= j <= k <= |s| && forall m :: i <= m < j ==> s[m] != NEWLINE
    ensures Newlines(s[i..k]) == Newlines(s[j..k])
  {
    NewlinesSplit(s, i, j, k);
    NoNewlines(s[i..j]);
  }

  // One attempt at a piece that yields no token.
  datatype Outcome = Moved(end: nat) | Failed(failure: Failure) | Elsewhere

  ghost predicate Handled(s: Bytes, i: nat, line0: nat, out: Outcome, line: nat)
    requires i < |s|
  {
    match out
    case Moved(end) =>
      || (PieceAt(s, i) == Gap(end) && line == line0 + Newlines(s[i..end]))
      || (PieceAt(s, i) == Literal(end) && line == line0)
    case Failed(f) => PieceAt(s, i) == Broken(f.error) && f.line == ErrorLine(s, i, line0)
    case Elsewhere => line == line0
  }

  predicate TriviaAt(s: Bytes, i: nat)
    requires i < |s|
  {
    IsWhitespace(s[i]) || Pair(s, i, SLASH, SLASH) || Pair(s, i, SLASH, STAR)
  }

  // Whitespace and comments.
  method SkipTrivia(s: Bytes, index: nat, line0: nat) returns (out: Outcome, line: nat)
    requires index < |s|
    ensures Handled(s, index, line0, out, line) && (out.Elsewhere? <==> !TriviaAt(s, index))
    ensures out.Elsewhere? ==> line == line0
  {
    hide LineEnd, CommentEnd, RawEnd, RawStringStart, QuotedEnd, LiteralEnd, IdentEnd, Newlines;
    line := line0;
    if IsWhitespace(s[index]) {
      NewlineHere(s, index);
      if s[index] == NEWLINE {
        line := line + 1;
      }
      return Moved(index + 1), line;
    }
    if Pair(s, index, SLASH, SLASH) {
      var end := SkipLine(s, index + 2);
      NoNewlines(s[index..end]);
      return Moved(end), line;
    }
    if Pair(s, index, SLASH, STAR) {
      var startLine := line;
      var end, line' := SkipBlockComment(s, index + 2, line);
      if end.None? {
        return Failed(Failure(startLine, UnterminatedBlockComment)), line';
      }
      QuietPrefix(s, index, index + 2, end.value);
      return Moved(end.value), line';
    }
    return Elsewhere, line;
  }

  // Raw strings.
  method SkipRaw(s: Bytes, index: nat, line0: nat) returns (out: Outcome, line: nat)
    requires index < |s| && !TriviaAt(s, index)
    ensures Handled(s, index, line0, out, line) && (out.Elsewhere? <==> RawStringStart(s, index).None?)
    ensures out.Elsewhere? ==> line == line0
  {
    hide LineEnd, CommentEnd, RawEnd, RawStringStart, QuotedEnd, LiteralEnd, IdentEnd, Newlines;
    line := line0;
    var raw := FindRawStart(s, index);
    if raw.None? {
      return Elsewhere, line;
    }
    var end, line' := SkipRawString(s, raw.value.content, raw.value.hashes, line);
    QuietPrefix(s, index, raw.value.content, if end.Ok? then end.value else |s|);
    line := line';
    if end.Err? {
      assert s[index..] == s[index..|s|];
      return Failed(Failure(line, end.error)), line;
    }
    return Moved(end.value), line;
  }

  predicate RawIdentAt(s: Bytes, i: nat)
    requires i < |s|
  {
    Pair(s, i, LOWER_R, HASH) && i + 2 < |s| && IsIdentStart(s[i + 2])
  }

  // Quoted strings and character literals.
  method SkipLiteral(s: Bytes, index: nat, line0: nat) returns (out: Outcome, line: nat)
    requires index < |s| && !TriviaAt(s, index) && RawStringStart(s, index).None? && !RawIdentAt(s, index)
    ensures Handled(s, index, line0, out, line)
    ensures out.Elsewhere? <==> !StringAt(s, index) && LiteralEnd(s, index).None?
    ensures out.Elsewhere? ==> line == line0
  {
    hide LineEnd, CommentEnd, RawEnd, RawStringStart, QuotedEnd, LiteralEnd, IdentEnd, Newlines;
    line := line0;
    if s[index] == QUOTE || Pair(s, index, LOWER_B, QUOTE) || Pair(s, index, LOWER_C, QUOTE) {
      var quote := if s[index] == QUOTE then index else index + 1;
      var end, line' := SkipQuoted(s, quote, line);
      QuietPrefix(s, index, quote + 1, if end.Ok? then end.value else |s|);
      line := line';
      if end.Err? {
        assert s[index..] == s[index..|s|];
        return Failed(Failure(line, end.error)), line;
      }
      return Moved(end.value), line;
    }
    var literal: Option<nat> := None;
    if s[index] == APOSTROPHE {
      literal := CharLiteral(s, index);
    } else if Pair(s, index, LOWER_B, APOSTROPHE) {
      literal := CharLiteral(s, index + 1);
    }
    LiteralIs(s, index, literal);
    if literal.Some? {
      return Moved(literal.value), line;
    }
    return Elsewhere, line;
  }

  method Lex(s: Bytes) returns (r: Result<seq<Token>, Failure>)
    ensures r == Lexed(s)
  {
    hide Pending, Lexed, LineEnd, CommentEnd, RawEnd, RawStringStart, QuotedEnd, LiteralEnd, IdentEnd, Newlines, Handled;
    var tokens: seq<Token> := [];
    var index := 0;
    var line: nat := 1;
    PendingStart(s);
    while index < |s|
      invariant index <= |s| && Pending(s, tokens, index, line)
      decreases |s| - index
    {
      ghost var before := line;
      var out: Outcome;
      out, line := SkipTrivia(s, index, line);
      if out.Elsewhere? {
        out, line := SkipRaw(s, index, line);
      }
      if out.Elsewhere? && !RawIdentAt(s, index) {
        out, line := SkipLiteral(s, index, line);
      }
      match out
      case Moved(end) =>
        PendingSkip(s, tokens, index, before, end, line);
        index := end;
      case Failed(f) =>
        PendingBroken(s, tokens, index, before, f, line);
        return Err(f);
      case Elsewhere =>
        if RawIdentAt(s, index) {
          var start := index + 2;
          var end := SkipIdent(s, start);
          PendingWord(s, tokens, index, line, start, end);
          tokens := tokens + [Token(s[start..end], line)];
          index := end;
        } else if IsIdentStart(s[index]) {
          var end := SkipIdent(s, index + 1);
          PendingWord(s, tokens, index, line, index, end);
          tokens := tokens + [Token(s[index..end], line)];
          index := end;
        } else {
          NewlineHere(s, index);
          PendingGap(s, tokens, index, line, index + 1, line);
          index := index + 1;
        }
    }
    PendingDone(s, tokens, index, line);
    return Ok(tokens);
  }

  lemma PendingSkip(s: Bytes, tokens: seq<Token>, index: nat, line0: nat, end: nat, line: nat)
    requires index < |s| && Pending(s, tokens, index, line0) && Handled(s, index, line0, Moved(end), line)
    ensures index < end <= |s| && Pending(s, tokens, end, line)
  {
  }

  lemma NewlineHere(s: Bytes, i: nat)
    requires i < |s|
    ensures Newlines(s[i..i + 1]) == if s[i] == NEWLINE then 1 else 0
  {
    CountStep(s, i, i);
  }

  lemma PendingStart(s: Bytes)
    ensures Pending(s, [], 0, 1)
  {
    var all := Lexemes(s, 0, 1);
    if all.Ok? {
      assert [] + TokensOf(s, all.value) == TokensOf(s, all.value);
    }
  }

  lemma PendingDone(s: Bytes, tokens: seq<Token>, index: nat, line: nat)
    requires index == |s| && Pending(s, tokens, index, line)
    ensures Lexed(s) == Ok(tokens)
  {
    assert tokens + TokensOf(s, []) == tokens;
  }

  lemma PendingBroken(s: Bytes, tokens: seq<Token>, index: nat, line0: nat, f: Failure, line: nat)
    requires index < |s| && Pending(s, tokens, index, line0) && Handled(s, index, line0, Failed(f), line)
    ensures Lexed(s) == Err(f)
  {
  }

  lemma LiteralIs(s: Bytes, i: nat, r: Option<nat>)
    requires i < |s|
    requires r == if s[i] == APOSTROPHE then CharLiteralEnd(s, i)
                  else if Pair(s, i, LOWER_B, APOSTROPHE) then CharLiteralEnd(s, i + 1) else None
    ensures r == LiteralEnd(s, i)
  {
  }

  // ---- Scanning --------------------------------------------------------------------------

  function Ascii(t: string): (r: Bytes)
    ensures |r| == |t| && forall i :: 0 <= i < |t| && t[i] < 128 as char ==> r[i] as char == t[i]
  {
    if t == "" then [] else [if t[0] < 128 as char then t[0] as byte else 0] + Ascii(t[1..])
  }

  predicate IsForbidden(identifier: Bytes) {
    || identifier == Ascii("VectorIndex")
    || identifier == Ascii("MemoryGraph")
    || identifier == Ascii("get_all_memories_by_namespace")
    || identifier == Ascii("get_all_memories_by_namespace_including_superseded")
  }

  function Violations(tokens: seq<Token>): seq<Token> {
    if tokens == [] then []
    else
      var n := |tokens| - 1;
      Violations(tokens[..n]) + if IsForbidden(tokens[n].identifier) then [tokens[n]] else []
  }

  // Violations are the forbidden tokens, each as often as it stands there and in the same order.
  lemma {:induction false} ViolationsInOrder(tokens: seq<Token>) returns (at: seq<nat>)
    ensures |at| == |Violations(tokens)| && forall i, j :: 0 <= i < j < |at| ==> at[i] < at[j]
    ensures forall k :: 0 <= k < |at| ==> at[k] < |tokens| && Violations(tokens)[k] == tokens[at[k]]
    ensures forall i :: 0 <= i < |tokens| ==> (IsForbidden(tokens[i].identifier) <==> i in at)
  {
    hide IsForbidden;
    at := [];
    if tokens != [] {
      var n := |tokens| - 1;
      var rest, bad := tokens[..n], IsForbidden(tokens[n].identifier);
      var before := ViolationsInOrder(rest);
      assert Violations(tokens) == Violations(rest) + if bad then [tokens[n]] else [];
      hide Violations;
      at := before + if bad then [n] else [];
      forall i | 0 <= i < |tokens| ensures IsForbidden(tokens[i].identifier) <==> i in at {
        assert i in at <==> i in before || (bad && i == n);
        assert i < n ==> rest[i] == tokens[i];
      }
    }
  }

  // The forbidden identifiers of a file with their lines, in order.
  method ScanFile(s: Bytes) returns (r: Result<seq<Token>, Failure>)
    ensures r == match Lexed(s) case Ok(tokens) => Ok(Violations(tokens)) case Err(f) => Err(f)
  {
    hide Lexed, IsForbidden;
    var lexed := Lex(s);
    if lexed.Err? {
      return Err(lexed.error);
    }
    var tokens := lexed.value;
    var violations: seq<Token> := [];
    for i := 0 to |tokens|
      invariant violations == Violations(tokens[..i])
    {
      assert tokens[..i + 1][..i] == tokens[..i];
      if IsForbidden(tokens[i].identifier) {
        violations := violations + [tokens[i]];
      }
    }
    assert tokens[..|tokens|] == tokens;
    return Ok(violations);
  }
}
