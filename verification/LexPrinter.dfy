/** Printing a program and scanning it again: the scanner finds exactly the identifiers, in
    order and on their lines, and nothing inside comments, strings or characters. */
module LexPrinter {
  import opened Common
  import opened LexRules
  import opened LexChars
  import opened LexGrammar
  import opened LexLines
  import opened RuntimeGuard

  datatype Item =
    | Blank(b: byte)
    | Mark(b: byte)
    | Ident(name: Bytes)
    | RawIdent(name: Bytes)
    | Tick                     // an apostrophe that opens no character literal, as in a lifetime
    | LineComment(text: Bytes)
    | BlockComment(body: Body)
    | Str(strPrefix: Bytes, parts: seq<StrPart>)
    | RawStr(rawPrefix: Bytes, hashes: nat, text: Bytes)
    | CharLit(charPrefix: Bytes, c: Bytes)
    | EscapedChar(charPrefix: Bytes, escape: Bytes)
    | EscapedQuote(charPrefix: Bytes)   // the literal of the escaped apostrophe

  function Hashes(n: nat): (r: Bytes)
    ensures |r| == n && AllHashes(r)
  {
    if n == 0 then [] else [HASH] + Hashes(n - 1)
  }

  function RawTail(hashes: nat, text: Bytes): Bytes {
    text + [QUOTE] + Hashes(hashes)
  }

  function Text(item: Item): Bytes {
    match item
    case Blank(b) => [b]
    case Mark(b) => [b]
    case Ident(name) => name
    case RawIdent(name) => [LOWER_R, HASH] + name
    case Tick => [APOSTROPHE]
    case LineComment(text) => [SLASH, SLASH] + text
    case BlockComment(body) => [SLASH, STAR] + BodyBytes(body)
    case Str(prefix, parts) => prefix + [QUOTE] + StringBytes(parts)
    case RawStr(prefix, hashes, text) => prefix + Hashes(hashes) + [QUOTE] + RawTail(hashes, text)
    case CharLit(prefix, c) => prefix + [APOSTROPHE] + c + [APOSTROPHE]
    case EscapedChar(prefix, escape) => prefix + [APOSTROPHE, BACKSLASH] + escape + [APOSTROPHE]
    case EscapedQuote(prefix) => prefix + [APOSTROPHE, BACKSLASH, APOSTROPHE, APOSTROPHE]
  }

  predicate GoodName(name: Bytes) {
    name != [] && IsIdentStart(name[0]) && forall k :: 0 <= k < |name| ==> IsIdentContinue(name[k])
  }

  predicate WithoutNewline(t: Bytes) {
    forall k :: 0 <= k < |t| ==> t[k] != NEWLINE
  }

  predicate Stops(rest: Bytes) {
    rest == [] || !IsIdentContinue(rest[0])
  }

  // An apostrophe in front of `rest` opens no character literal.
  predicate OpensNothing(rest: Bytes) {
    rest != [] ==> rest[0] != BACKSLASH && (Utf8CharLen(rest[0]) < |rest| ==> rest[Utf8CharLen(rest[0])] != APOSTROPHE)
  }

  // A well-formed item in front of the bytes `rest`. Identifiers need a separator that does
  // not turn them into a literal's prefix; a line comment needs its line to end. The scanner ends
  // the literal of an escaped apostrophe one apostrophe early, so what follows must not be such
  // that the last one opens a literal.
  predicate Good(item: Item, rest: Bytes) {
    match item
    case Blank(b) => IsWhitespace(b)
    case Mark(b) =>
      && !IsWhitespace(b) && !IsIdentStart(b) && b != QUOTE && b != APOSTROPHE
      && (b == SLASH && rest != [] ==> rest[0] != SLASH && rest[0] != STAR)
    case Ident(name) =>
      GoodName(name) && Stops(rest) && (rest != [] ==> rest[0] != QUOTE && rest[0] != HASH && rest[0] != APOSTROPHE)
    case RawIdent(name) => GoodName(name) && Stops(rest)
    case Tick => OpensNothing(rest)
    case LineComment(text) => WithoutNewline(text) && (rest != [] ==> rest[0] == NEWLINE)
    case BlockComment(body) => GoodBody(body)
    case Str(prefix, parts) => (prefix == [] || prefix == [LOWER_B] || prefix == [LOWER_C]) && GoodString(parts)
    case RawStr(prefix, hashes, text) =>
      && (prefix == [LOWER_R] || prefix == [LOWER_B, LOWER_R] || prefix == [LOWER_C, LOWER_R])
      && forall j :: 0 <= j < |text| ==> !Terminator(RawTail(hashes, text), j, hashes)
    case CharLit(prefix, c) =>
      && (prefix == [] || prefix == [LOWER_B])
      && c != [] && c[0] != BACKSLASH && |c| == Utf8CharLen(c[0]) && WithoutNewline(c)
    case EscapedChar(prefix, escape) =>
      (prefix == [] || prefix == [LOWER_B]) && forall k :: 0 <= k < |escape| ==> escape[k] != APOSTROPHE && escape[k] != NEWLINE
    case EscapedQuote(prefix) => (prefix == [] || prefix == [LOWER_B]) && OpensNothing(rest)
  }

  function Print(items: seq<Item>): Bytes {
    if items == [] then [] else Text(items[0]) + Print(items[1..])
  }

  predicate GoodProgram(items: seq<Item>) {
    items == [] || (Good(items[0], Print(items[1..])) && GoodProgram(items[1..]))
  }

  function NameOf(item: Item): Option<Bytes> {
    match item
    case Ident(name) => Some(name)
    case RawIdent(name) => Some(name)
    case _ => None
  }

  // The identifiers of the program with the lines they stand on.
  function Identifiers(items: seq<Item>, line: nat): seq<Token> {
    if items == [] then []
    else
      (match NameOf(items[0]) case Some(name) => [Token(name, line)] case None => []) +
      Identifiers(items[1..], line + Newlines(Text(items[0])))
  }

  // ---- One item at a time --------------------------------------------------------------------

  // `item` is printed at `i` and followed by `rest` to the end.
  ghost predicate PrintedAt(s: Bytes, i: nat, item: Item, rest: Bytes) {
    && At(s, i, Text(item)) && s[i + |Text(item)|..] == rest
  }

  // The scanner reads the item as one piece.
  ghost predicate ReadAs(s: Bytes, i: nat, item: Item)
    requires i < |s|
  {
    var end := i + |Text(item)|;
    match NameOf(item)
    case None => PieceAt(s, i) == Gap(end) || (PieceAt(s, i) == Literal(end) && Newlines(Text(item)) == 0)
    case Some(name) =>
      && PieceAt(s, i).Word? && PieceAt(s, i).end == end && |name| <= end && PieceAt(s, i).from == end - |name|
      && At(s, end - |name|, name) && Newlines(Text(item)) == 0
  }

  lemma RestAt(s: Bytes, i: nat, item: Item, rest: Bytes)
    requires PrintedAt(s, i, item, rest)
    ensures i + |Text(item)| <= |s| && (rest == [] <==> i + |Text(item)| == |s|)
    ensures rest != [] ==> s[i + |Text(item)|] == rest[0]
  {
    if rest != [] {
      assert s[i + |Text(item)|..][0] == s[i + |Text(item)|];
    }
  }

  lemma {:induction false} IdentRun(s: Bytes, i: nat, t: Bytes)
    requires At(s, i, t) && (forall k :: 0 <= k < |t| ==> IsIdentContinue(t[k]))
    requires i + |t| < |s| ==> !IsIdentContinue(s[i + |t|])
    ensures i + |t| <= |s| && IdentEnd(s, i) == i + |t|
    decreases |t|
  {
    if t != [] {
      AtByte(s, i, t, 0);
      assert t == [t[0]] + t[1..];
      AtSplit(s, i, [t[0]], t[1..]);
      IdentRun(s, i + 1, t[1..]);
    }
  }

  lemma {:induction false} LineRun(s: Bytes, i: nat, t: Bytes)
    requires At(s, i, t) && WithoutNewline(t) && (i + |t| < |s| ==> s[i + |t|] == NEWLINE)
    ensures i + |t| <= |s| && LineEnd(s, i) == i + |t|
    decreases |t|
  {
    if t != [] {
      AtByte(s, i, t, 0);
      assert t == [t[0]] + t[1..];
      AtSplit(s, i, [t[0]], t[1..]);
      LineRun(s, i + 1, t[1..]);
    }
  }

  lemma {:induction false} HashesRun(s: Bytes, i: nat, n: nat)
    requires At(s, i, Hashes(n)) && i + n < |s| && s[i + n] == QUOTE
    ensures HashRun(s, i) == n
    decreases n
  {
    if n > 0 {
      AtByte(s, i, Hashes(n), 0);
      AtSplit(s, i, [HASH], Hashes(n - 1));
      HashesRun(s, i + 1, n - 1);
    }
  }

  lemma ReadBlank(s: Bytes, i: nat, item: Item, rest: Bytes)
    requires item.Blank? || item.Mark?
    requires PrintedAt(s, i, item, rest) && Good(item, rest)
    ensures i < |s| && ReadAs(s, i, item)
  {
    hide At, CommentEnd, LineEnd, RawEnd, QuotedEnd, IdentEnd, CharLiteralEnd;
    AtByte(s, i, Text(item), 0);
    RestAt(s, i, item, rest);
  }

  lemma ReadIdent(s: Bytes, i: nat, name: Bytes, rest: Bytes)
    requires PrintedAt(s, i, Ident(name), rest) && Good(Ident(name), rest)
    ensures i < |s| && ReadAs(s, i, Ident(name))
  {
    hide At, CommentEnd, LineEnd, RawEnd, QuotedEnd, IdentEnd, CharLiteralEnd;
    RestAt(s, i, Ident(name), rest);
    AtByte(s, i, name, 0);
    forall k | 0 <= k < |name| ensures s[i + k] == name[k] {
      AtByte(s, i, name, k);
    }
    assert name == [name[0]] + name[1..];
    AtSplit(s, i, [name[0]], name[1..]);
    IdentRun(s, i + 1, name[1..]);
    NoNewlines(name);
    NotRaw(s, i, |name|);
  }

  // Identifier bytes followed by neither a quote nor a hash do not open a raw string.
  lemma NotRaw(s: Bytes, i: nat, n: nat)
    requires 0 < n && i + n <= |s| && (forall k :: i <= k < i + n ==> IsIdentContinue(s[k]))
    requires i + n < |s| ==> !IsIdentContinue(s[i + n]) && s[i + n] != QUOTE && s[i + n] != HASH
    ensures RawStringStart(s, i).None? && !Pair(s, i, LOWER_R, HASH)
  {
    var prefix := RawPrefix(s, i);
    if prefix > 0 {
      assert prefix <= n;
      assert HashRun(s, i + prefix) == 0;
    }
  }

  lemma ReadRawIdent(s: Bytes, i: nat, name: Bytes, rest: Bytes)
    requires PrintedAt(s, i, RawIdent(name), rest) && Good(RawIdent(name), rest)
    ensures i < |s| && ReadAs(s, i, RawIdent(name))
  {
    hide At, CommentEnd, LineEnd, RawEnd, QuotedEnd, IdentEnd, CharLiteralEnd;
    RestAt(s, i, RawIdent(name), rest);
    AtSplit(s, i, [LOWER_R, HASH], name);
    AtPair(s, i, LOWER_R, HASH);
    AtByte(s, i + 2, name, 0);
    IdentRun(s, i + 2, name);
    NoNewlines([LOWER_R, HASH] + name);
    assert HashRun(s, i + 2) == 0;
    assert HashRun(s, i + 1) == 1;
  }

  lemma ReadTick(s: Bytes, i: nat, rest: Bytes)
    requires PrintedAt(s, i, Tick, rest) && Good(Tick, rest)
    ensures i < |s| && ReadAs(s, i, Tick)
  {
    hide At, CommentEnd, LineEnd, RawEnd, QuotedEnd, IdentEnd;
    RestAt(s, i, Tick, rest);
    AtByte(s, i, [APOSTROPHE], 0);
    assert forall k :: 0 <= k < |rest| ==> rest[k] == s[i + 1 + k];
  }

  lemma ReadLineComment(s: Bytes, i: nat, text: Bytes, rest: Bytes)
    requires PrintedAt(s, i, LineComment(text), rest) && Good(LineComment(text), rest)
    ensures i < |s| && ReadAs(s, i, LineComment(text))
  {
    hide At, CommentEnd, LineEnd, RawEnd, QuotedEnd, IdentEnd;
    RestAt(s, i, LineComment(text), rest);
    AtSplit(s, i, [SLASH, SLASH], text);
    AtPair(s, i, SLASH, SLASH);
    LineRun(s, i + 2, text);
  }

  lemma ReadBlockComment(s: Bytes, i: nat, body: Body)
    requires At(s, i, Text(BlockComment(body))) && Good(BlockComment(body), [])
    ensures i < |s| && ReadAs(s, i, BlockComment(body))
  {
    hide At, CommentEnd, PieceAt, ReadAs, BodyBytes, GoodBody, Newlines;
    var e := i + 2 + |BodyBytes(body)|;
    AtSplit(s, i, [SLASH, STAR], BodyBytes(body));
    AtPair(s, i, SLASH, STAR);
    ScansComment(s, i + 2, body, 0);
    CommentAtZero(s, e);
    PieceIsComment(s, i, e);
    ReadAsGap(s, i, BlockComment(body), e);
  }

  lemma PieceIsComment(s: Bytes, i: nat, e: nat)
    requires Pair(s, i, SLASH, STAR) && CommentEnd(s, i + 2, 1) == Some(e)
    ensures PieceAt(s, i) == Gap(e)
  {
    hide CommentEnd, LineEnd, RawEnd, QuotedEnd, IdentEnd, CharLiteralEnd, RawStringStart, LiteralEnd;
  }

  lemma CommentAtZero(s: Bytes, i: nat)
    requires i <= |s|
    ensures CommentEnd(s, i, 0) == Some(i)
  {
  }

  lemma ReadAsGap(s: Bytes, i: nat, item: Item, e: nat)
    requires i < |s| && NameOf(item).None? && e == i + |Text(item)|
    requires PieceAt(s, i) == Gap(e) || (PieceAt(s, i) == Literal(e) && Newlines(Text(item)) == 0)
    ensures ReadAs(s, i, item)
  {
    hide Text, PieceAt, Newlines;
  }

  lemma PieceIsString(s: Bytes, i: nat, q: nat, e: nat)
    requires i <= q < |s| && s[q] == QUOTE && QuotedEnd(s, q + 1) == Some(e)
    requires q == i || (q == i + 1 && (s[i] == LOWER_B || s[i] == LOWER_C))
    ensures PieceAt(s, i) == Gap(e)
  {
    hide CommentEnd, LineEnd, RawEnd, QuotedEnd, IdentEnd, RawStringStart, LiteralEnd;
    NotRawBefore(s, i, q);
    PieceOfString(s, i);
    assert QuoteOf(s, i) == q;
  }

  lemma PieceOfString(s: Bytes, i: nat)
    requires i < |s| && StringAt(s, i) && RawStringStart(s, i).None? && !Pair(s, i, LOWER_R, HASH)
    ensures PieceAt(s, i) == Closed(QuotedEnd(s, QuoteOf(s, i) + 1), UnterminatedString)
  {
    hide CommentEnd, LineEnd, RawEnd, QuotedEnd, IdentEnd, RawStringStart, LiteralEnd, QuoteOf;
    assert s[i] == QUOTE || s[i] == LOWER_B || s[i] == LOWER_C;
  }

  // A quote or apostrophe after at most one letter other than `r` opens no raw string.
  lemma NotRawBefore(s: Bytes, i: nat, q: nat)
    requires i <= q < |s| && (s[q] == QUOTE || s[q] == APOSTROPHE)
    requires q == i || (q == i + 1 && (s[i] == LOWER_B || s[i] == LOWER_C))
    ensures RawStringStart(s, i).None? && !Pair(s, i, LOWER_R, HASH)
  {
  }

  lemma PieceIsChar(s: Bytes, i: nat, q: nat, e: nat)
    requires i <= q < |s| && s[q] == APOSTROPHE && CharLiteralEnd(s, q) == Some(e)
    requires q == i || (q == i + 1 && s[i] == LOWER_B)
    ensures PieceAt(s, i) == Literal(e)
  {
    NotRawBefore(s, i, q);
    hide CommentEnd, LineEnd, RawEnd, QuotedEnd, IdentEnd, CharLiteralEnd, RawStringStart;
  }

  // A prefix of at most one byte, and the quote after it.
  lemma PrefixAt(s: Bytes, i: nat, prefix: Bytes, quote: byte)
    requires At(s, i, prefix + [quote]) && |prefix| <= 1
    ensures i + |prefix| < |s| && s[i + |prefix|] == quote
    ensures prefix != [] ==> s[i] == prefix[0]
  {
    hide At;
    AtByte(s, i, prefix + [quote], |prefix|);
    AtByte(s, i, prefix + [quote], 0);
  }

  lemma ReadStr(s: Bytes, i: nat, prefix: Bytes, parts: seq<StrPart>)
    requires At(s, i, Text(Str(prefix, parts))) && Good(Str(prefix, parts), [])
    ensures i < |s| && ReadAs(s, i, Str(prefix, parts))
  {
    hide At, QuotedEnd, PieceAt, ReadAs, StringBytes, GoodString, Newlines, Text, Good;
    var e := i + |prefix| + 1 + |StringBytes(parts)|;
    StrText(prefix, parts);
    AtSplit(s, i, prefix + [QUOTE], StringBytes(parts));
    PrefixAt(s, i, prefix, QUOTE);
    ScansString(s, i + |prefix| + 1, parts);
    PieceIsString(s, i, i + |prefix|, e);
    ReadAsGap(s, i, Str(prefix, parts), e);
  }

  lemma StrText(prefix: Bytes, parts: seq<StrPart>)
    requires Good(Str(prefix, parts), [])
    ensures (prefix == [] || prefix == [LOWER_B] || prefix == [LOWER_C]) && GoodString(parts)
    ensures Text(Str(prefix, parts)) == (prefix + [QUOTE]) + StringBytes(parts)
  {
    hide StringBytes, GoodString;
  }

  lemma ReadChar(s: Bytes, i: nat, prefix: Bytes, c: Bytes)
    requires At(s, i, Text(CharLit(prefix, c))) && Good(CharLit(prefix, c), [])
    ensures i < |s| && ReadAs(s, i, CharLit(prefix, c))
  {
    hide At, EscapedCharEnd, PieceAt, ReadAs, Newlines;
    var q := i + |prefix|;
    AtSplit(s, i, prefix + [APOSTROPHE] + c, [APOSTROPHE]);
    AtSplit(s, i, prefix + [APOSTROPHE], c);
    PrefixAt(s, i, prefix, APOSTROPHE);
    AtByte(s, q + 1, c, 0);
    AtByte(s, q + 1 + |c|, [APOSTROPHE], 0);
    PieceIsChar(s, i, q, q + 2 + |c|);
    NoNewlines(Text(CharLit(prefix, c)));
    ReadAsGap(s, i, CharLit(prefix, c), q + 2 + |c|);
  }

  lemma ReadEscapedChar(s: Bytes, i: nat, prefix: Bytes, escape: Bytes)
    requires At(s, i, Text(EscapedChar(prefix, escape))) && Good(EscapedChar(prefix, escape), [])
    ensures i < |s| && ReadAs(s, i, EscapedChar(prefix, escape))
  {
    EscapedTextQuiet(prefix, escape);
    EscapedCloses(s, i, prefix, escape);
    hide At, PieceAt, ReadAs, Newlines, Good;
    ReadAsGap(s, i, EscapedChar(prefix, escape), i + |prefix| + 3 + |escape|);
  }

  lemma EscapedCloses(s: Bytes, i: nat, prefix: Bytes, escape: Bytes)
    requires At(s, i, Text(EscapedChar(prefix, escape))) && Good(EscapedChar(prefix, escape), [])
    ensures i < |s| && PieceAt(s, i) == Literal(i + |prefix| + 3 + |escape|)
  {
    hide At, PieceAt, CharLiteralEnd, Text, Good, GoodChar, CharBytes;
    var body := Escaped(escape);
    EscapedText(prefix, escape);
    AtSplit(s, i, prefix + [APOSTROPHE], CharBytes(body));
    PrefixAt(s, i, prefix, APOSTROPHE);
    ScansChar(s, i + |prefix|, body);
    PieceIsChar(s, i, i + |prefix|, i + |prefix| + 3 + |escape|);
  }

  lemma EscapedText(prefix: Bytes, escape: Bytes)
    requires Good(EscapedChar(prefix, escape), [])
    ensures prefix == [] || prefix == [LOWER_B]
    ensures var body := Escaped(escape);
      && Text(EscapedChar(prefix, escape)) == (prefix + [APOSTROPHE]) + CharBytes(body)
      && |CharBytes(body)| == |escape| + 2 && GoodChar(body)
  {
    var open: Bytes := prefix + [APOSTROPHE];
    assert prefix + [APOSTROPHE, BACKSLASH] == open + [BACKSLASH];
    Regroup(open, [BACKSLASH], escape, [APOSTROPHE]);
  }

  lemma Regroup(a: Bytes, b: Bytes, c: Bytes, d: Bytes)
    ensures (a + b) + c + d == a + (b + c + d)
  {
  }

  lemma EscapedTextQuiet(prefix: Bytes, escape: Bytes)
    requires Good(EscapedChar(prefix, escape), [])
    ensures Newlines(Text(EscapedChar(prefix, escape))) == 0
  {
    hide Newlines;
    var t := Text(EscapedChar(prefix, escape));
    forall k | 0 <= k < |t| ensures t[k] != NEWLINE {
    }
    NoNewlines(t);
  }

  // A terminator inside a printed tail is one in the source, and the other way round.
  lemma TerminatorAt(s: Bytes, i: nat, t: Bytes, j: nat, hashes: nat)
    requires At(s, i, t) && j + 1 + hashes <= |t|
    ensures Terminator(s, i + j, hashes) <==> Terminator(t, j, hashes)
  {
    assert i + |t| <= |s|;
    forall k | 0 <= k < |t| ensures s[i + k] == t[k] {
      AtByte(s, i, t, k);
    }
    assert t[j + 1..j + 1 + hashes] == s[i + j + 1..i + j + 1 + hashes];
  }

  lemma RawTailEnds(hashes: nat, text: Bytes)
    ensures Terminator(RawTail(hashes, text), |text|, hashes)
  {
    assert RawTail(hashes, text)[|text| + 1..|text| + 1 + hashes] == Hashes(hashes);
  }

  lemma RawTailScans(s: Bytes, content: nat, hashes: nat, text: Bytes)
    requires At(s, content, RawTail(hashes, text))
    requires forall j :: 0 <= j < |text| ==> !Terminator(RawTail(hashes, text), j, hashes)
    ensures content + |text| + 1 + hashes <= |s|
    ensures RawEnd(s, content, hashes) == Some(content + |text| + 1 + hashes)
  {
    hide RawEnd;
    var tail := RawTail(hashes, text);
    RawTailEnds(hashes, text);
    forall j | 0 <= j <= |text| ensures Terminator(s, content + j, hashes) <==> Terminator(tail, j, hashes) {
      TerminatorAt(s, content, tail, j, hashes);
    }
    forall k | content <= k < content + |text| ensures !Terminator(s, k, hashes) {
      assert !Terminator(tail, k - content, hashes);
    }
    RawClosed(s, content, hashes, content + |text|);
  }

  lemma PieceIsRaw(s: Bytes, i: nat, raw: RawStart, e: nat)
    requires i < |s| && RawStringStart(s, i) == Some(raw) && RawEnd(s, raw.content, raw.hashes) == Some(e)
    requires !IsWhitespace(s[i]) && s[i] != SLASH
    ensures PieceAt(s, i) == Gap(e)
  {
    hide CommentEnd, LineEnd, RawEnd, QuotedEnd, IdentEnd, CharLiteralEnd, HashRun, RawStringStart;
  }

  lemma ReadRawStr(s: Bytes, i: nat, prefix: Bytes, hashes: nat, text: Bytes)
    requires At(s, i, Text(RawStr(prefix, hashes, text))) && Good(RawStr(prefix, hashes, text), [])
    ensures i < |s| && ReadAs(s, i, RawStr(prefix, hashes, text))
  {
    hide At, RawEnd, PieceAt, RawStringStart, Terminator, ReadAs, Newlines, AllHashes, Text, Hashes, RawTail, Good;
    var content := i + |prefix| + hashes + 1;
    RawText(prefix, hashes, text);
    AtSplit(s, i, prefix + Hashes(hashes) + [QUOTE], RawTail(hashes, text));
    RawTailScans(s, content, hashes, text);
    RawOpens(s, i, prefix, hashes);
    PieceIsRaw(s, i, RawStart(content, hashes), content + |text| + 1 + hashes);
    ReadAsGap(s, i, RawStr(prefix, hashes, text), content + |text| + 1 + hashes);
  }

  lemma RawText(prefix: Bytes, hashes: nat, text: Bytes)
    requires Good(RawStr(prefix, hashes, text), [])
    ensures prefix == [LOWER_R] || prefix == [LOWER_B, LOWER_R] || prefix == [LOWER_C, LOWER_R]
    ensures forall j :: 0 <= j < |text| ==> !Terminator(RawTail(hashes, text), j, hashes)
    ensures Text(RawStr(prefix, hashes, text)) == (prefix + Hashes(hashes) + [QUOTE]) + RawTail(hashes, text)
    ensures |Text(RawStr(prefix, hashes, text))| == |prefix| + 2 * hashes + |text| + 2
  {
    hide Terminator;
  }

  lemma RawOpens(s: Bytes, i: nat, prefix: Bytes, hashes: nat)
    requires prefix == [LOWER_R] || prefix == [LOWER_B, LOWER_R] || prefix == [LOWER_C, LOWER_R]
    requires At(s, i, prefix + Hashes(hashes) + [QUOTE])
    ensures i < |s| && RawStringStart(s, i) == Some(RawStart(i + |prefix| + hashes + 1, hashes))
    ensures !IsWhitespace(s[i]) && s[i] != SLASH
  {
    hide At, HashRun, Hashes;
    AtSplit(s, i, prefix + Hashes(hashes), [QUOTE]);
    AtSplit(s, i, prefix, Hashes(hashes));
    AtByte(s, i + |prefix| + hashes, [QUOTE], 0);
    HashesRun(s, i + |prefix|, hashes);
    RawPrefixHere(s, i, prefix);
  }

  lemma RawPrefixHere(s: Bytes, i: nat, prefix: Bytes)
    requires prefix == [LOWER_R] || prefix == [LOWER_B, LOWER_R] || prefix == [LOWER_C, LOWER_R]
    requires At(s, i, prefix)
    ensures i < |s| && RawPrefix(s, i) == |prefix| && !IsWhitespace(s[i]) && s[i] != SLASH
  {
    hide At;
    AtByte(s, i, prefix, 0);
    if |prefix| == 2 {
      AtByte(s, i, prefix, 1);
    }
  }

  lemma PrintedMeans(s: Bytes, i: nat, item: Item, rest: Bytes)
    requires PrintedAt(s, i, item, rest)
    ensures At(s, i, Text(item))
  {
  }

  lemma ReadItem(s: Bytes, i: nat, item: Item, rest: Bytes)
    requires PrintedAt(s, i, item, rest) && Good(item, rest) && !item.EscapedQuote?
    ensures i < |s| && ReadAs(s, i, item)
  {
    PrintedMeans(s, i, item, rest);
    hide PrintedAt, ReadAs, PieceAt, At, Text;
    match item
    case Blank(_) => ReadBlank(s, i, item, rest);
    case Mark(_) => ReadBlank(s, i, item, rest);
    case Ident(name) => ReadIdent(s, i, name, rest);
    case RawIdent(name) => ReadRawIdent(s, i, name, rest);
    case Tick => ReadTick(s, i, rest);
    case LineComment(text) => ReadLineComment(s, i, text, rest);
    case BlockComment(body) => ReadBlockComment(s, i, body);
    case Str(prefix, parts) => ReadStr(s, i, prefix, parts);
    case RawStr(prefix, hashes, text) => ReadRawStr(s, i, prefix, hashes, text);
    case CharLit(prefix, c) => ReadChar(s, i, prefix, c);
    case EscapedChar(prefix, escape) => ReadEscapedChar(s, i, prefix, escape);
  }

  // ---- The whole program -----------------------------------------------------------------------

  lemma {:induction false} ReadProgram(s: Bytes, i: nat, line: nat, items: seq<Item>)
    requires i <= |s| && s[i..] == Print(items) && GoodProgram(items)
    ensures Lexemes(s, i, line).Ok? && TokensOf(s, Lexemes(s, i, line).value) == Identifiers(items, line)
    decreases |items|
  {
    hide PieceAt, Text, Good, ReadAs, PrintedAt, At, Newlines;
    if items != [] {
      hide Lexemes, Identifiers, TokensOf;
      var item, rest := items[0], Print(items[1..]);
      var end := i + |Text(item)|;
      ItemIsPrinted(s, i, item, rest);
      ReadProgram(s, end, line + Newlines(Text(item)), items[1..]);
      if item.EscapedQuote? {
        QuoteIsShort(item, rest);
        ReadEscapedQuote(s, i, line, item.charPrefix, items[1..]);
      } else {
        ReadItem(s, i, item, rest);
        ReadStep(s, i, line, item, items[1..]);
      }
      assert [item] + items[1..] == items;
    } else {
      assert i == |s|;
    }
  }

  // The literal of the escaped apostrophe is read in two pieces: a literal that ends at the
  // escaped apostrophe, and the last apostrophe.
  lemma ReadEscapedQuote(s: Bytes, i: nat, line: nat, prefix: Bytes, items: seq<Item>)
    requires i + |prefix| + 4 <= |s| && s[i..] == Text(EscapedQuote(prefix)) + Print(items)
    requires Good(EscapedQuote(prefix), Print(items))
    requires var r := Lexemes(s, i + |prefix| + 4, line); r.Ok? && TokensOf(s, r.value) == Identifiers(items, line)
    ensures Lexemes(s, i, line).Ok?
    ensures TokensOf(s, Lexemes(s, i, line).value) == Identifiers([EscapedQuote(prefix)] + items, line)
  {
    hide PieceAt, ReadAs, At, Newlines, Lexemes, Identifiers, TokensOf, Print, Text, Good, NameOf;
    var first, middle := EscapedChar(prefix, []), i + |prefix| + 3;
    QuotePieces(s, i, prefix, Print(items));
    QuoteInTwo(prefix, items, line);
    ReadStep(s, middle, line, Tick, items);
    ReadStep(s, i, line, first, [Tick] + items);
  }

  lemma QuotePieces(s: Bytes, i: nat, prefix: Bytes, rest: Bytes)
    requires i <= |s| && s[i..] == Text(EscapedQuote(prefix)) + rest && Good(EscapedQuote(prefix), rest)
    ensures prefix == [] || prefix == [LOWER_B]
    ensures var first, middle := EscapedChar(prefix, []), i + |prefix| + 3;
      && middle < |s| && At(s, i, Text(first)) && ReadAs(s, i, first)
      && At(s, middle, Text(Tick)) && ReadAs(s, middle, Tick)
  {
    var first, tail := EscapedChar(prefix, []), Text(Tick) + rest;
    QuoteText(prefix, rest);
    hide PieceAt, ReadAs, PrintedAt, At, Text, Good;
    ItemIsPrinted(s, i, first, tail);
    ReadItem(s, i, first, tail);
    ItemIsPrinted(s, i + |prefix| + 3, Tick, rest);
    ReadItem(s, i + |prefix| + 3, Tick, rest);
  }

  lemma QuoteText(prefix: Bytes, rest: Bytes)
    requires Good(EscapedQuote(prefix), rest)
    ensures var first := EscapedChar(prefix, []);
      && Text(EscapedQuote(prefix)) + rest == Text(first) + (Text(Tick) + rest)
      && |Text(first)| == |prefix| + 3 && Good(first, Text(Tick) + rest) && Good(Tick, rest)
    ensures prefix == [] || prefix == [LOWER_B]
  {
    var first: Bytes, tick: Bytes := Text(EscapedChar(prefix, [])), [APOSTROPHE];
    assert Text(EscapedQuote(prefix)) == first + tick;
    assert (first + tick) + rest == first + (tick + rest);
  }

  lemma QuoteInTwo(prefix: Bytes, items: seq<Item>, line: nat)
    requires prefix == [] || prefix == [LOWER_B]
    ensures |Text(EscapedQuote(prefix))| == |prefix| + 4 && Newlines(Text(EscapedQuote(prefix))) == 0
    ensures |Text(EscapedChar(prefix, []))| == |prefix| + 3 && Newlines(Text(EscapedChar(prefix, []))) == 0
    ensures |Text(Tick)| == 1 && Newlines(Text(Tick)) == 0
    ensures Identifiers([EscapedQuote(prefix)] + items, line) == Identifiers([EscapedChar(prefix, [])] + ([Tick] + items), line)
  {
    hide Newlines, Identifiers;
    NoNewlines(Text(EscapedQuote(prefix)));
    NoNewlines(Text(EscapedChar(prefix, [])));
    NoNewlines(Text(Tick));
    OneIdentifierItem(EscapedQuote(prefix), items, line);
    OneIdentifierItem(EscapedChar(prefix, []), [Tick] + items, line);
    OneIdentifierItem(Tick, items, line);
  }

  lemma QuoteIsShort(item: Item, rest: Bytes)
    requires item.EscapedQuote? && Good(item, rest)
    ensures |Text(item)| == |item.charPrefix| + 4 && Newlines(Text(item)) == 0
  {
    NoNewlines(Text(item));
  }

  lemma OneIdentifierItem(item: Item, items: seq<Item>, line: nat)
    requires NameOf(item).None? && Newlines(Text(item)) == 0
    ensures Identifiers([item] + items, line) == Identifiers(items, line)
  {
    assert ([item] + items)[1..] == items;
  }

  // In a valid source the scanner always ends that literal one apostrophe early, and takes the last
  // apostrophe for itself exactly when nothing that follows closes a literal it would open.
  lemma EscapedQuoteExactly(s: Bytes, i: nat, prefix: Bytes)
    requires ValidUtf8(s) && (prefix == [] || prefix == [LOWER_B]) && At(s, i, Text(EscapedQuote(prefix)))
    ensures var last := i + |prefix| + 3;
      && last < |s| && PieceAt(s, i) == Literal(last)
      && (PieceAt(s, last) == Gap(last + 1) <==> forall body :: GoodChar(body) ==> !At(s, last + 1, CharBytes(body)))
  {
    hide At, ValidUtf8, CharLiteralEnd, GoodChar, CharBytes, PieceAt, RawStringStart;
    var last := i + |prefix| + 3;
    assert Text(EscapedQuote(prefix)) == Text(EscapedChar(prefix, [])) + [APOSTROPHE];
    AtSplit(s, i, Text(EscapedChar(prefix, [])), [APOSTROPHE]);
    AtByte(s, last, [APOSTROPHE], 0);
    EscapedCloses(s, i, prefix, []);
    StrayPiece(s, last);
    CharClosed(s, last);
  }

  // What the scanner makes of an apostrophe.
  lemma StrayPiece(s: Bytes, q: nat)
    requires q < |s| && s[q] == APOSTROPHE
    ensures PieceAt(s, q) == match CharLiteralEnd(s, q) case Some(e) => Literal(e) case None => Gap(q + 1)
  {
    NotRawBefore(s, q, q);
    hide CommentEnd, LineEnd, RawEnd, QuotedEnd, IdentEnd, CharLiteralEnd, RawStringStart;
  }

  // A program whose only identifier the guard misses, the pattern '\''|'"'|x|'"': the last apostrophe
  // of the escaped one opens a literal, and the quote behind it a string that reaches over the x.
  function Swallowing(): seq<Item> {
    [EscapedQuote([]), Mark(124), CharLit([], [QUOTE]), Mark(124), Ident([120]), Mark(124), CharLit([], [QUOTE])]
  }

  lemma EscapedQuoteSwallows()
    ensures Identifiers(Swallowing(), 1) == [Token([120], 1)] && Lexed(Print(Swallowing())) == Ok([])
  {
    hide Swallowing;
    var s: Bytes := [39, 92, 39, 39, 124, 39, 34, 39, 124, 120, 124, 39, 34, 39];
    SwallowingPrints(s);
    SwallowingIdentifiers();
    SwallowedScan(s);
  }

  lemma PrintFirst(item: Item, items: seq<Item>)
    ensures Print([item] + items) == Text(item) + Print(items)
  {
    assert ([item] + items)[1..] == items;
  }

  lemma SwallowingPrints(s: Bytes)
    requires s == [39, 92, 39, 39, 124, 39, 34, 39, 124, 120, 124, 39, 34, 39]
    ensures Print(Swallowing()) == s
  {
    hide Print;
    var bar, x, quote := Mark(124), Ident([120]), CharLit([], [QUOTE]);
    PrintNothing();
    PrintFirst(quote, []);
    PrintFirst(bar, [quote] + []);
    PrintFirst(x, [bar] + ([quote] + []));
    var arm := [x] + ([bar] + ([quote] + []));
    PrintFirst(bar, arm);
    PrintFirst(quote, [bar] + arm);
    PrintFirst(bar, [quote] + ([bar] + arm));
    PrintFirst(EscapedQuote([]), [bar] + ([quote] + ([bar] + arm)));
    assert Swallowing() == [EscapedQuote([])] + ([bar] + ([quote] + ([bar] + arm)));
  }

  lemma PrintNothing()
    ensures Print([]) == [] && Identifiers([], 1) == []
  {
  }

  lemma SwallowingIdentifiers()
    ensures Identifiers(Swallowing(), 1) == [Token([120], 1)]
  {
    hide Identifiers, Newlines;
    var bar, x, quote := Mark(124), Ident([120]), CharLit([], [QUOTE]);
    NoNewlines(Text(quote));
    NoNewlines(Text(bar));
    NoNewlines(Text(x));
    NoNewlines(Text(EscapedQuote([])));
    PrintNothing();
    OneIdentifierItem(quote, [], 1);
    OneIdentifierItem(bar, [quote] + [], 1);
    NamedItem(x, [bar] + ([quote] + []), 1);
    var arm := [x] + ([bar] + ([quote] + []));
    OneIdentifierItem(bar, arm, 1);
    OneIdentifierItem(quote, [bar] + arm, 1);
    OneIdentifierItem(bar, [quote] + ([bar] + arm), 1);
    OneIdentifierItem(EscapedQuote([]), [bar] + ([quote] + ([bar] + arm)), 1);
    assert Swallowing() == [EscapedQuote([])] + ([bar] + ([quote] + ([bar] + arm)));
  }

  lemma NamedItem(item: Item, items: seq<Item>, line: nat)
    requires NameOf(item).Some? && Newlines(Text(item)) == 0
    ensures Identifiers([item] + items, line) == [Token(NameOf(item).value, line)] + Identifiers(items, line)
  {
    assert ([item] + items)[1..] == items;
  }

  lemma SwallowedScan(s: Bytes)
    requires s == [39, 92, 39, 39, 124, 39, 34, 39, 124, 120, 124, 39, 34, 39]
    ensures Lexed(s) == Ok([])
  {
    SwallowedPieces(s);
    hide PieceAt, Newlines;
    NoNewlines(s[6..13]);
    NoNewlines(s[13..14]);
    assert Lexemes(s, 14, 1) == Ok([]);
    assert Lexemes(s, 13, 1) == Ok([]);
    assert Lexemes(s, 6, 1) == Ok([]);
    assert Lexemes(s, 3, 1) == Ok([]);
  }

  lemma SwallowedPieces(s: Bytes)
    requires s == [39, 92, 39, 39, 124, 39, 34, 39, 124, 120, 124, 39, 34, 39]
    ensures PieceAt(s, 0) == Literal(3) && PieceAt(s, 3) == Literal(6) && PieceAt(s, 6) == Gap(13) && PieceAt(s, 13) == Gap(14)
  {
    hide PieceAt;
    assert EscapedCharEnd(s, 2) == Some(3);
    StrayPiece(s, 0);
    StrayPiece(s, 3);
    StrayPiece(s, 13);
    assert QuotedEnd(s, 11) == Some(13);
    assert QuotedEnd(s, 9) == Some(13);
    assert QuotedEnd(s, 7) == Some(13);
    PieceIsString(s, 6, 6, 13);
  }

  lemma ItemIsPrinted(s: Bytes, i: nat, item: Item, rest: Bytes)
    requires i <= |s| && s[i..] == Text(item) + rest
    ensures i + |Text(item)| <= |s| && PrintedAt(s, i, item, rest)
    ensures At(s, i, Text(item)) && s[i + |Text(item)|..] == rest
  {
    assert |s[i..]| == |Text(item)| + |rest|;
    assert s[i..i + |Text(item)|] == s[i..][..|Text(item)|];
    assert s[i + |Text(item)|..] == s[i..][|Text(item)|..];
  }

  lemma ReadStep(s: Bytes, i: nat, line: nat, item: Item, rest: seq<Item>)
    requires i < |s| && At(s, i, Text(item)) && ReadAs(s, i, item)
    requires var r := Lexemes(s, i + |Text(item)|, line + Newlines(Text(item)));
             r.Ok? && TokensOf(s, r.value) == Identifiers(rest, line + Newlines(Text(item)))
    ensures Lexemes(s, i, line).Ok? && TokensOf(s, Lexemes(s, i, line).value) == Identifiers([item] + rest, line)
  {
    hide PieceAt, Text, Newlines;
    var end := i + |Text(item)|;
    var r := Lexemes(s, end, line + Newlines(Text(item)));
    assert ([item] + rest)[1..] == rest;
    if NameOf(item).Some? {
      var x := Lexeme(PieceAt(s, i).from, end, line);
      assert Lexemes(s, i, line) == Cons(x, r);
      TokensCons(s, [], x, r.value);
      assert TokenOf(s, x) == Token(NameOf(item).value, line);
    } else {
      assert Lexemes(s, i, line) == r;
    }
  }

  // The round trip: scanning a printed program gives back its identifiers and their lines.
  lemma RoundTrip(items: seq<Item>)
    requires GoodProgram(items)
    ensures Lexed(Print(items)) == Ok(Identifiers(items, 1))
  {
    var s := Print(items);
    assert s[0..] == s;
    ReadProgram(s, 0, 1, items);
  }

  // The guard reports a forbidden identifier exactly where the program uses one as code.
  lemma GuardSeesCodeOnly(items: seq<Item>)
    requires GoodProgram(items)
    ensures Lexed(Print(items)).Ok?
    ensures forall t :: t in Violations(Lexed(Print(items)).value) <==> t in Identifiers(items, 1) && IsForbidden(t.identifier)
  {
    hide IsForbidden, Lexed, GoodProgram;
    RoundTrip(items);
    ViolationsAre(Identifiers(items, 1));
  }

  lemma {:induction false} ViolationsAre(tokens: seq<Token>)
    ensures forall t :: t in Violations(tokens) <==> t in tokens && IsForbidden(t.identifier)
    decreases |tokens|
  {
    hide IsForbidden;
    if tokens != [] {
      var n := |tokens| - 1;
      ViolationsAre(tokens[..n]);
      assert tokens == tokens[..n] + [tokens[n]];
    }
  }

  // ---- Names -----------------------------------------------------------------------------------

  predicate Letter(b: byte) {
    'A' <= b as char <= 'Z' || 'a' <= b as char <= 'z' || b as char == '_' || b >= 128
  }

  // Letters, digits, underscores and whatever is not ASCII, not beginning with a digit, make one
  // identifier.
  lemma NameIsToken(name: Bytes)
    requires name != [] && Letter(name[0])
    requires forall k :: 0 <= k < |name| ==> Letter(name[k]) || '0' <= name[k] as char <= '9'
    ensures Lexed(name) == Ok([Token(name, 1)])
  {
    assert GoodName(name);
    PrintNothing();
    hide Print, Lexed, Identifiers, GoodName, Newlines;
    var items := [Ident(name)] + [];
    PrintFirst(Ident(name), []);
    assert Print(items) == name;
    assert items[1..] == [];
    assert GoodProgram(items);
    RoundTrip(items);
    QuietName(name);
    NamedItem(Ident(name), [], 1);
    assert Identifiers(items, 1) == [Token(name, 1)];
    assert Lexed(name) == Ok(Identifiers(items, 1));
  }

  lemma QuietName(name: Bytes)
    requires GoodName(name)
    ensures Newlines(name) == 0
  {
    NoNewlines(name);
  }

  // Each of the four names is reported where it stands alone.
  lemma ForbiddenIsReported(name: string)
    requires OneOfTheFour(name)
    ensures Lexed(Ascii(name)).Ok? && Violations(Lexed(Ascii(name)).value) == [Token(Ascii(name), 1)]
  {
    FourArePlain(name);
    hide OneOfTheFour, Lexed, Ascii, IsForbidden, Plain;
    PlainName(name);
    ReportedAlone(Ascii(name));
  }

  predicate OneOfTheFour(name: string) {
    || name == "VectorIndex"
    || name == "MemoryGraph"
    || name == "get_all_memories_by_namespace"
    || name == "get_all_memories_by_namespace_including_superseded"
  }

  lemma FourArePlain(name: string)
    requires OneOfTheFour(name)
    ensures Plain(name) && IsForbidden(Ascii(name))
  {
    hide Ascii, Plain;
    ShortNames();
    LongName();
    LongestName();
  }

  predicate Plain(name: string) {
    name != "" && forall k :: 0 <= k < |name| ==> 'A' <= name[k] <= 'Z' || 'a' <= name[k] <= 'z' || name[k] == '_'
  }

  lemma ShortNames()
    ensures Plain("VectorIndex") && Plain("MemoryGraph")
  {
  }

  lemma LongName()
    ensures Plain("get_all_memories_by_namespace")
  {
  }

  lemma LongestName()
    ensures Plain("get_all_memories_by_namespace_including_superseded")
  {
    var front, back := "get_all_memories_by_namespace", "_including_superseded";
    LongName();
    assert Plain(back);
    assert "get_all_memories_by_namespace_including_superseded" == front + back;
    hide Plain;
    PlainJoin(front, back);
  }

  lemma PlainJoin(front: string, back: string)
    requires Plain(front) && Plain(back)
    ensures Plain(front + back)
  {
  }

  lemma PlainName(name: string)
    requires Plain(name)
    ensures var bytes := Ascii(name); bytes != [] && forall k :: 0 <= k < |bytes| ==> Letter(bytes[k])
  {
    hide Ascii;
    var bytes := Ascii(name);
    forall k | 0 <= k < |bytes| ensures Letter(bytes[k]) {
      assert name[k] < 128 as char && bytes[k] as char == name[k];
    }
  }

  lemma ReportedAlone(name: Bytes)
    requires name != [] && IsForbidden(name) && forall k :: 0 <= k < |name| ==> Letter(name[k])
    ensures Lexed(name).Ok? && Violations(Lexed(name).value) == [Token(name, 1)]
  {
    hide Lexed, IsForbidden;
    NameIsToken(name);
    assert [Token(name, 1)][..0] == [];
  }

}
