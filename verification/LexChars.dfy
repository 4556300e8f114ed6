/** What a character literal looks like in a valid UTF-8 source, and the agreement of the scanner
    with that description in both directions. */
module LexChars {
  import opened Common
  import opened LexGrammar
  import opened LexLines
  import opened LexRules

  // After the opening apostrophe: one character, or a backslash and what it escapes.
  datatype CharBody = Single(c: Bytes) | Escaped(text: Bytes)

  predicate GoodChar(body: CharBody) {
    match body
    case Single(c) => c != [] && CharLen(c) == |c| && c[0] != BACKSLASH
    case Escaped(text) => forall k :: 0 <= k < |text| ==> text[k] != APOSTROPHE && text[k] != NEWLINE
  }

  // The body and its closing apostrophe.
  function CharBytes(body: CharBody): Bytes {
    match body
    case Single(c) => c + [APOSTROPHE]
    case Escaped(text) => [BACKSLASH] + (text + [APOSTROPHE])
  }

  // An escape ends at the next apostrophe on its line.
  lemma {:induction false} EscapeRun(s: Bytes, i: nat, t: Bytes)
    requires At(s, i, t) && (forall k :: 0 <= k < |t| ==> t[k] != APOSTROPHE && t[k] != NEWLINE)
    requires i + |t| < |s| && s[i + |t|] == APOSTROPHE
    ensures EscapedCharEnd(s, i) == Some(i + |t| + 1)
    decreases |t|
  {
    if t != [] {
      AtByte(s, i, t, 0);
      assert t == [t[0]] + t[1..];
      AtSplit(s, i, [t[0]], t[1..]);
      EscapeRun(s, i + 1, t[1..]);
    }
  }

  lemma {:induction false} EscapeText(s: Bytes, i: nat)
    requires i <= |s| && EscapedCharEnd(s, i).Some?
    ensures forall k :: i <= k < EscapedCharEnd(s, i).value - 1 ==> s[k] != APOSTROPHE
    decreases |s| - i
  {
    if s[i] != APOSTROPHE {
      EscapeText(s, i + 1);
    }
  }

  // A well-formed character needs no more than its own bytes.
  lemma PrefixChar(s: Bytes, n: nat)
    requires n <= |s| && CharLen(s) == n > 0
    ensures CharLen(s[..n]) == n
  {
  }

  lemma ScansSingle(s: Bytes, q: nat, c: Bytes)
    requires q < |s| && GoodChar(Single(c)) && At(s, q + 1, c + [APOSTROPHE])
    ensures CharLiteralEnd(s, q) == Some(q + 2 + |c|)
  {
    hide At, CharLen, EscapedCharEnd, Utf8CharLen;
    AtByte(s, q + 1, c + [APOSTROPHE], 0);
    AtByte(s, q + 1, c + [APOSTROPHE], |c|);
  }

  lemma ScansEscaped(s: Bytes, q: nat, text: Bytes)
    requires q < |s| && GoodChar(Escaped(text)) && At(s, q + 1, [BACKSLASH] + (text + [APOSTROPHE]))
    ensures CharLiteralEnd(s, q) == Some(q + 3 + |text|)
  {
    hide At, CharLen, EscapedCharEnd;
    AtSplit(s, q + 1, [BACKSLASH], text + [APOSTROPHE]);
    AtByte(s, q + 1, [BACKSLASH], 0);
    AtSplit(s, q + 2, text, [APOSTROPHE]);
    AtByte(s, q + 2 + |text|, [APOSTROPHE], 0);
    EscapeRun(s, q + 2, text);
  }

  lemma ScansChar(s: Bytes, q: nat, body: CharBody)
    requires q < |s| && GoodChar(body) && At(s, q + 1, CharBytes(body))
    ensures CharLiteralEnd(s, q) == Some(q + 1 + |CharBytes(body)|)
  {
    hide At, GoodChar, CharLiteralEnd;
    match body
    case Single(c) => ScansSingle(s, q, c);
    case Escaped(text) => ScansEscaped(s, q, text);
  }

  // After the apostrophe of a valid source comes one whole character.
  lemma CharFollows(s: Bytes, q: nat)
    requires ValidUtf8(s) && q + 1 < |s| && s[q] == APOSTROPHE
    ensures CharLen(s[q + 1..]) == Utf8CharLen(s[q + 1]) && CharLen(s[q + 1..]) > 0
  {
    hide CharLen, Utf8CharLen;
    ValidAfterAscii(s, q);
    assert s[q + 1..][0] == s[q + 1];
  }

  lemma ParsesEscaped(s: Bytes, q: nat) returns (body: CharBody)
    requires q + 1 < |s| && s[q + 1] == BACKSLASH && CharLiteralEnd(s, q).Some?
    ensures GoodChar(body) && At(s, q + 1, CharBytes(body))
  {
    hide EscapedCharEnd, At;
    var e := EscapedCharEnd(s, q + 2).value;
    EscapeText(s, q + 2);
    var text := s[q + 2..e - 1];
    forall k | 0 <= k < |text| ensures text[k] != APOSTROPHE && text[k] != NEWLINE {
      assert text[k] == s[q + 2 + k];
    }
    body := Escaped(text);
    AtOne(s, q + 1);
    AtSlice(s, q + 2, e - 1);
    AtOne(s, e - 1);
    AtSplit(s, q + 2, text, [APOSTROPHE]);
    AtSplit(s, q + 1, [BACKSLASH], text + [APOSTROPHE]);
  }

  lemma AtSlice(s: Bytes, i: nat, j: nat)
    requires i <= j <= |s|
    ensures At(s, i, s[i..j])
  {
  }

  lemma ParsesSingle(s: Bytes, q: nat) returns (body: CharBody)
    requires ValidUtf8(s) && q + 1 < |s| && s[q] == APOSTROPHE && s[q + 1] != BACKSLASH && CharLiteralEnd(s, q).Some?
    ensures GoodChar(body) && At(s, q + 1, CharBytes(body))
  {
    hide CharLen, Utf8CharLen, ValidUtf8;
    CharFollows(s, q);
    var rest := s[q + 1..];
    var n := CharLen(rest);
    PrefixChar(rest, n);
    body := Single(rest[..n]);
    assert s[q + 1..q + 2 + n] == CharBytes(body);
  }

  lemma ParsesChar(s: Bytes, q: nat) returns (body: CharBody)
    requires ValidUtf8(s) && q < |s| && s[q] == APOSTROPHE && CharLiteralEnd(s, q).Some?
    ensures GoodChar(body) && At(s, q + 1, CharBytes(body))
  {
    hide At, ValidUtf8, GoodChar, CharBytes;
    if s[q + 1] == BACKSLASH {
      body := ParsesEscaped(s, q);
    } else {
      body := ParsesSingle(s, q);
    }
  }

  // An apostrophe opens a character literal exactly when a well-formed body and a closing
  // apostrophe follow, and the literal ends there.
  lemma CharClosed(s: Bytes, q: nat)
    requires ValidUtf8(s) && q < |s| && s[q] == APOSTROPHE
    ensures CharLiteralEnd(s, q).Some? <==> exists body :: GoodChar(body) && At(s, q + 1, CharBytes(body))
    ensures forall body :: GoodChar(body) && At(s, q + 1, CharBytes(body)) ==>
      CharLiteralEnd(s, q) == Some(q + 1 + |CharBytes(body)|)
  {
    hide At, CharLen, ValidUtf8, GoodChar, CharBytes, CharLiteralEnd;
    if CharLiteralEnd(s, q).Some? {
      var body := ParsesChar(s, q);
    }
    forall body | GoodChar(body) && At(s, q + 1, CharBytes(body))
      ensures CharLiteralEnd(s, q) == Some(q + 1 + |CharBytes(body)|)
    {
      ScansChar(s, q, body);
    }
  }
}
