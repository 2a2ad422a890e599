/** The first-paragraph cut: bytes are dropped from the end until what is left is valid UTF-8 (RFC 3629 section 4). */
module Utf8 {

  type Byte = b: int | 0 <= b < 256

  const LINE_FEED: Byte := 10
  const MAX_BYTES: nat := 200

  predicate Tail(b: Byte) {
    0x80 <= b <= 0xBF
  }

  /** The second bytes allowed after a first byte of a three- or four-byte character. */
  predicate SecondByte(first: Byte, second: Byte) {
    match first
    case 0xE0 => 0xA0 <= second <= 0xBF
    case 0xED => 0x80 <= second <= 0x9F
    case 0xF0 => 0x90 <= second <= 0xBF
    case 0xF4 => 0x80 <= second <= 0x8F
    case _ => Tail(second)
  }

  /** How many bytes the character with this first byte has; 0 when none starts so. */
  function Announced(first: Byte): (n: nat)
    ensures n <= 4
  {
    if first <= 0x7F then 1
    else if 0xC2 <= first <= 0xDF then 2
    else if 0xE0 <= first <= 0xEF then 3
    else if 0xF0 <= first <= 0xF4 then 4
    else 0
  }

  /** The length of the character that s starts with; 0 when it starts with none. */
  function CharLength(s: seq<Byte>): (n: nat)
    ensures n <= |s| && n <= 4
    ensures n > 0 ==> n == Announced(s[0]) && !Tail(s[0]) && forall i | 0 < i < n :: Tail(s[i])
  {
    if s == [] then 0
    else
      var n := Announced(s[0]);
      if n == 0 || |s| < n then 0
      else if n == 1 then 1
      else if SecondByte(s[0], s[1]) && (n < 3 || Tail(s[2])) && (n < 4 || Tail(s[3])) then n
      else 0
  }

  /** A sequence of characters, as utf8.ValidString reads it. */
  predicate Valid(s: seq<Byte>) {
    s == [] || (CharLength(s) > 0 && Valid(s[CharLength(s)..]))
  }

  /** Position i lies between two characters of s. */
  ghost predicate Boundary(s: seq<Byte>, i: nat)
    requires i <= |s|
  {
    i == 0 || (0 < CharLength(s) <= i && Boundary(s[CharLength(s)..], i - CharLength(s)))
  }

  /** Self-synchronisation: in valid text the boundaries are the end and the bytes that are not tail bytes. */
  lemma {:induction false} BoundaryIffNoTail(s: seq<Byte>, i: nat)
    requires Valid(s) && i <= |s|
    ensures Boundary(s, i) <==> i == |s| || !Tail(s[i])
  {
    var n := CharLength(s);
    if 0 < n <= i { BoundaryIffNoTail(s[n..], i - n); }
  }

  /** A prefix of valid text is valid exactly when it ends at a boundary. */
  lemma {:induction false} ValidPrefixIffBoundary(s: seq<Byte>, i: nat)
    requires Valid(s) && i <= |s|
    ensures Valid(s[..i]) <==> Boundary(s, i)
  {
    var n := CharLength(s);
    if i == 0 {
    } else {
      assert s[..i][0] == s[0];
      if n <= i {
        assert CharLength(s[..i]) == n && s[..i][n..] == s[n..][..i - n];
        ValidPrefixIffBoundary(s[n..], i - n);
      } else {
        assert CharLength(s[..i]) == 0;
      }
    }
  }

  /** No position is more than three bytes behind a boundary. */
  lemma {:induction false} BoundaryWithinThree(s: seq<Byte>, i: nat) returns (b: nat)
    requires Valid(s) && i <= |s|
    ensures b <= i <= b + 3 && Boundary(s, b)
  {
    var n := CharLength(s);
    if i < n || i == 0 {
      b := 0;
    } else {
      b := BoundaryWithinThree(s[n..], i - n);
      b := b + n;
    }
  }

  /* ---- what valid text is: the characters of RFC 3629 section 3, one after the other ---- */

  /** A Unicode code point that is not a surrogate. */
  predicate Scalar(c: int) {
    0 <= c <= 0x10FFFF && !(0xD800 <= c <= 0xDFFF)
  }

  /** A tail byte with the six bits of c that start at a unit. */
  function TailOf(c: nat): Byte {
    0x80 + c % 64
  }

  function Encode(c: int): (s: seq<Byte>)
    requires Scalar(c)
    ensures s != []
  {
    if c < 0x80 then [c]
    else if c < 0x800 then [0xC0 + c / 64, TailOf(c)]
    else if c < 0x10000 then [0xE0 + c / 64 / 64, TailOf(c / 64), TailOf(c)]
    else [0xF0 + c / 64 / 64 / 64, TailOf(c / 64 / 64), TailOf(c / 64), TailOf(c)]
  }

  function EncodeAll(cs: seq<int>): seq<Byte>
    requires forall i | 0 <= i < |cs| :: Scalar(cs[i])
  {
    if cs == [] then [] else Encode(cs[0]) + EncodeAll(cs[1..])
  }

  lemma EncodedIsChar(c: int, rest: seq<Byte>)
    requires Scalar(c)
    ensures CharLength(Encode(c) + rest) == |Encode(c)|
  {
  }

  /** a with the six bits of a tail byte behind it. */
  function Behind(a: int, tail: Byte): int {
    64 * a + (tail as int - 0x80)
  }

  lemma BehindIs(a: nat, tail: Byte)
    requires Tail(tail)
    ensures Behind(a, tail) / 64 == a && TailOf(Behind(a, tail)) == tail
  {
  }

  /** The code point that the first bytes stand for. */
  function CodeOf(s: seq<Byte>): int
    requires CharLength(s) > 0
  {
    var n := CharLength(s);
    if n == 1 then s[0]
    else if n == 2 then Behind(s[0] as int - 0xC0, s[1])
    else if n == 3 then Behind(Behind(s[0] as int - 0xE0, s[1]), s[2])
    else Behind(Behind(Behind(s[0] as int - 0xF0, s[1]), s[2]), s[3])
  }

  lemma CodeIsScalar(s: seq<Byte>)
    requires CharLength(s) > 0
    ensures var n, c := CharLength(s), CodeOf(s);
      Scalar(c) && match n
        case 1 => c < 0x80 && Encode(c) == [s[0]]
        case 2 => 0x80 <= c < 0x800 && 0xC0 <= s[0]
        case 3 => 0x800 <= c < 0x10000 && 0xE0 <= s[0]
        case _ => 0x10000 <= c && 0xF0 <= s[0]
  {
  }

  /** What is put behind can be taken off again. */
  lemma EncodedTwo(x: int, t1: Byte)
    requires Tail(t1) && 0x80 <= Behind(x, t1) < 0x800
    ensures Encode(Behind(x, t1)) == [0xC0 + x, t1]
  {
    BehindIs(x, t1);
  }

  lemma EncodedThree(x: nat, t1: Byte, t2: Byte)
    requires Tail(t1) && Tail(t2)
    requires var c := Behind(Behind(x, t1), t2); Scalar(c) && 0x800 <= c < 0x10000
    ensures Encode(Behind(Behind(x, t1), t2)) == [0xE0 + x, t1, t2]
  {
    BehindIs(x, t1);
    BehindIs(Behind(x, t1), t2);
    hide Behind, TailOf;
  }

  lemma EncodedFour(x: nat, t1: Byte, t2: Byte, t3: Byte)
    requires Tail(t1) && Tail(t2) && Tail(t3)
    requires var c := Behind(Behind(Behind(x, t1), t2), t3); Scalar(c) && 0x10000 <= c
    ensures Encode(Behind(Behind(Behind(x, t1), t2), t3)) == [0xF0 + x, t1, t2, t3]
  {
    BehindIs(x, t1);
    BehindIs(Behind(x, t1), t2);
    BehindIs(Behind(Behind(x, t1), t2), t3);
    hide Behind, TailOf;
  }

  lemma CharIsEncoded(s: seq<Byte>)
    requires CharLength(s) > 0
    ensures Scalar(CodeOf(s)) && Encode(CodeOf(s)) == s[..CharLength(s)]
  {
    CodeIsScalar(s);
    hide Encode, Behind, SecondByte;
    match CharLength(s)
    case 2 => EncodedTwo(s[0] as int - 0xC0, s[1]);
    case 3 => EncodedThree(s[0] as int - 0xE0, s[1], s[2]);
    case 4 => EncodedFour(s[0] as int - 0xF0, s[1], s[2], s[3]);
    case _ => assert s[..1] == [s[0]];
  }

  ghost predicate Spells(cs: seq<int>, s: seq<Byte>) {
    (forall i | 0 <= i < |cs| :: Scalar(cs[i])) && EncodeAll(cs) == s
  }

  lemma {:induction false} SpelledIsValid(cs: seq<int>)
    requires forall i | 0 <= i < |cs| :: Scalar(cs[i])
    ensures Valid(EncodeAll(cs))
  {
    if cs == [] {
    } else {
      hide Encode, CharLength;
      SpelledIsValid(cs[1..]);
      EncodedIsChar(cs[0], EncodeAll(cs[1..]));
      assert EncodeAll(cs)[|Encode(cs[0])|..] == EncodeAll(cs[1..]);
    }
  }

  lemma {:induction false} ValidIsSpelled(s: seq<Byte>) returns (cs: seq<int>)
    requires Valid(s)
    ensures Spells(cs, s)
  {
    hide Encode, CharLength, CodeOf, Scalar;
    cs := [];
    if s != [] {
      var n := CharLength(s);
      CharIsEncoded(s);
      var rest := ValidIsSpelled(s[n..]);
      cs := [CodeOf(s)] + rest;
      assert s == s[..n] + s[n..];
      assert cs[1..] == rest;
    }
  }

  /** Text is valid exactly when it is the encoding of a sequence of code points, none of them a surrogate. */
  lemma ValidIffEncoded(s: seq<Byte>)
    ensures Valid(s) <==> exists cs :: Spells(cs, s)
  {
    if Valid(s) { var cs := ValidIsSpelled(s); }
    if cs :| Spells(cs, s) { SpelledIsValid(cs); }
  }

  /** The longest valid prefix. */
  method SanitizeUTF8(s: seq<Byte>) returns (r: seq<Byte>)
    ensures r <= s && Valid(r)
    ensures forall i | |r| < i <= |s| :: !Valid(s[..i])
  {
    var i := |s|;
    while i > 0
      invariant 0 <= i <= |s|
      invariant forall j | i < j <= |s| :: !Valid(s[..j])
    {
      if Valid(s[..i]) {
        return s[..i];
      }
      i := i - 1;
    }
    return [];
  }

  /** strings.Index of a blank line; |s| when there is none. */
  function BreakIndex(s: seq<Byte>): (i: nat)
    ensures i <= |s|
    ensures i < |s| ==> i + 1 < |s| && s[i] == s[i + 1] == LINE_FEED
    ensures forall j | 0 <= j < i && j + 1 < |s| :: !(s[j] == s[j + 1] == LINE_FEED)
  {
    if |s| < 2 then |s| else if s[0] == s[1] == LINE_FEED then 0 else 1 + BreakIndex(s[1..])
  }

  /**
   * For valid text the cut is valid, ends between two characters of the text, and is the whole first paragraph or drops at
   * most three of its first 200 bytes.
   */
  lemma CutIsClean(text: seq<Byte>, r: seq<Byte>)
    requires Valid(text) && r <= text
    requires BreakIndex(text) <= MAX_BYTES ==> r == text[..BreakIndex(text)]
    requires BreakIndex(text) > MAX_BYTES ==> |r| <= MAX_BYTES && Valid(r) && forall i | |r| < i <= MAX_BYTES :: !Valid(text[..i])
    ensures Valid(r) && Boundary(text, |r|)
    ensures r == text[..BreakIndex(text)] || MAX_BYTES - 3 <= |r| <= MAX_BYTES
  {
    var idx := BreakIndex(text);
    if idx <= MAX_BYTES {
      BoundaryIffNoTail(text, idx);
      ValidPrefixIffBoundary(text, idx);
    } else {
      var b := BoundaryWithinThree(text, MAX_BYTES);
      ValidPrefixIffBoundary(text, b);
      assert r == text[..|r|];
      ValidPrefixIffBoundary(text, |r|);
    }
  }

  /**
   * The text up to the first blank line or 200 bytes, cut back to valid UTF-8. For valid text the result is valid, ends
   * between two characters, and is the whole first paragraph or all but at most three of its first 200 bytes.
   */
  method ExtractFirstParagraph(text: seq<Byte>) returns (r: seq<Byte>)
    ensures r <= text && |r| <= MAX_BYTES && |r| <= BreakIndex(text)
    ensures BreakIndex(text) <= MAX_BYTES ==> r == text[..BreakIndex(text)]
    ensures BreakIndex(text) > MAX_BYTES ==> Valid(r) && forall i | |r| < i <= MAX_BYTES :: !Valid(text[..i])
    ensures Valid(text) ==> Valid(r) && Boundary(text, |r|)
    ensures Valid(text) ==> r == text[..BreakIndex(text)] || MAX_BYTES - 3 <= |r| <= MAX_BYTES
  {
    var idx := BreakIndex(text);
    if idx == |text| { // no blank line
      if |text| > MAX_BYTES {
        r := SanitizeUTF8(text[..MAX_BYTES]);
        assert forall i | |r| < i <= MAX_BYTES :: text[..MAX_BYTES][..i] == text[..i];
      } else {
        r := text;
      }
    } else if idx > MAX_BYTES {
      r := SanitizeUTF8(text[..MAX_BYTES]);
      assert forall i | |r| < i <= MAX_BYTES :: text[..MAX_BYTES][..i] == text[..i];
    } else {
      r := text[..idx];
    }
    if Valid(text) {
      CutIsClean(text, r);
    }
  }
}
