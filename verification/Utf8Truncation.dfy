/**
 Output truncation on UTF-8 bytes, with the encoding of section 3 of RFC 3629: text is cut after a
 number of bytes and decoded again, dropping what no longer decodes.
 */
module Utf8Truncation {
  import opened Options

  type CodePoint = c: int | 0 <= c < 0x110000
  type Byte = b: int | 0 <= b < 0x100

  /** The 15-character marker that ends truncated output. */
  const MARKER: seq<CodePoint> := [10, 46, 46, 46, 91, 116, 114, 117, 110, 99, 97, 116, 101, 100, 93]

  predicate Surrogate(c: CodePoint) {
    0xD800 <= c < 0xE000
  }

  /** One character; a lone surrogate has no encoding and is dropped. */
  function Encode(c: CodePoint): seq<Byte> {
    if Surrogate(c) then []
    else if c < 0x80 then [c]
    else if c < 0x800 then [0xC0 + c / 0x40, 0x80 + c % 0x40]
    else if c < 0x10000 then [0xE0 + c / 0x1000, 0x80 + c / 0x40 % 0x40, 0x80 + c % 0x40]
    else [0xF0 + c / 0x40000, 0x80 + c / 0x1000 % 0x40, 0x80 + c / 0x40 % 0x40, 0x80 + c % 0x40]
  }

  function EncodeAll(text: seq<CodePoint>): seq<Byte> {
    if text == [] then [] else Encode(text[0]) + EncodeAll(text[1..])
  }

  predicate Continuation(b: Byte) {
    0x80 <= b < 0xC0
  }

  /** The six payload bits of a continuation byte. */
  function Payload(b: Byte): int
    requires Continuation(b)
  {
    b as int - 0x80
  }

  predicate WellFormed2(a: Byte, b: Byte) {
    0xC2 <= a < 0xE0 && Continuation(b)
  }

  predicate WellFormed3(a: Byte, b: Byte, c: Byte) {
    && 0xE0 <= a < 0xF0 && Continuation(b) && Continuation(c)
    && (a == 0xE0 ==> 0xA0 <= b) && (a == 0xED ==> b < 0xA0)
  }

  predicate WellFormed4(a: Byte, b: Byte, c: Byte, d: Byte) {
    && 0xF0 <= a < 0xF5 && Continuation(b) && Continuation(c) && Continuation(d)
    && (a == 0xF0 ==> 0x90 <= b) && (a == 0xF4 ==> b < 0x90)
  }

  /** The character at the head of a byte string and its length, if the bytes there are well formed. */
  function DecodeHead(s: seq<Byte>): (r: Option<(CodePoint, nat)>)
    requires s != []
    ensures r.Some? ==> 1 <= r.value.1 <= |s|
  {
    var a := s[0] as int;
    if a < 0x80 then Some((a, 1))
    else if |s| >= 2 && WellFormed2(s[0], s[1]) then
      Some(((a - 0xC0) * 0x40 + Payload(s[1]), 2))
    else if |s| >= 3 && WellFormed3(s[0], s[1], s[2]) then
      Some(((a - 0xE0) * 0x1000 + Payload(s[1]) * 0x40 + Payload(s[2]), 3))
    else if |s| >= 4 && WellFormed4(s[0], s[1], s[2], s[3]) then
      Some(((a - 0xF0) * 0x40000 + Payload(s[1]) * 0x1000 + Payload(s[2]) * 0x40 + Payload(s[3]), 4))
    else None
  }

  /** Decoding that ignores errors: a byte that starts no well-formed character is skipped. */
  function Decode(s: seq<Byte>): seq<CodePoint>
    decreases |s|
  {
    if s == [] then []
    else match DecodeHead(s)
      case Some((c, n)) => [c] + Decode(s[n..])
      case None => Decode(s[1..])
  }

  /** Python's slice end for `encoded[:limit]`: a negative limit counts from the end. */
  function CutPoint(length: nat, limit: int): (k: nat)
    ensures k <= length
  {
    if limit >= 0 then (if limit <= length then limit else length)
    else if length + limit >= 0 then length + limit else 0
  }

  function Truncate(text: seq<CodePoint>, limit: int): seq<CodePoint> {
    var encoded := EncodeAll(text);
    if |encoded| <= limit then text
    else Decode(encoded[..CutPoint(|encoded|, limit)]) + MARKER
  }

  /** The text without lone surrogates. */
  function Scalars(text: seq<CodePoint>): seq<CodePoint> {
    if text == [] then []
    else (if Surrogate(text[0]) then [] else [text[0]]) + Scalars(text[1..])
  }

  predicate AllScalar(text: seq<CodePoint>) {
    forall i | 0 <= i < |text| :: !Surrogate(text[i])
  }

  lemma {:induction false} ScalarsEncodeTheSame(text: seq<CodePoint>)
    ensures EncodeAll(Scalars(text)) == EncodeAll(text) && AllScalar(Scalars(text))
    ensures AllScalar(text) ==> Scalars(text) == text
  {
    if text != [] {
      ScalarsEncodeTheSame(text[1..]);
      if Surrogate(text[0]) {
        assert Scalars(text) == Scalars(text[1..]);
        assert EncodeAll(text) == EncodeAll(text[1..]);
      } else {
        assert Scalars(text)[0] == text[0] && Scalars(text)[1..] == Scalars(text[1..]);
      }
    }
  }

  // Decoding what was encoded ----------------------------------------------------------------

  lemma ThreeBytes(c: CodePoint)
    requires 0x800 <= c < 0x10000 && !Surrogate(c)
    ensures WellFormed3(0xE0 + c / 0x1000, 0x80 + c / 0x40 % 0x40, 0x80 + c % 0x40)
    ensures c / 0x1000 * 0x1000 + c / 0x40 % 0x40 * 0x40 + c % 0x40 == c
  {
    var c1 := c / 0x40;
    assert c / 0x1000 == c1 / 0x40;
    assert c == c1 * 0x40 + c % 0x40 && c1 == c1 / 0x40 * 0x40 + c1 % 0x40;
  }

  lemma FourBytes(c: CodePoint)
    requires 0x10000 <= c
    ensures WellFormed4(0xF0 + c / 0x40000, 0x80 + c / 0x1000 % 0x40, 0x80 + c / 0x40 % 0x40, 0x80 + c % 0x40)
    ensures c / 0x40000 * 0x40000 + c / 0x1000 % 0x40 * 0x1000 + c / 0x40 % 0x40 * 0x40 + c % 0x40 == c
  {
    var c1, c2 := c / 0x40, c / 0x1000;
    assert c2 == c1 / 0x40 && c / 0x40000 == c2 / 0x40;
    assert c == c1 * 0x40 + c % 0x40 && c1 == c2 * 0x40 + c1 % 0x40 && c2 == c2 / 0x40 * 0x40 + c2 % 0x40;
    assert 0x10 <= c2 < 0x110;
  }

  lemma HeadOfEncoded(c: CodePoint, rest: seq<Byte>)
    requires !Surrogate(c)
    ensures 1 <= |Encode(c)| <= 4
    ensures DecodeHead(Encode(c) + rest) == Some((c, |Encode(c)|))
  {
    var code := Encode(c);
    var s := code + rest;
    assert s[0] == code[0];
    if 0x80 <= c < 0x800 {
      assert s[1] == code[1];
    } else if 0x800 <= c < 0x10000 {
      assert s[1] == code[1] && s[2] == code[2];
      ThreeBytes(c);
    } else if 0x10000 <= c {
      assert s[1] == code[1] && s[2] == code[2] && s[3] == code[3];
      FourBytes(c);
    }
  }

  /** The table of section 3 of RFC 3629: the length by the number, and the number from the bytes in order. */
  lemma EncodeForm(c: CodePoint)
    requires !Surrogate(c)
    ensures var e := Encode(c);
            && |e| == (if c < 0x80 then 1 else if c < 0x800 then 2 else if c < 0x10000 then 3 else 4)
            && (|e| == 1 ==> c == e[0])
            && (|e| == 2 ==> 0xC2 <= e[0] < 0xE0 && Continuation(e[1]) && c == (e[0] - 0xC0) * 0x40 + Payload(e[1]))
            && (|e| == 3 ==> 0xE0 <= e[0] < 0xF0 && Continuation(e[1]) && Continuation(e[2])
                             && c == (e[0] - 0xE0) * 0x1000 + Payload(e[1]) * 0x40 + Payload(e[2]))
            && (|e| == 4 ==> 0xF0 <= e[0] < 0xF5 && Continuation(e[1]) && Continuation(e[2]) && Continuation(e[3])
                             && c == (e[0] - 0xF0) * 0x40000 + Payload(e[1]) * 0x1000 + Payload(e[2]) * 0x40 + Payload(e[3]))
  {
    if 0x800 <= c < 0x10000 {
      ThreeBytes(c);
    } else if 0x10000 <= c {
      FourBytes(c);
    }
  }

  /**
   The decoder accepts nothing but encodings: no overlong form, no surrogate, nothing above the last
   code point (section 3 of RFC 3629).
   */
  lemma {:induction false} DecodedIsEncoded(s: seq<Byte>)
    requires s != [] && DecodeHead(s).Some?
    ensures var (c, n) := DecodeHead(s).value; !Surrogate(c) && Encode(c) == s[..n]
  {
    var (c, n) := DecodeHead(s).value;
    if n == 2 {
      EncodesTwo(s[0], s[1]);
    } else if n == 3 {
      EncodesThree(s[0], s[1], s[2]);
    } else if n == 4 {
      EncodesFour(s[0], s[1], s[2], s[3]);
    }
  }

  lemma EncodesTwo(a: Byte, b: Byte)
    requires WellFormed2(a, b)
    ensures var p := (a - 0xC0) * 0x40 + Payload(b); Encode(p) == [a, b]
  {
    var p := (a - 0xC0) * 0x40 + Payload(b);
    assert p / 0x40 == a - 0xC0 && p % 0x40 == Payload(b);
  }

  lemma EncodesThree(a: Byte, b: Byte, c: Byte)
    requires WellFormed3(a, b, c)
    ensures var p := (a - 0xE0) * 0x1000 + Payload(b) * 0x40 + Payload(c); !Surrogate(p) && Encode(p) == [a, b, c]
  {
    DigitsBack(Payload(b), Payload(c), a - 0xE0);
  }

  lemma EncodesFour(a: Byte, b: Byte, c: Byte, d: Byte)
    requires WellFormed4(a, b, c, d)
    ensures var p := (a - 0xF0) * 0x40000 + Payload(b) * 0x1000 + Payload(c) * 0x40 + Payload(d);
            p < 0x110000 && !Surrogate(p) && Encode(p) == [a, b, c, d]
  {
    var hi := (a - 0xF0) * 0x40 + Payload(b);
    var p := hi * 0x1000 + Payload(c) * 0x40 + Payload(d);
    DigitsBack(Payload(c), Payload(d), hi);
    assert p / 0x40000 == p / 0x1000 / 0x40 == hi / 0x40;
  }

  /** The groups of six bits of a number put together from them. */
  lemma DigitsBack(mid: int, low: int, hi: int)
    requires 0 <= mid < 0x40 && 0 <= low < 0x40 && 0 <= hi
    ensures var c := hi * 0x1000 + mid * 0x40 + low; c / 0x1000 == hi && c / 0x40 % 0x40 == mid && c % 0x40 == low
  {
    var c := hi * 0x1000 + mid * 0x40 + low;
    assert c == 0x40 * (hi * 0x40 + mid) + low;
    assert c / 0x40 == hi * 0x40 + mid;
  }

  /** Continuation bytes on their own decode to nothing. */
  lemma {:induction false} ContinuationsVanish(s: seq<Byte>)
    requires forall i | 0 <= i < |s| :: Continuation(s[i])
    ensures Decode(s) == []
  {
    if s != [] {
      ContinuationsVanish(s[1..]);
    }
  }

  /** A character that lost its last bytes decodes to nothing. */
  lemma BrokenCharacterVanishes(c: CodePoint, k: nat)
    requires k < |Encode(c)|
    ensures Decode(Encode(c)[..k]) == []
  {
    if k > 0 {
      var s := Encode(c)[..k];
      assert s[0] == Encode(c)[0];
      assert DecodeHead(s) == None;
      ContinuationsVanish(s[1..]);
    }
  }

  /** How many whole characters fit into `n` bytes. */
  function Fit(text: seq<CodePoint>, n: nat): (k: nat)
    ensures k <= |text|
  {
    if text == [] || |Encode(text[0])| > n then 0
    else 1 + Fit(text[1..], n - |Encode(text[0])|)
  }

  lemma DecodeOneMore(c: CodePoint, tail: seq<Byte>)
    requires !Surrogate(c)
    ensures Decode(Encode(c) + tail) == [c] + Decode(tail)
  {
    HeadOfEncoded(c, tail);
    assert (Encode(c) + tail)[|Encode(c)|..] == tail;
  }

  /** Cutting the bytes and decoding gives the characters that fit whole. */
  lemma {:induction false} CutDecodes(text: seq<CodePoint>, n: nat)
    requires AllScalar(text) && n <= |EncodeAll(text)|
    ensures Decode(EncodeAll(text)[..n]) == text[..Fit(text, n)]
    decreases |text|
  {
    if text != [] {
      var head, rest := Encode(text[0]), EncodeAll(text[1..]);
      if |head| <= n {
        CutDecodes(text[1..], n - |head|);
        CutAfterHead(head, rest, n);
        DecodeOneMore(text[0], rest[..n - |head|]);
        OneMoreCharacter(text, Fit(text[1..], n - |head|));
      } else {
        assert EncodeAll(text)[..n] == head[..n];
        BrokenCharacterVanishes(text[0], n);
      }
    }
  }

  lemma CutAfterHead(head: seq<Byte>, rest: seq<Byte>, n: nat)
    requires |head| <= n <= |head + rest|
    ensures (head + rest)[..n] == head + rest[..n - |head|]
  {
  }

  lemma OneMoreCharacter(text: seq<CodePoint>, k: nat)
    requires k < |text|
    ensures text[..1 + k] == [text[0]] + text[1..][..k]
  {
  }

  /** Encoding and decoding is the identity on scalar values. */
  lemma {:induction false} DecodeEncode(text: seq<CodePoint>)
    requires AllScalar(text)
    ensures Decode(EncodeAll(text)) == text
  {
    var n := |EncodeAll(text)|;
    CutDecodes(text, n);
    assert EncodeAll(text)[..n] == EncodeAll(text);
    WholeTextFits(text);
  }

  lemma {:induction false} WholeTextFits(text: seq<CodePoint>)
    ensures Fit(text, |EncodeAll(text)|) == |text|
  {
    if text != [] {
      WholeTextFits(text[1..]);
    }
  }

  lemma {:induction false} EncodeConcat(a: seq<CodePoint>, b: seq<CodePoint>)
    ensures EncodeAll(a + b) == EncodeAll(a) + EncodeAll(b)
  {
    if a == [] {
      assert a + b == b;
    } else {
      assert (a + b)[1..] == a[1..] + b;
      EncodeConcat(a[1..], b);
    }
  }

  lemma EncodePrefix(text: seq<CodePoint>, k: nat)
    requires k < |text|
    ensures |EncodeAll(text[..1 + k])| == |Encode(text[0])| + |EncodeAll(text[1..][..k])|
  {
    OneMoreCharacter(text, k);
    assert ([text[0]] + text[1..][..k])[1..] == text[1..][..k];
  }

  /** The prefix that fits is the longest one that does, and leaves less than one character free. */
  lemma {:induction false} FitIsLongest(text: seq<CodePoint>, n: nat, k: nat)
    requires AllScalar(text) && k <= |text|
    ensures |EncodeAll(text[..Fit(text, n)])| <= n
    ensures |EncodeAll(text[..k])| <= n <==> k <= Fit(text, n)
    ensures Fit(text, n) < |text| ==> n - 4 < |EncodeAll(text[..Fit(text, n)])|
    decreases |text|
  {
    if text != [] {
      HeadOfEncoded(text[0], []);
      var m := |Encode(text[0])|;
      if k > 0 {
        EncodePrefix(text, k - 1);
      }
      if m <= n {
        FitIsLongest(text[1..], n - m, if k > 0 then k - 1 else 0);
        EncodePrefix(text, Fit(text[1..], n - m));
      }
    }
  }

  /** The longest whole-character prefix of `text` whose encoding has at most `n` bytes. */
  predicate LongestPrefix(text: seq<CodePoint>, n: nat, p: seq<CodePoint>) {
    && p <= text
    && |EncodeAll(p)| <= n
    && forall k | |p| < k <= |text| :: |EncodeAll(text[..k])| > n
  }

  lemma FitIsLongestPrefix(text: seq<CodePoint>, n: nat)
    requires AllScalar(text) && n <= |EncodeAll(text)|
    ensures LongestPrefix(text, n, text[..Fit(text, n)])
    ensures n - 4 < |EncodeAll(text[..Fit(text, n)])|
  {
    var f := Fit(text, n);
    FitIsLongest(text, n, f);
    forall k | f < k <= |text| ensures |EncodeAll(text[..k])| > n {
      FitIsLongest(text, n, k);
    }
    if f == |text| {
      assert text[..f] == text;
    }
  }

  lemma {:induction false} AsciiBytes(text: seq<CodePoint>)
    requires forall i | 0 <= i < |text| :: text[i] < 0x80
    ensures |EncodeAll(text)| == |text|
  {
    if text != [] {
      AsciiBytes(text[1..]);
    }
  }

  lemma AsciiSuffix(p: seq<CodePoint>, marker: seq<CodePoint>)
    requires forall i | 0 <= i < |marker| :: marker[i] < 0x80
    ensures |EncodeAll(p + marker)| == |EncodeAll(p)| + |marker|
  {
    EncodeConcat(p, marker);
    AsciiBytes(marker);
  }

  /**
   Truncation for every text and every limit: the text itself if its encoding fits, otherwise the
   longest whole-character prefix of at most `limit` bytes, more than limit - 4 bytes long, and the
   marker, which adds 15 bytes. A negative limit counts from the end of the encoding, as Python's
   slices do.
   */
  lemma {:induction false} TruncateIsLongestPrefix(text: seq<CodePoint>, limit: int) returns (p: seq<CodePoint>)
    ensures |EncodeAll(text)| <= limit ==> Truncate(text, limit) == text
    ensures |EncodeAll(text)| > limit ==>
              Truncate(text, limit) == p + MARKER && |EncodeAll(Truncate(text, limit))| == |EncodeAll(p)| + 15
    ensures 0 <= limit < |EncodeAll(text)| ==>
              && p <= Scalars(text) && limit - 4 < |EncodeAll(p)| <= limit
              && forall k | |p| < k <= |Scalars(text)| :: |EncodeAll(Scalars(text)[..k])| > limit
    ensures limit < 0 && 0 <= |EncodeAll(text)| + limit ==>
              var cut := |EncodeAll(text)| + limit;
              && p <= Scalars(text) && cut - 4 < |EncodeAll(p)| <= cut
              && forall k | |p| < k <= |Scalars(text)| :: |EncodeAll(Scalars(text)[..k])| > cut
    ensures |EncodeAll(text)| + limit < 0 ==> p == []
  {
    p := text;
    ScalarsEncodeTheSame(text);
    if |EncodeAll(text)| > limit {
      var cut := CutPoint(|EncodeAll(text)|, limit);
      CutDecodes(Scalars(text), cut);
      FitIsLongestPrefix(Scalars(text), cut);
      p := Scalars(text)[..Fit(Scalars(text), cut)];
      AsciiSuffix(p, MARKER);
      if cut == 0 {
        NothingFitsNothing(Scalars(text));
      }
    }
  }

  lemma {:induction false} NothingFitsNothing(text: seq<CodePoint>)
    requires AllScalar(text)
    ensures Fit(text, 0) == 0
  {
    if text != [] {
      HeadOfEncoded(text[0], []);
    }
  }
}
