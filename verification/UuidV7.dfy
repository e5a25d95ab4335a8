/** Bitwise operations on natural numbers, as Python's unbounded integers have them. */
module Bits {
  function Pow2(k: nat): (p: nat)
    ensures p > 0
  {
    if k == 0 then 1 else 2 * Pow2(k - 1)
  }

  function ShiftLeft(x: nat, k: nat): nat {
    if k == 0 then x else 2 * ShiftLeft(x, k - 1)
  }

  function ShiftRight(x: nat, k: nat): nat {
    if k == 0 then x else ShiftRight(x / 2, k - 1)
  }

  /** Bit by bit, least significant first. */
  function Or(a: nat, b: nat): nat {
    if a == 0 && b == 0 then 0
    else 2 * Or(a / 2, b / 2) + if a % 2 == 1 || b % 2 == 1 then 1 else 0
  }

  function And(a: nat, b: nat): nat {
    if a == 0 && b == 0 then 0
    else 2 * And(a / 2, b / 2) + if a % 2 == 1 && b % 2 == 1 then 1 else 0
  }

  lemma {:induction false} OrZero(a: nat)
    ensures Or(a, 0) == a
  {
    if a > 0 {
      OrZero(a / 2);
    }
  }

  /** Or-ing in a value below the shift fills the free low bits: it is addition. */
  lemma {:induction false} OrIntoLowBits(a: nat, b: nat, k: nat)
    requires b < Pow2(k)
    ensures Or(ShiftLeft(a, k), b) == ShiftLeft(a, k) + b
    decreases k
  {
    if k == 0 {
      OrZero(a);
    } else {
      OrIntoLowBits(a, b / 2, k - 1);
    }
  }

  /** A field of `width` bits stays below bit k + width when shifted by k. */
  lemma {:induction false} ShiftedFits(x: nat, k: nat, width: nat)
    requires x < Pow2(width)
    ensures ShiftLeft(x, k) < Pow2(k + width)
    decreases k
  {
    if k > 0 {
      ShiftedFits(x, k - 1, width);
    }
  }

  /** The low k bits of a number. */
  function LowBits(x: nat, k: nat): nat {
    if k == 0 then 0 else 2 * LowBits(x / 2, k - 1) + x % 2
  }

  /** And-ing with k one-bits keeps the low k bits. */
  lemma {:induction false} AndMask(x: nat, k: nat)
    ensures And(x, Pow2(k) - 1) == LowBits(x, k)
    decreases k
  {
    if k == 0 {
      AndZero(x);
    } else {
      AndMask(x / 2, k - 1);
      var p := Pow2(k - 1);
      assert (2 * p - 1) / 2 == p - 1 && (2 * p - 1) % 2 == 1;
    }
  }

  lemma {:induction false} AndZero(a: nat)
    ensures And(a, 0) == 0
  {
    if a > 0 {
      AndZero(a / 2);
    }
  }

  /** A number is its high bits shifted back plus its low bits. */
  lemma {:induction false} HighAndLow(x: nat, k: nat)
    ensures x == ShiftLeft(ShiftRight(x, k), k) + LowBits(x, k)
    ensures LowBits(x, k) < Pow2(k)
    decreases k
  {
    if k > 0 {
      HighAndLow(x / 2, k - 1);
    }
  }

  lemma {:induction false} ShiftLeftIs(x: nat, k: nat, p: nat)
    requires p == Pow2(k)
    ensures ShiftLeft(x, k) == x * p
    decreases k
  {
    if k > 0 {
      var half := Pow2(k - 1);
      ShiftLeftIs(x, k - 1, half);
      assert x * (2 * half) == 2 * (x * half);
    }
  }

  /** Shifting right divides and masking takes the remainder. */
  lemma ShiftRightIs(x: nat, k: nat, p: nat)
    requires p == Pow2(k)
    ensures ShiftRight(x, k) == x / p && LowBits(x, k) == x % p
  {
    HighAndLow(x, k);
    ShiftLeftIs(ShiftRight(x, k), k, p);
    RemainderIs(x, p, ShiftRight(x, k), LowBits(x, k));
  }

  lemma RemainderIs(x: nat, d: nat, q: nat, r: nat)
    requires r < d && x == q * d + r
    ensures x / d == q && x % d == r
  {
    assert x == d * (x / d) + x % d;
    var e: int := x / d - q;
    assert d * e == r - x % d;
    OnlyZeroIsSmall(d, e);
  }

  lemma OnlyZeroIsSmall(d: int, e: int)
    requires -d < d * e < d
    ensures e == 0
  {
  }

  lemma {:induction false} Pow2Adds(a: nat, b: nat)
    ensures Pow2(a + b) == Pow2(a) * Pow2(b)
    decreases a
  {
    if a > 0 {
      Pow2Adds(a - 1, b);
    }
  }
}

/**
 UUID version 7 as the repository mints it (sections 4.1, 4.2 and 5.7 of RFC 9562): 48 bits of Unix
 milliseconds, the version, 12 random bits, the variant and 62 random bits.
 */
module UuidV7 {
  import opened Options
  import opened Bits

  const P48 := 0x1_0000_0000_0000
  const P62 := 0x4000_0000_0000_0000
  const P64 := 0x1_0000_0000_0000_0000
  const P76 := 0x1000_0000_0000_0000_0000
  const P80 := 0x1_0000_0000_0000_0000_0000
  const P128 := 0x1_0000_0000_0000_0000_0000_0000_0000_0000

  lemma PowerSum(a: nat, x: nat, b: nat, y: nat, c: nat)
    requires Pow2(a) == x && Pow2(b) == y && c == a + b
    ensures Pow2(c) == x * y
  {
    Pow2Adds(a, b);
  }

  /** The powers of two that occur in the layout. */
  lemma Powers()
    ensures Power(2, 4) && Power(4, 16) && Power(12, 0x1000)
    ensures Power(48, P48) && Power(62, P62) && Power(64, P64) && Power(76, P76) && Power(80, P80)
  {
    var two, four: nat := 2, 4;
    assert Pow2(two) == 4;
    PowerSum(two, 4, two, 4, four);
    var p8, p12, p16, p32, p48, p60, p62, p64, p76, p80 := 8, 12, 16, 32, 48, 60, 62, 64, 76, 80;
    PowerSum(four, 16, four, 16, p8);
    PowerSum(p8, 0x100, four, 16, p12);
    PowerSum(p8, 0x100, p8, 0x100, p16);
    PowerSum(p16, 0x1_0000, p16, 0x1_0000, p32);
    PowerSum(p32, 0x1_0000_0000, p16, 0x1_0000, p48);
    PowerSum(p48, P48, p12, 0x1000, p60);
    PowerSum(p60, 0x1000_0000_0000_0000, two, 4, p62);
    PowerSum(p60, 0x1000_0000_0000_0000, four, 16, p64);
    PowerSum(p64, P64, p12, 0x1000, p76);
    PowerSum(p76, P76, four, 16, p80);
  }

  predicate Power(k: nat, x: nat) {
    Pow2(k) == x
  }

  /** The value with the given time and random fields. */
  function Layout(ms: nat, randA: nat, randB: nat): nat {
    ms * P80 + 7 * P76 + randA * P64 + 2 * P62 + randB
  }

  function TimeOf(v: nat): nat { v / P80 }
  function VersionOf(v: nat): nat { v / P76 % 16 }
  function RandAOf(v: nat): nat { v / P64 % 0x1000 }
  function VariantOf(v: nat): nat { v / P62 % 4 }
  function RandBOf(v: nat): nat { v % P62 }

  /** The check on a parsed UUID: version 7 under the RFC variant. */
  predicate IsUuidV7(v: nat) {
    VersionOf(v) == 7 && VariantOf(v) == 2
  }

  /**
   Builds the value by successive shifts and ors from the clock and 80 random bits. Every field
   ends up where the layout says, and nothing else.
   */
  method Uuid7(clockMs: nat, rand: nat) returns (value: nat)
    ensures value == Layout(clockMs % P48, rand / P64 % 0x1000, rand % P62)
  {
    Powers();
    var unixMs := And(clockMs, Pow2(48) - 1);
    AndMask(clockMs, 48);
    ShiftRightIs(clockMs, 48, P48);
    var randA := And(ShiftRight(rand, 64), Pow2(12) - 1);
    ShiftRightIs(rand, 64, P64);
    AndMask(rand / P64, 12);
    ShiftRightIs(rand / P64, 12, 0x1000);
    var randB := And(rand, Pow2(62) - 1);
    AndMask(rand, 62);
    ShiftRightIs(rand, 62, P62);
    value := Assemble(unixMs, randA, randB);
  }

  method Assemble(unixMs: nat, randA: nat, randB: nat) returns (value: nat)
    requires randA < 0x1000 && randB < P62
    ensures value == Layout(unixMs, randA, randB)
  {
    Powers();
    value := ShiftLeft(unixMs, 80);
    ShiftLeftIs(unixMs, 80, P80);
    value := OrField(value, 7, 76, P76, unixMs, 4, P80);
    value := OrField(value, randA, 64, P64, unixMs * 16 + 7, 12, P76);
    value := OrField(value, 2, 62, P62, (unixMs * 16 + 7) * 0x1000 + randA, 2, P64);
    value := OrField(value, randB, 0, 1, ((unixMs * 16 + 7) * 0x1000 + randA) * 4 + 2, 62, P62);
  }

  /** `value |= field << k` where the value has only zeros below bit k + width. */
  method OrField(value: nat, field: nat, k: nat, ghost p: nat, ghost high: nat, ghost width: nat, ghost q: nat)
    returns (r: nat)
    requires p == Pow2(k) && q == Pow2(k + width)
    requires field < Pow2(width) && value == high * q
    ensures r == value + field * p
  {
    ShiftLeftIs(high, k + width, q);
    ShiftLeftIs(field, k, p);
    ShiftedFits(field, k, width);
    OrIntoLowBits(high, ShiftLeft(field, k), k + width);
    r := Or(value, ShiftLeft(field, k));
  }

  /** Every field can be read back from the value, which fits in 128 bits and passes the check. */
  lemma FieldsOfLayout(ms: nat, randA: nat, randB: nat)
    requires ms < P48 && randA < 0x1000 && randB < P62
    ensures var v := Layout(ms, randA, randB);
            && v < P128 && IsUuidV7(v)
            && TimeOf(v) == ms && RandAOf(v) == randA && RandBOf(v) == randB
  {
    var v := Layout(ms, randA, randB);
    var upper76 := ms * 16 + 7;
    var upper64 := upper76 * 0x1000 + randA;
    var upper62 := upper64 * 4 + 2;
    RemainderIs(v, P80, ms, v - ms * P80);
    RemainderIs(v, P76, upper76, v - upper76 * P76);
    RemainderIs(upper76, 16, ms, 7);
    RemainderIs(v, P64, upper64, v - upper64 * P64);
    RemainderIs(upper64, 0x1000, upper76, randA);
    RemainderIs(v, P62, upper62, randB);
    RemainderIs(upper62, 4, upper64, 2);
  }

  /** A value that passes the check is the layout of its own fields. */
  lemma LayoutOfFields(v: nat)
    requires v < P128 && IsUuidV7(v)
    ensures v == Layout(TimeOf(v), RandAOf(v), RandBOf(v))
    ensures TimeOf(v) < P48
  {
    var a, b, c := v / P62, v / P64, v / P76;
    assert v == P62 * a + v % P62;
    assert a == 4 * (a / 4) + 2;
    RemainderIs(v, P64, a / 4, P62 * 2 + v % P62);
    assert b == 0x1000 * (b / 0x1000) + b % 0x1000;
    RemainderIs(v, P76, b / 0x1000, P64 * (b % 0x1000) + P62 * 2 + v % P62);
    assert c == 16 * (c / 16) + 7;
    RemainderIs(v, P80, c / 16, P76 * 7 + P64 * (b % 0x1000) + P62 * 2 + v % P62);
  }

  // ---------------------------------------------------------------------------------------
  // Hexadecimal text and its order
  // ---------------------------------------------------------------------------------------

  function Pow16(k: nat): (p: nat)
    ensures p > 0
  {
    if k == 0 then 1 else 16 * Pow16(k - 1)
  }

  function HexChar(d: nat): char
    requires d < 16
  {
    if d < 10 then '0' + d as char else 'a' + (d - 10) as char
  }

  /** The last n hexadecimal digits, most significant first. */
  function Hex(v: nat, n: nat): (s: string)
    ensures |s| == n
  {
    if n == 0 then [] else Hex(v / 16, n - 1) + [HexChar(v % 16)]
  }

  /** Python's order on strings. */
  ghost predicate Before(a: string, b: string) {
    exists i | 0 <= i < |a| && i < |b| :: a[..i] == b[..i] && a[i] < b[i]
  }

  lemma BeforeAppend(a: string, b: string, c: string, d: string)
    requires Before(a, b)
    ensures Before(a + c, b + d)
  {
    var i :| 0 <= i < |a| && i < |b| && a[..i] == b[..i] && a[i] < b[i];
    assert (a + c)[..i] == a[..i] && (b + d)[..i] == b[..i];
    assert (a + c)[i] == a[i] && (b + d)[i] == b[i];
  }

  /** On texts of equal length, number order is text order. */
  lemma {:induction false} HexOrder(x: nat, y: nat, n: nat)
    requires x < y < Pow16(n)
    ensures Before(Hex(x, n), Hex(y, n))
    decreases n
  {
    if x / 16 < y / 16 {
      HexOrder(x / 16, y / 16, n - 1);
      BeforeAppend(Hex(x / 16, n - 1), Hex(y / 16, n - 1), [HexChar(x % 16)], [HexChar(y % 16)]);
    } else {
      DigitOrder(x % 16, y % 16);
      BeforeLast(Hex(x / 16, n - 1), HexChar(x % 16), HexChar(y % 16));
    }
  }

  lemma BeforeLast(p: string, c: char, d: char)
    requires c < d
    ensures Before(p + [c], p + [d])
  {
    var a, b := p + [c], p + [d];
    assert a[..|p|] == p && b[..|p|] == p && a[|p|] == c && b[|p|] == d;
  }

  lemma DigitOrder(d: nat, e: nat)
    requires d < e < 16
    ensures HexChar(d) < HexChar(e)
  {
  }

  /** The value without its last j hexadecimal digits. */
  function DropDigits(v: nat, j: nat): nat {
    if j == 0 then v else DropDigits(v / 16, j - 1)
  }

  /** The first k digits are the digits of the value without the rest. */
  lemma {:induction false} HexPrefix(v: nat, n: nat, k: nat)
    requires k <= n
    ensures Hex(v, n)[..k] == Hex(DropDigits(v, n - k), k)
    decreases n
  {
    if k == n {
      assert Hex(v, n)[..n] == Hex(v, n);
    } else {
      HexPrefix(v / 16, n - 1, k);
      assert Hex(v, n)[..k] == Hex(v / 16, n - 1)[..k];
    }
  }

  lemma {:induction false} DropKeepsOrder(x: nat, y: nat, j: nat)
    requires x <= y
    ensures DropDigits(x, j) <= DropDigits(y, j)
    decreases j
  {
    if j > 0 {
      DropKeepsOrder(x / 16, y / 16, j - 1);
    }
  }

  lemma {:induction false} DropFits(v: nat, n: nat, k: nat)
    requires k <= n && v < Pow16(n)
    ensures DropDigits(v, n - k) < Pow16(k)
    decreases n
  {
    if k < n {
      DropFits(v / 16, n - 1, k);
    }
  }

  lemma {:induction false} DropTwice(v: nat, i: nat, j: nat)
    ensures DropDigits(DropDigits(v, i), j) == DropDigits(v, i + j)
    decreases i
  {
    if i > 0 {
      DropTwice(v / 16, i - 1, j);
    }
  }

  /** Dropping four digits at a time. */
  lemma DropFour(v: nat, w: nat, j: nat)
    requires w == DropDigits(v, j)
    ensures DropDigits(v, j + 4) == w / 0x1_0000
  {
    DropTwice(v, j, 4);
    assert DropDigits(w, 4) == DropDigits(w / 16, 3) == DropDigits(w / 16 / 16, 2);
    assert DropDigits(w / 16 / 16, 2) == DropDigits(w / 16 / 16 / 16, 1) == w / 16 / 16 / 16 / 16;
  }

  /** The time is what is left without the last 20 digits. */
  lemma TimeIsFirstDigits(v: nat)
    ensures DropDigits(v, 20) == TimeOf(v)
  {
    DropFour(v, v, 0);
    DropFour(v, v / 0x1_0000, 4);
    DropFour(v, v / 0x1_0000_0000, 8);
    DropFour(v, v / 0x1_0000_0000_0000, 12);
    DropFour(v, v / 0x1_0000_0000_0000_0000, 16);
  }

  /** 32 digits hold 128 bits. */
  lemma {:induction false} FourDigits(n: nat, x: nat)
    requires Pow16(n) == x
    ensures Pow16(n + 4) == 0x1_0000 * x
  {
    assert Pow16(n + 1) == 16 * x;
    assert Pow16(n + 2) == 0x100 * x;
    assert Pow16(n + 3) == 0x1000 * x;
  }

  lemma DigitCount(n: nat)
    requires n == 32
    ensures Pow16(n) == P128
  {
    var z := 0;
    FourDigits(z, 1);
    FourDigits(z + 4, 0x1_0000);
    FourDigits(z + 8, 0x1_0000_0000);
    FourDigits(z + 12, 0x1_0000_0000_0000);
    FourDigits(z + 16, P64);
    FourDigits(z + 20, P80);
    FourDigits(z + 24, 0x1_0000_0000_0000_0000_0000_0000);
    FourDigits(z + 28, 0x1_0000_0000_0000_0000_0000_0000_0000);
  }

  lemma HexPrefixOrder(x: nat, y: nat, n: nat, k: nat)
    requires x < y < Pow16(n) && k <= n
    ensures Hex(x, n)[..k] == Hex(y, n)[..k] || Before(Hex(x, n)[..k], Hex(y, n)[..k])
    ensures DropDigits(x, n - k) < DropDigits(y, n - k) ==> Before(Hex(x, n)[..k], Hex(y, n)[..k])
  {
    HexPrefix(x, n, k);
    HexPrefix(y, n, k);
    DropKeepsOrder(x, y, n - k);
    DropFits(y, n, k);
    if DropDigits(x, n - k) < DropDigits(y, n - k) {
      HexOrder(DropDigits(x, n - k), DropDigits(y, n - k), k);
    }
  }

  /** Values that differ without j more digits differ with them. */
  lemma DropFewer(x: nat, y: nat, i: nat, j: nat)
    requires DropDigits(x, i + j) < DropDigits(y, i + j)
    ensures DropDigits(x, i) < DropDigits(y, i)
  {
    DropTwice(x, i, j);
    DropTwice(y, i, j);
    if DropDigits(y, i) <= DropDigits(x, i) {
      DropKeepsOrder(DropDigits(y, i), DropDigits(x, i), j);
    }
  }

  /**
   Time order survives truncation: for values minted in a later millisecond, the first k digits
   never order the other way, and from 12 digits on they order strictly.
   */
  lemma PrefixOrder(x: nat, y: nat, n: nat, k: nat)
    requires n == 32 && x < P128 && y < P128 && TimeOf(x) < TimeOf(y) && k <= n
    ensures x < y
    ensures Hex(x, n)[..k] == Hex(y, n)[..k] || Before(Hex(x, n)[..k], Hex(y, n)[..k])
    ensures k >= 12 ==> Before(Hex(x, n)[..k], Hex(y, n)[..k])
  {
    DigitCount(n);
    HexPrefixOrder(x, y, n, k);
    if k >= 12 {
      TimeIsFirstDigits(x);
      TimeIsFirstDigits(y);
      DropFewer(x, y, n - k, k - 12);
    }
  }

  /** The canonical form 8-4-4-4-12. */
  function Canonical(v: nat): string {
    Dashed(Hex(v, 32))
  }

  function Dashed(h: string): string
    requires |h| == 32
  {
    h[..8] + "-" + h[8..12] + "-" + h[12..16] + "-" + h[16..20] + "-" + h[20..]
  }

  /** The same text inserted at the same place of two texts keeps their order. */
  lemma BeforeInsert(a: string, b: string, k: nat, mark: string)
    requires Before(a, b) && k <= |a| && k <= |b|
    ensures Before(a[..k] + mark + a[k..], b[..k] + mark + b[k..])
  {
    var i :| 0 <= i < |a| && i < |b| && a[..i] == b[..i] && a[i] < b[i];
    var a', b' := a[..k] + mark + a[k..], b[..k] + mark + b[k..];
    if i < k {
      assert a'[..i] == a[..i] && b'[..i] == b[..i] && a'[i] == a[i] && b'[i] == b[i];
    } else {
      var j := i + |mark|;
      assert a[..k] == a[..i][..k] && b[..k] == b[..i][..k];
      assert a'[..j] == a[..k] + mark + a[..i][k..];
      assert b'[..j] == b[..k] + mark + b[..i][k..];
      assert a'[j] == a[i] && b'[j] == b[i];
    }
  }

  function Insert(s: string, k: nat): string
    requires k <= |s|
  {
    s[..k] + "-" + s[k..]
  }

  /** A dash put between two texts. */
  lemma InsertBetween(s: string, a: string, b: string)
    requires s == a + b
    ensures Insert(s, |a|) == a + "-" + b
  {
  }

  /** Four dashes, put in from the right. */
  lemma DashedByInsertion(h: string)
    requires |h| == 32
    ensures Dashed(h) == Insert(Insert(Insert(Insert(h, 20), 16), 12), 8)
  {
    var g1, g2, g3, g4, g5 := h[..8], h[8..12], h[12..16], h[16..20], h[20..];
    InsertBetween(h, h[..20], g5);
    var s1 := Insert(h, 20);
    InsertBetween(s1, h[..16], g4 + "-" + g5);
    var s2 := Insert(s1, 16);
    InsertBetween(s2, h[..12], g3 + "-" + (g4 + "-" + g5));
    var s3 := Insert(s2, 12);
    InsertBetween(s3, g1, g2 + "-" + (g3 + "-" + (g4 + "-" + g5)));
  }

  /** A later millisecond gives a larger value and a larger canonical string. */
  lemma CanonicalOrder(x: nat, y: nat)
    requires x < P128 && y < P128 && TimeOf(x) < TimeOf(y)
    ensures x < y && Before(Canonical(x), Canonical(y))
  {
    var n := 32;
    PrefixOrder(x, y, n, n);
    var a, b := Hex(x, n), Hex(y, n);
    assert a[..n] == a && b[..n] == b;
    DashedOrder(a, b);
  }

  lemma DashedOrder(a: string, b: string)
    requires |a| == |b| == 32 && Before(a, b)
    ensures Before(Dashed(a), Dashed(b))
  {
    DashedByInsertion(a);
    DashedByInsertion(b);
    var a1, b1 := Insert(a, 20), Insert(b, 20);
    BeforeInsert(a, b, 20, "-");
    var a2, b2 := Insert(a1, 16), Insert(b1, 16);
    BeforeInsert(a1, b1, 16, "-");
    BeforeInsert(a2, b2, 12, "-");
    BeforeInsert(Insert(a2, 12), Insert(b2, 12), 8, "-");
  }

  // ---------------------------------------------------------------------------------------
  // Reading the text back
  // ---------------------------------------------------------------------------------------

  function DigitOf(c: char): Option<nat> {
    if '0' <= c <= '9' then Some((c - '0') as nat)
    else if 'a' <= c <= 'f' then Some(10 + (c - 'a') as nat)
    else if 'A' <= c <= 'F' then Some(10 + (c - 'A') as nat)
    else None
  }

  /** The number a string of hexadecimal digits stands for. */
  function HexValue(s: string): Option<nat> {
    if s == [] then Some(0)
    else
      var high, low := HexValue(s[..|s| - 1]), DigitOf(s[|s| - 1]);
      if high.Some? && low.Some? then Some(16 * high.value + low.value) else None
  }

  function WithoutDashes(s: string): string {
    if s == [] then []
    else WithoutDashes(s[..|s| - 1]) + if s[|s| - 1] == '-' then [] else [s[|s| - 1]]
  }

  /** Parsing as the check on strings does it for text with dashes: 32 hexadecimal digits. */
  function Parse(s: string): Option<nat> {
    var h := WithoutDashes(s);
    if |h| == 32 then HexValue(h) else None
  }

  predicate IsUuidV7Text(s: string) {
    Parse(s).Some? && IsUuidV7(Parse(s).value)
  }

  lemma {:induction false} HexReadsBack(v: nat, n: nat)
    requires v < Pow16(n)
    ensures HexValue(Hex(v, n)) == Some(v)
    ensures WithoutDashes(Hex(v, n)) == Hex(v, n)
    decreases n
  {
    if n > 0 {
      var high, d := v / 16, v % 16;
      HexReadsBack(high, n - 1);
      DigitReadsBack(d);
      LastDigitReadsBack(Hex(high, n - 1), high, HexChar(d), d);
    }
  }

  lemma LastDigitReadsBack(high: string, v: nat, c: char, d: nat)
    requires DigitOf(c) == Some(d) && c != '-' && HexValue(high) == Some(v) && WithoutDashes(high) == high
    ensures HexValue(high + [c]) == Some(16 * v + d) && WithoutDashes(high + [c]) == high + [c]
  {
    assert (high + [c])[..|high|] == high;
  }

  lemma DigitReadsBack(d: nat)
    requires d < 16
    ensures DigitOf(HexChar(d)) == Some(d) && HexChar(d) != '-'
  {
  }

  lemma {:induction false} WithoutDashesConcat(a: string, b: string)
    ensures WithoutDashes(a + b) == WithoutDashes(a) + WithoutDashes(b)
    decreases |b|
  {
    if b == [] {
      assert a + b == a;
    } else {
      assert (a + b)[..|a + b| - 1] == a + b[..|b| - 1];
      WithoutDashesConcat(a, b[..|b| - 1]);
    }
  }

  lemma InsertDropsOut(s: string, k: nat)
    requires k <= |s|
    ensures WithoutDashes(Insert(s, k)) == WithoutDashes(s)
  {
    var a, b := s[..k], s[k..];
    var dash: string := ['-'];
    assert s == a + b && Insert(s, k) == a + dash + b;
    WithoutDashesConcat(a, b);
    WithoutDashesConcat(a + dash, b);
    OneDash(a, dash);
  }

  lemma OneDash(a: string, dash: string)
    requires dash == ['-']
    ensures WithoutDashes(a + dash) == WithoutDashes(a)
  {
    assert (a + dash)[..|a|] == a;
  }

  /** The canonical string of every 128-bit value parses back to it. */
  lemma CanonicalReadsBack(v: nat)
    requires v < P128
    ensures Parse(Canonical(v)) == Some(v)
  {
    var n := 32;
    DigitCount(n);
    HexReadsBack(v, n);
    var h := Hex(v, n);
    DashedByInsertion(h);
    var h1 := Insert(h, 20);
    var h2 := Insert(h1, 16);
    var h3 := Insert(h2, 12);
    InsertDropsOut(h, 20);
    InsertDropsOut(h1, 16);
    InsertDropsOut(h2, 12);
    InsertDropsOut(h3, 8);
  }

  // Which texts there are -------------------------------------------------------------------

  predicate LowerHex(c: char) {
    '0' <= c <= '9' || 'a' <= c <= 'f'
  }

  predicate AllLowerHex(s: string) {
    forall i | 0 <= i < |s| :: LowerHex(s[i])
  }

  lemma {:induction false} HexIsLower(v: nat, n: nat)
    ensures AllLowerHex(Hex(v, n))
    decreases n
  {
    if n > 0 {
      HexIsLower(v / 16, n - 1);
    }
  }

  /** The canonical form of section 4 of RFC 9562: lower-case digits in groups of 8, 4, 4, 4 and 12. */
  lemma CanonicalShape(v: nat)
    ensures |Canonical(v)| == 36
    ensures forall i | 0 <= i < 36 ::
              if i == 8 || i == 13 || i == 18 || i == 23 then Canonical(v)[i] == '-' else LowerHex(Canonical(v)[i])
  {
    HexIsLower(v, 32);
  }

  /** The lower-case form of a hexadecimal digit; any other character is left alone. */
  function Lower(c: char): char {
    if 'A' <= c <= 'F' then c - 'A' + 'a' else c
  }

  function LowerAll(s: string): (r: string)
    ensures |r| == |s| && forall i | 0 <= i < |s| :: r[i] == Lower(s[i])
  {
    seq(|s|, i requires 0 <= i < |s| => Lower(s[i]))
  }

  lemma DigitMeans(c: char)
    ensures DigitOf(c).Some? <==> LowerHex(Lower(c))
    ensures DigitOf(c).Some? ==> DigitOf(c).value < 16 && HexChar(DigitOf(c).value) == Lower(c)
  {
  }

  /** A text of hexadecimal digits, in either case, stands for the number whose digits they are. */
  lemma {:induction false} HexValueMeans(s: string)
    ensures HexValue(s).Some? <==> AllLowerHex(LowerAll(s))
    ensures HexValue(s).Some? ==> HexValue(s).value < Pow16(|s|) && Hex(HexValue(s).value, |s|) == LowerAll(s)
  {
    if s != [] {
      var n := |s| - 1;
      HexValueMeans(s[..n]);
      DigitMeans(s[n]);
      assert LowerAll(s) == LowerAll(s[..n]) + [Lower(s[n])];
      if HexValue(s).Some? {
        LastDigit(HexValue(s[..n]).value, DigitOf(s[n]).value, n);
      }
    }
  }

  lemma LastDigit(high: nat, d: nat, n: nat)
    requires d < 16 && high < Pow16(n)
    ensures 16 * high + d < Pow16(n + 1) && Hex(16 * high + d, n + 1) == Hex(high, n) + [HexChar(d)]
  {
    assert (16 * high + d) / 16 == high && (16 * high + d) % 16 == d;
  }

  /**
   What parses, exactly: 32 hexadecimal digits in either case, with dashes anywhere; and the number is
   the one with those digits.
   */
  lemma ParseMeans(s: string)
    ensures Parse(s).Some? <==> |WithoutDashes(s)| == 32 && AllLowerHex(LowerAll(WithoutDashes(s)))
    ensures Parse(s).Some? ==> Parse(s).value < P128 && Hex(Parse(s).value, 32) == LowerAll(WithoutDashes(s))
  {
    var n := 32;
    DigitCount(n);
    HexValueMeans(WithoutDashes(s));
  }

  /** Digit k, counted from 0, is the last one left when the digits behind it are dropped. */
  lemma DigitAt(v: nat, n: nat, k: nat)
    requires k < n
    ensures Hex(v, n)[k] == HexChar(DropDigits(v, n - k - 1) % 16)
  {
    HexPrefix(v, n, k + 1);
    assert Hex(v, n)[k] == Hex(v, n)[..k + 1][k];
  }

  lemma {:induction false} DroppedBelow(v: nat)
    ensures DropDigits(v, 12) == v / 0x1_0000_0000_0000 && DropDigits(v, 16) == v / P64
  {
    DropFour(v, v, 0);
    DropFour(v, v / 0x1_0000, 4);
    DropFour(v, v / 0x1_0000_0000, 8);
    DropFour(v, v / 0x1_0000_0000_0000, 12);
  }

  lemma {:induction false} DroppedToVersion(v: nat)
    ensures DropDigits(v, 19) == v / P76
  {
    DroppedBelow(v);
    DropThree(v, v / P64, 16);
  }

  lemma {:induction false} DroppedToVariant(v: nat)
    ensures DropDigits(v, 15) == v / 0x1000_0000_0000_0000
  {
    DroppedBelow(v);
    DropThree(v, v / 0x1_0000_0000_0000, 12);
  }

  lemma {:induction false} VariantOfDigit(v: nat, w: nat)
    requires w == v / 0x1000_0000_0000_0000
    ensures w % 16 / 4 == VariantOf(v)
  {
    assert v / P62 == w / 4;
  }

  /** Digit 12 is the version, digit 16 begins with the variant. */
  lemma {:induction false} CheckedDigits(v: nat, n: nat)
    requires n == 32
    ensures Hex(v, n)[12] == HexChar(VersionOf(v))
    ensures exists d: nat | d < 16 :: Hex(v, n)[16] == HexChar(d) && d / 4 == VariantOf(v)
  {
    DigitAt(v, n, 12);
    DigitAt(v, n, 16);
    DroppedToVersion(v);
    DroppedToVariant(v);
    var w := DropDigits(v, 15);
    VariantOfDigit(v, w);
    assert Hex(v, n)[16] == HexChar(w % 16);
  }

  lemma DropThree(v: nat, w: nat, j: nat)
    requires w == DropDigits(v, j)
    ensures DropDigits(v, j + 3) == w / 0x1000
  {
    DropTwice(v, j, 3);
    assert DropDigits(w, 3) == DropDigits(w / 16, 2) == DropDigits(w / 16 / 16, 1) == w / 16 / 16 / 16;
  }

  /**
   The check on text, told from its characters: 32 hexadecimal digits in either case, the thirteenth
   a 7 and the seventeenth one of 8, 9, a and b.
   */
  lemma CheckMeans(s: string)
    ensures IsUuidV7Text(s) <==>
              && |WithoutDashes(s)| == 32 && AllLowerHex(LowerAll(WithoutDashes(s)))
              && LowerAll(WithoutDashes(s))[12] == '7' && LowerAll(WithoutDashes(s))[16] in {'8', '9', 'a', 'b'}
  {
    ParseMeans(s);
    if Parse(s).Some? {
      var v := Parse(s).value;
      CheckedDigits(v, 32);
      assert HexChar(VersionOf(v)) == '7' <==> VersionOf(v) == 7;
    }
  }

  /** Every minted value, as a number and as text, passes the check. */
  lemma {:induction false} MintedPassesCheck(clockMs: nat, rand: nat)
    ensures var v := Layout(clockMs % P48, rand / P64 % 0x1000, rand % P62);
            v < P128 && IsUuidV7(v) && IsUuidV7Text(Canonical(v)) && TimeOf(v) == clockMs % P48
  {
    FieldsOfLayout(clockMs % P48, rand / P64 % 0x1000, rand % P62);
    CanonicalReadsBack(Layout(clockMs % P48, rand / P64 % 0x1000, rand % P62));
  }
}
