/** Fixed-width integers, little-endian byte strings and UTF-8 text. */
module Bytes {

  type byte = x: int | 0 <= x < 0x100
  type u16 = x: int | 0 <= x < 0x1_0000
  type u32 = x: int | 0 <= x < 0x1_0000_0000
  type u64 = x: int | 0 <= x < 0x1_0000_0000_0000_0000
  type i64 = x: int | -0x8000_0000_0000_0000 <= x < 0x8000_0000_0000_0000

  const U16_MAX: int := 0xFFFF
  const U32_MAX: int := 0xFFFF_FFFF
  const U64_MAX: int := 0xFFFF_FFFF_FFFF_FFFF
  const I64_MIN: int := -0x8000_0000_0000_0000
  const I64_MAX: int := 0x7FFF_FFFF_FFFF_FFFF

  /** The number of values of an unsigned integer of `width` bytes. */
  function Pow256(width: nat): (p: nat)
    ensures p > 0
  {
    if width == 0 then 1 else 256 * Pow256(width - 1)
  }

  lemma Pow256Values()
    ensures Pow256(1) == 0x100 && Pow256(2) == 0x1_0000 && Pow256(4) == 0x1_0000_0000
    ensures Pow256(8) == 0x1_0000_0000_0000_0000
  {
    assert Pow256(3) == 0x100_0000;
    assert Pow256(5) == 0x100_0000_0000;
    assert Pow256(6) == 0x1_0000_0000_0000;
    assert Pow256(7) == 0x100_0000_0000_0000;
  }

  /** `to_le_bytes` of an unsigned integer of `width` bytes. */
  function ToLE(n: nat, width: nat): (s: seq<byte>)
    ensures |s| == width
  {
    if width == 0 then [] else [n % 256] + ToLE(n / 256, width - 1)
  }

  /** `from_le_bytes`. */
  function FromLE(s: seq<byte>): nat {
    if s == [] then 0 else s[0] + 256 * FromLE(s[1..])
  }

  lemma {:induction false} FromToLE(n: nat, width: nat)
    requires n < Pow256(width)
    ensures FromLE(ToLE(n, width)) == n
  {
    if width > 0 {
      FromToLE(n / 256, width - 1);
      assert ToLE(n, width)[1..] == ToLE(n / 256, width - 1);
    }
  }

  lemma FirstDigit(a: byte, k: nat, width: nat)
    requires width > 0
    ensures ToLE((a as int) + 256 * k, width) == [a] + ToLE(k, width - 1)
    ensures k < Pow256(width - 1) ==> (a as int) + 256 * k < Pow256(width)
  {
  }

  lemma {:induction false} ToFromLE(s: seq<byte>)
    ensures FromLE(s) < Pow256(|s|)
    ensures ToLE(FromLE(s), |s|) == s
  {
    if s != [] {
      ToFromLE(s[1..]);
      FirstDigit(s[0], FromLE(s[1..]), |s|);
      assert s == [s[0]] + s[1..];
    }
  }

  // ---------- the order of the bytes ----------

  lemma DivTwice(n: nat, b: nat)
    requires b > 0
    ensures n / 256 / b == n / (256 * b)
  {
    var q, r := n / 256, n % 256;
    var k, t := q / b, q % b;
    assert q == b * k + t;
    assert (256 * b) * k == 256 * (b * k);
    DivUnique(n, 256 * b, k, 256 * t + r);
  }

  lemma {:induction false} DivUnique(a: nat, n: nat, q: nat, r: nat)
    requires n > 0 && a == n * q + r && r < n
    ensures a / n == q
  {
    var q', r' := a / n, a % n;
    assert a == n * q' + r';
    if q < q' {
      TimesLess(n, q, q');
    } else if q' < q {
      TimesLess(n, q', q);
    }
  }

  lemma TimesLess(n: nat, a: nat, b: nat)
    requires a < b
    ensures n * a + n <= n * b
  {
    var d := b - a - 1;
    assert n * (a + 1 + d) == n * a + n + n * d;
  }

  /** Byte `i` of a written integer is its digit of weight `256^i`: the least significant byte comes first. */
  lemma {:induction false} ToLEDigit(n: nat, width: nat, i: nat)
    requires i < width
    ensures ToLE(n, width)[i] == n / Pow256(i) % 256
  {
    if i > 0 {
      ToLEDigit(n / 256, width - 1, i - 1);
      DivTwice(n, Pow256(i - 1));
    }
  }

  /** The first `k` bytes, each with its weight `256^i`. */
  function Weighted(s: seq<byte>, k: nat): nat
    requires k <= |s|
  {
    if k == 0 then 0 else Weighted(s, k - 1) + s[k - 1] * Pow256(k - 1)
  }

  lemma {:induction false} WeightedTail(s: seq<byte>, k: nat)
    requires 1 <= k <= |s|
    ensures Weighted(s, k) == s[0] + 256 * Weighted(s[1..], k - 1)
  {
    if k > 1 {
      WeightedTail(s, k - 1);
      assert s[1..][k - 2] == s[k - 1];
    }
  }

  /** An integer read is the sum of its bytes, each with the weight of its place, the first byte counting once. */
  lemma {:induction false} FromLESum(s: seq<byte>)
    ensures FromLE(s) == Weighted(s, |s|)
  {
    if s != [] {
      FromLESum(s[1..]);
      WeightedTail(s, |s|);
    }
  }

  function U16Bytes(n: u16): seq<byte> {
    [n % 0x100, n / 0x100]
  }

  function U32Bytes(n: u32): seq<byte> {
    [n % 0x100, n / 0x100 % 0x100, n / 0x1_0000 % 0x100, n / 0x100_0000]
  }

  function U64Bytes(n: u64): seq<byte> {
    [n % 0x100, n / 0x100 % 0x100, n / 0x1_0000 % 0x100, n / 0x100_0000 % 0x100,
     n / 0x1_0000_0000 % 0x100, n / 0x100_0000_0000 % 0x100, n / 0x1_0000_0000_0000 % 0x100, n / 0x100_0000_0000_0000]
  }

  lemma ThreeValues()
    ensures Pow256(0) == 1 && Pow256(3) == 0x100_0000 && Pow256(5) == 0x100_0000_0000
    ensures Pow256(6) == 0x1_0000_0000_0000 && Pow256(7) == 0x100_0000_0000_0000
  {
    Pow256Values();
    assert Pow256(5) == 256 * Pow256(4);
  }

  /** The three widths of the wire, byte by byte in numerals. */
  lemma ToLENumerals(a: u16, b: u32, c: u64, d: byte)
    ensures ToLE(d, 1) == [d]
    ensures ToLE(a, 2) == U16Bytes(a)
    ensures ToLE(b, 4) == U32Bytes(b)
    ensures ToLE(c, 8) == U64Bytes(c)
  {
    Pow256Values();
    ThreeValues();
    hide ToLE, Pow256;
    ToLEDigit(d, 1, 0);
    ToLEDigit(a, 2, 0);
    ToLEDigit(a, 2, 1);
    ToLE32(b);
    ToLE64(c);
  }

  lemma ToLE32(b: u32)
    ensures ToLE(b, 4) == U32Bytes(b)
  {
    Pow256Values();
    ThreeValues();
    hide ToLE, Pow256;
    forall i | 0 <= i < 4
      ensures ToLE(b, 4)[i] == U32Bytes(b)[i]
    {
      ToLEDigit(b, 4, i);
    }
  }

  lemma ToLE64(c: u64)
    ensures ToLE(c, 8) == U64Bytes(c)
  {
    Pow256Values();
    ThreeValues();
    hide ToLE, Pow256;
    forall i | 0 <= i < 8
      ensures ToLE(c, 8)[i] == U64Bytes(c)[i]
    {
      ToLEDigit(c, 8, i);
    }
  }

  function U16From(a: byte, b: byte): nat {
    (a as int) + 0x100 * (b as int)
  }

  function U32From(a: byte, b: byte, c: byte, d: byte): nat {
    (a as int) + 0x100 * (b as int) + 0x1_0000 * (c as int) + 0x100_0000 * (d as int)
  }

  /** The other way round. */
  lemma FromLENumerals(s: seq<byte>)
    ensures |s| == 1 ==> FromLE(s) == s[0]
    ensures |s| == 2 ==> FromLE(s) == U16From(s[0], s[1])
    ensures |s| == 4 ==> FromLE(s) == U32From(s[0], s[1], s[2], s[3])
  {
    FromLESum(s);
    Pow256Values();
    ThreeValues();
    hide Pow256, FromLE;
    if |s| >= 2 {
      assert Weighted(s, 1) == s[0] as int;
      assert Weighted(s, 2) == U16From(s[0], s[1]);
    }
    if |s| == 4 {
      assert Weighted(s, 3) == Weighted(s, 2) + (s[2] as int) * 0x1_0000;
    }
  }

  /** A Rust `String`: the bytes of well-formed UTF-8 text. */
  type Text = s: seq<byte> | ValidUtf8(s)

  /** What `String::from_utf8` accepts. */
  predicate ValidUtf8(s: seq<byte>)
    decreases |s|
  {
    s == [] || (var k := Utf8CharLen(s); k > 0 && ValidUtf8(s[k..]))
  }

  predicate Continuation(b: byte) {
    0x80 <= b <= 0xBF
  }

  /** The length of the well-formed character `s` starts with, or 0 when there is none. */
  function Utf8CharLen(s: seq<byte>): (k: nat)
    requires s != []
    ensures k <= |s|
  {
    var b := s[0];
    if b < 0x80 then 1
    else if 0xC2 <= b <= 0xDF then
      if |s| >= 2 && Continuation(s[1]) then 2 else 0
    else if 0xE0 <= b <= 0xEF then
      if |s| >= 3 && (if b == 0xE0 then 0xA0 else 0x80) <= s[1] <= (if b == 0xED then 0x9F else 0xBF)
         && Continuation(s[2])
      then 3 else 0
    else if 0xF0 <= b <= 0xF4 then
      if |s| >= 4 && (if b == 0xF0 then 0x90 else 0x80) <= s[1] <= (if b == 0xF4 then 0x8F else 0xBF)
         && Continuation(s[2]) && Continuation(s[3])
      then 4 else 0
    else 0
  }

  datatype Option<+T> = None | Some(value: T)

  datatype Result<+T, +E> = Ok(value: T) | Err(error: E) {
    predicate IsFailure() {
      Err?
    }

    function PropagateFailure<U>(): Result<U, E>
      requires Err?
    {
      Err(error)
    }

    function Extract(): T
      requires Ok?
    {
      value
    }
  }
}
