/** Machine words and their byte order on the wire. */
module Bytes {

  datatype Option<+T> = None | Some(value: T)

  type byte = x: int | 0 <= x < 0x100
  type u32 = x: int | 0 <= x < 0x1_0000_0000
  type u64 = x: int | 0 <= x < 0x1_0000_0000_0000_0000

  lemma SlicesJoin<T>(s: seq<T>, i: nat, j: nat, k: nat)
    requires i <= j <= k <= |s|
    ensures s[i..j] + s[j..k] == s[i..k]
  {}

  const U32_MAX: u32 := 0xFFFF_FFFF

  /** Big-endian bytes of a 32-bit word. */
  function Be32(n: u32): (b: seq<byte>)
    ensures |b| == 4
  {
    [n / 0x100_0000, n / 0x1_0000 % 0x100, n / 0x100 % 0x100, n % 0x100]
  }

  function OfBe32(b: seq<byte>): u32
    requires |b| == 4
  {
    var hi: int, mid: int, low: int := b[0], b[1], b[2];
    hi * 0x100_0000 + mid * 0x1_0000 + low * 0x100 + b[3]
  }

  lemma Be32Digits(n: u32)
    ensures OfBe32(Be32(n)) == n
  {
    var q := n / 0x100;
    var q2 := q / 0x100;
    var q3 := q2 / 0x100;
    assert n / 0x1_0000 == q2 && n / 0x100_0000 == q3;
    assert n == q * 0x100 + n % 0x100 && q == q2 * 0x100 + q % 0x100 && q2 == q3 * 0x100 + q2 % 0x100;
  }

  lemma OfBe32Digits(b: seq<byte>)
    requires |b| == 4
    ensures Be32(OfBe32(b)) == b
  {
    var m := OfBe32(b);
    var hi: int, mid: int, low: int := b[0], b[1], b[2];
    assert m / 0x100 == hi * 0x1_0000 + mid * 0x100 + low;
    assert m / 0x1_0000 == hi * 0x100 + mid;
    assert m / 0x100_0000 == hi;
  }

  /** Be32 and OfBe32 are mutual inverses. */
  lemma Be32Inverse(n: u32, b: seq<byte>)
    requires |b| == 4
    ensures OfBe32(Be32(n)) == n
    ensures Be32(OfBe32(b)) == b
  {
    OfBe32Digits(b);
    Be32Digits(n);
  }

  /** The number with these digits to base 256, the most significant first. */
  function Numeral(digits: seq<byte>): nat
  {
    if digits == [] then 0
    else
      var low: nat := digits[|digits| - 1];
      Numeral(digits[..|digits| - 1]) * 0x100 + low
  }

  lemma {:induction false} NumeralOfFour(b: seq<byte>)
    requires |b| == 4
    ensures Numeral(b) == OfBe32(b)
  {
    assert b[..3][..2] == b[..2] && b[..2][..1] == b[..1] && b[..1][..0] == [];
    assert Numeral(b[..1]) == b[0];
    assert Numeral(b[..2]) == Numeral(b[..1]) * 0x100 + b[1] && Numeral(b[..3]) == Numeral(b[..2]) * 0x100 + b[2];
  }

  /** The most significant byte comes first. */
  lemma Be32IsBigEndian(n: u32)
    ensures Numeral(Be32(n)) == n
  {
    hide Be32, OfBe32;
    NumeralOfFour(Be32(n));
    Be32Inverse(n, Be32(n));
  }

  function Be64(n: u64): (b: seq<byte>)
    ensures |b| == 8
  {
    Be32(n / 0x1_0000_0000) + Be32(n % 0x1_0000_0000)
  }

  function OfBe64(b: seq<byte>): u64
    requires |b| == 8
  {
    var hi: int := OfBe32(b[..4]);
    hi * 0x1_0000_0000 + OfBe32(b[4..])
  }

  lemma SplitU64(n: u64, hi: int, low: u32)
    requires 0 <= hi < 0x1_0000_0000
    ensures var m := hi * 0x1_0000_0000 + low; m / 0x1_0000_0000 == hi && m % 0x1_0000_0000 == low
    ensures n / 0x1_0000_0000 * 0x1_0000_0000 + n % 0x1_0000_0000 == n
  {}

  /** Be64 and OfBe64 are mutual inverses. */
  lemma Be64Inverse(n: u64, b: seq<byte>)
    requires |b| == 8
    ensures OfBe64(Be64(n)) == n
    ensures Be64(OfBe64(b)) == b
  {
    hide Be32, OfBe32;
    assert Be64(n)[..4] == Be32(n / 0x1_0000_0000) && Be64(n)[4..] == Be32(n % 0x1_0000_0000);
    Be32Inverse(n / 0x1_0000_0000, b[..4]);
    Be32Inverse(n % 0x1_0000_0000, b[4..]);
    SplitU64(n, OfBe32(b[..4]), OfBe32(b[4..]));
    assert b == b[..4] + b[4..];
  }

  lemma {:induction false} NumeralJoins(a: seq<byte>, b: seq<byte>)
    requires |b| == 4
    ensures Numeral(a + b) == Numeral(a) * 0x1_0000_0000 + Numeral(b)
  {
    var c := a + b;
    var n := |a|;
    assert c[..n + 3][..n + 2] == c[..n + 2] && c[..n + 2][..n + 1] == c[..n + 1] && c[..n + 1][..n] == a;
    assert b[..3][..2] == b[..2] && b[..2][..1] == b[..1] && b[..1][..0] == [];
    assert Numeral(c[..n + 1]) == Numeral(a) * 0x100 + b[0] && Numeral(b[..1]) == b[0];
    assert Numeral(c[..n + 2]) == Numeral(c[..n + 1]) * 0x100 + b[1];
    assert Numeral(c[..n + 3]) == Numeral(c[..n + 2]) * 0x100 + b[2];
    assert Numeral(b[..2]) == Numeral(b[..1]) * 0x100 + b[1] && Numeral(b[..3]) == Numeral(b[..2]) * 0x100 + b[2];
  }

  lemma Be64IsBigEndian(n: u64)
    ensures Numeral(Be64(n)) == n
  {
    hide Be32, Numeral;
    var hi, low := n / 0x1_0000_0000, n % 0x1_0000_0000;
    NumeralJoins(Be32(hi), Be32(low));
    Be32IsBigEndian(hi);
    Be32IsBigEndian(low);
  }

  /** Little-endian bytes of a 64-bit word, as file handles carry them. */
  function Le64(n: u64): (b: seq<byte>)
    ensures |b| == 8
  {
    var be := Be64(n);
    [be[7], be[6], be[5], be[4], be[3], be[2], be[1], be[0]]
  }

  /** The least significant byte comes first. */
  lemma Le64IsLittleEndian(n: u64)
    ensures var b := Le64(n); Numeral([b[7], b[6], b[5], b[4], b[3], b[2], b[1], b[0]]) == n
  {
    hide Be64, Numeral;
    Be64IsBigEndian(n);
    var b := Le64(n);
    assert [b[7], b[6], b[5], b[4], b[3], b[2], b[1], b[0]] == Be64(n);
  }

  function Zeros(n: nat): (b: seq<byte>)
    ensures |b| == n && forall i | 0 <= i < n :: b[i] == 0
  {
    seq(n, _ => 0)
  }
}
