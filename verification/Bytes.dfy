/** Bytes, big-endian words and located slices, shared by every wire format of the project, and the
    bounds of machine words. */
module Bytes {

  type byte = b: int | 0 <= b < 0x100

  datatype Option<+T> = None | Some(value: T)

  const TWO_16 := 0x1_0000
  const TWO_32 := 0x1_0000_0000
  const TWO_64 := 0x1_0000_0000_0000_0000

  function Min(a: nat, b: nat): (m: nat)
    ensures m <= a && m <= b && (m == a || m == b)
  {
    if a < b then a else b
  }

  /** Big-endian encoding of a 32-bit word. */
  function Be32(n: nat): (s: seq<byte>)
    requires n < TWO_32
    ensures |s| == 4
  {
    [n / 0x100_0000, n / 0x1_0000 % 0x100, n / 0x100 % 0x100, n % 0x100]
  }

  /** The big-endian word stored at offset `off`. */
  function U32At(s: seq<byte>, off: nat): (n: nat)
    requires off + 4 <= |s|
    ensures n < TWO_32
  {
    var a: int, b: int, c: int, d: int := s[off], s[off + 1], s[off + 2], s[off + 3];
    a * 0x100_0000 + b * 0x1_0000 + c * 0x100 + d
  }

  /** `x` is found in `s` at offset `off`. */
  ghost predicate At(s: seq<byte>, off: nat, x: seq<byte>) {
    off + |x| <= |s| && s[off..off + |x|] == x
  }

  lemma AtSplit(s: seq<byte>, off: nat, x: seq<byte>, y: seq<byte>)
    ensures At(s, off, x + y) <==> At(s, off, x) && At(s, off + |x|, y)
  {
    if At(s, off, x + y) {
      assert s[off..off + |x|] == (x + y)[..|x|];
      assert s[off + |x|..off + |x| + |y|] == (x + y)[|x|..];
    }
    if At(s, off, x) && At(s, off + |x|, y) {
      assert s[off..off + |x + y|] == s[off..off + |x|] + s[off + |x|..off + |x| + |y|];
    }
  }

  lemma Be32Digits(n: nat)
    requires n < TWO_32
    ensures n == n / 0x100_0000 * 0x100_0000 + n / 0x1_0000 % 0x100 * 0x1_0000 + n / 0x100 % 0x100 * 0x100 + n % 0x100
  {
    var x, y := n / 0x100, n / 0x1_0000;
    assert y == x / 0x100 && n / 0x100_0000 == y / 0x100;
    assert n == x * 0x100 + n % 0x100 && x == y * 0x100 + x % 0x100 && y == y / 0x100 * 0x100 + y % 0x100;
  }

  /** Reading a word back gives the word that was written. */
  lemma Be32RoundTrip(s: seq<byte>, off: nat, n: nat)
    requires n < TWO_32
    requires At(s, off, Be32(n))
    ensures U32At(s, off) == n
  {
    var w := s[off..off + 4];
    Be32Digits(n);
    assert w == Be32(n);
    assert w[0] == s[off] && w[1] == s[off + 1] && w[2] == s[off + 2] && w[3] == s[off + 3];
  }

  lemma Be32Parts(n: nat, a: nat, b: nat, c: nat, d: nat)
    requires b < 0x100 && c < 0x100 && d < 0x100
    requires n == a * 0x100_0000 + b * 0x1_0000 + c * 0x100 + d
    ensures n / 0x100_0000 == a && n / 0x1_0000 % 0x100 == b && n / 0x100 % 0x100 == c && n % 0x100 == d
  {
    assert n / 0x100 == a * 0x1_0000 + b * 0x100 + c;
    assert n / 0x1_0000 == a * 0x100 + b;
  }

  /** The most significant byte comes first. */
  lemma Be32SpelledOut()
    ensures Be32(0x0102_0304) == [1, 2, 3, 4] && U32At([1, 2, 3, 4], 0) == 0x0102_0304
  {
  }

  /** Distinct words have distinct encodings, and every four bytes encode one word. */
  lemma U32AtRoundTrip(s: seq<byte>)
    requires |s| == 4
    ensures Be32(U32At(s, 0)) == s
  {
    var a: int, b: int, c: int, d: int := s[0], s[1], s[2], s[3];
    Be32Parts(U32At(s, 0), a, b, c, d);
  }
}
