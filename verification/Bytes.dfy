/** Big-endian numbers of a fixed width. */
module Bytes {

  type Byte = x: int | 0 <= x < 256

  /** How many numbers `width` bytes can tell apart. */
  function Numbers(width: nat): nat {
    if width == 0 then 1 else 256 * Numbers(width - 1)
  }

  function BigEndian(n: nat, width: nat): (r: seq<Byte>)
    ensures |r| == width
  {
    if width == 0 then [] else BigEndian(n / 256, width - 1) + [n % 256]
  }

  function Value(b: seq<Byte>): nat {
    if b == [] then 0 else Value(b[..|b| - 1]) * 256 + b[|b| - 1]
  }

  lemma {:induction false} ValueOfBigEndian(n: nat, width: nat)
    requires n < Numbers(width)
    ensures Value(BigEndian(n, width)) == n
  {
    if width > 0 {
      ValueOfBigEndian(n / 256, width - 1);
      var r := BigEndian(n, width);
      assert r[..|r| - 1] == BigEndian(n / 256, width - 1);
    }
  }

  lemma {:induction false} BigEndianOfValue(b: seq<Byte>)
    ensures Value(b) < Numbers(|b|) && BigEndian(Value(b), |b|) == b
  {
    if b != [] {
      var front, last := b[..|b| - 1], b[|b| - 1];
      BigEndianOfValue(front);
      assert (Value(front) * 256 + last) / 256 == Value(front);
      assert (Value(front) * 256 + last) % 256 == last;
      assert b == front + [last];
    }
  }

  /** Numbers in range with the same bytes are the same. */
  lemma BigEndianInjective(m: nat, n: nat, width: nat)
    requires m < Numbers(width) && n < Numbers(width) && BigEndian(m, width) == BigEndian(n, width)
    ensures m == n
  {
    ValueOfBigEndian(m, width);
    ValueOfBigEndian(n, width);
  }
}
