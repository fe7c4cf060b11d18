/** The machine types of the C sources: bytes, unsigned words with wrap-around,
    and byte strings. */
module CMachine {

  type Byte = b: int | 0 <= b < 256

  /** Raw memory, and the text a `char *` points to up to its terminating NUL. */
  type Bytes = seq<Byte>

  const TWO_32: int := 0x1_0000_0000
  const TWO_64: int := 0x1_0000_0000_0000_0000

  type U32 = n: int | 0 <= n < TWO_32
  type U64 = n: int | 0 <= n < TWO_64

  /** The value an unsigned 32-bit expression leaves after wrapping. */
  function Wrap32(n: int): U32 {
    n % TWO_32
  }

  /** The value an unsigned 64-bit expression leaves after wrapping. */
  function Wrap64(n: int): U64 {
    n % TWO_64
  }

  function Pow2(k: nat): (p: nat)
    ensures p > 0
  {
    if k == 0 then 1 else 2 * Pow2(k - 1)
  }

  datatype Option<+T> = None | Some(value: T)

  /** The bytes of an ASCII literal. */
  function Ascii(s: string): (b: Bytes)
    requires forall i :: 0 <= i < |s| ==> s[i] < 128 as char
    ensures |b| == |s|
    ensures forall i :: 0 <= i < |s| ==> b[i] == s[i] as int
  {
    seq(|s|, i requires 0 <= i < |s| => s[i] as int)
  }

  lemma {:induction false} PowSplit(a: nat, b: nat)
    ensures Pow2(a + b) == Pow2(a) * Pow2(b)
    decreases a
  {
    if a == 0 {
      assert Pow2(0) == 1;
    } else {
      PowNext(a - 1);
      PowNext(a - 1 + b);
      hide Pow2;
      PowSplit(a - 1, b);
      Doubled(Pow2(a - 1), Pow2(b));
    }
  }

  lemma PowNext(k: nat)
    ensures Pow2(k + 1) == 2 * Pow2(k)
  {
  }

  lemma Doubled(x: nat, y: nat)
    ensures 2 * (x * y) == 2 * x * y
  {
  }

  lemma WordIsPower()
    ensures Pow2(16) == 65536 && Pow2(32) == TWO_32 && Pow2(64) == TWO_64
  {
    assert Pow2(8) == 256;
    PowSplit(8, 8);
    PowSplit(16, 16);
    PowSplit(32, 32);
  }

  lemma WrapShift(a: int, q: int)
    ensures Wrap64(a + q * TWO_64) == Wrap64(a)
  {
    var m := TWO_64;
    assert a == m * (a / m) + a % m;
    var c := a / m + q;
    assert a + q * m == m * c + a % m;
    assert (m * c + a % m) % m == a % m;
  }

  /** Wrapping a sum never gives more than adding to the wrapped part. */
  lemma WrapSum(x: int, y: nat)
    ensures Wrap64(x + y) <= Wrap64(x) + y
  {
    WrapShift(Wrap64(x) + y, x / TWO_64);
    assert x + y == Wrap64(x) + y + x / TWO_64 * TWO_64;
  }

  lemma WrapProduct(x: int, y: int)
    ensures Wrap64(Wrap64(x) * y) == Wrap64(x * y)
  {
    var q := x / TWO_64;
    assert x == Wrap64(x) + q * TWO_64;
    assert x * y == Wrap64(x) * y + q * TWO_64 * y == Wrap64(x) * y + q * y * TWO_64;
    WrapShift(Wrap64(x) * y, q * y);
  }

  lemma RemainderUnique(x: int, d: nat, q: int, r: int)
    requires d > 0 && x == d * q + r && 0 <= r < d
    ensures x % d == r
  {
    var q', r' := x / d, x % d;
    assert x == d * q' + r';
    assert d * (q - q') == r' - r && d * (q' - q) == r - r';
    if q > q' {
      MulAtLeast(d, q - q');
    } else if q < q' {
      MulAtLeast(d, q' - q);
    }
  }

  lemma MulAtLeast(d: nat, k: nat)
    requires k >= 1
    ensures d * k >= d
  {
  }
}
