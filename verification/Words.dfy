/** Machine words of fixed width, little-endian memory access, the arithmetic facts about wrap-around
    that the rest of the project relies on, and two notions about collections. */
module Words {

  const TWO32: int := 0x1_0000_0000
  const TWO64: int := 0x1_0000_0000_0000_0000

  type byte = x: int | 0 <= x < 0x100
  type u32 = x: int | 0 <= x < 0x1_0000_0000
  type u64 = x: int | 0 <= x < 0x1_0000_0000_0000_0000

  datatype Option<+T> = None | Some(value: T)

  /** Positions in a buffer, one after the other. */
  datatype Positions = Done | Then(at: int, more: Positions)

  predicate Among(q: int, ps: Positions) {
    ps.Then? && (q == ps.at || Among(q, ps.more))
  }

  /** Byte-addressed memory: what a C pointer sees, also outside the object it points to. */
  type Memory = int -> byte

  function Wrap32(x: int): u32 { x % TWO32 }

  lemma WrapSmall(x: int)
    requires 0 <= x < TWO32
    ensures Wrap32(x) == x
  {
  }

  lemma WrapAgain(x: int, k: int)
    ensures Wrap32(Wrap32(x) + k) == Wrap32(x + k)
  {
    ModShift(Wrap32(x) + k, x / TWO32, TWO32);
  }

  function Wrap64(x: int): u64 { x % TWO64 }

  /** 256 to the power n, for the widths in use. */
  function Radix(n: nat): nat {
    if n == 0 then 1 else 256 * Radix(n - 1)
  }

  /** The n low bytes of v, least significant first. */
  function LeBytes(v: nat, n: nat): (bs: seq<byte>)
    ensures |bs| == n
    decreases n, v
  {
    if n == 0 then [] else [v % 256] + LeBytes(v / 256, n - 1)
  }

  /** The number whose n bytes, least significant first, are at a. */
  function LeNumber(m: Memory, a: int, n: nat): (v: nat)
    ensures v < Radix(n)
    decreases n, a
  {
    if n == 0 then 0 else m(a) + 256 * LeNumber(m, a + 1, n - 1)
  }

  lemma RadixFour()
    ensures Radix(4) == TWO32
  {
    assert Radix(4) == 256 * Radix(3);
    assert Radix(3) == 256 * Radix(2);
    assert Radix(2) == 256 * Radix(1);
  }

  /** The four bytes of a word. */
  function Le4(v: u32): (bs: seq<byte>)
    ensures |bs| == 4
  {
    LeBytes(v, 4)
  }

  /** The 32-bit load of a little-endian machine. */
  function Word(m: Memory, a: int): u32 {
    RadixFour();
    LeNumber(m, a, 4)
  }

  /** Memory `m` holds the bytes `bs` from address `a` on. */
  ghost predicate Holds(m: Memory, a: int, bs: seq<byte>) {
    forall i :: 0 <= i < |bs| ==> m(a + i) == bs[i]
  }

  lemma HoldsConcat(m: Memory, a: int, xs: seq<byte>, ys: seq<byte>)
    ensures Holds(m, a, xs + ys) <==> Holds(m, a, xs) && Holds(m, a + |xs|, ys)
  {
    if Holds(m, a, xs + ys) {
      forall i | 0 <= i < |xs| ensures m(a + i) == xs[i] {
        assert (xs + ys)[i] == xs[i];
      }
      forall i | 0 <= i < |ys| ensures m(a + |xs| + i) == ys[i] {
        assert (xs + ys)[|xs| + i] == ys[i];
      }
    }
  }

  /** Memory holds the bytes of a number exactly when the number is what is read there. */
  lemma {:induction false} LeBytesHeld(m: Memory, a: int, v: nat, n: nat)
    requires v < Radix(n)
    ensures Holds(m, a, LeBytes(v, n)) <==> LeNumber(m, a, n) == v
    decreases n
  {
    if n > 0 {
      assert v / 256 < Radix(n - 1);
      LeBytesHeld(m, a + 1, v / 256, n - 1);
      HoldsConcat(m, a, [v % 256], LeBytes(v / 256, n - 1));
      HoldsOne(m, a, v % 256);
    }
  }

  lemma HoldsOne(m: Memory, p: int, b: byte)
    ensures Holds(m, p, [b]) <==> m(p) == b
  {
    if Holds(m, p, [b]) {
      assert m(p + 0) == [b][0];
    }
  }

  lemma Le4Word(m: Memory, a: int, v: u32)
    ensures Holds(m, a, Le4(v)) <==> Word(m, a) == v
  {
    RadixFour();
    LeBytesHeld(m, a, v, 4);
  }

  /** Reading depends only on the bytes read. */
  lemma {:induction false} SameBytesSameNumber(m: Memory, a: int, m': Memory, shift: int, n: nat)
    requires forall b :: a <= b < a + n ==> m(b) == m'(b + shift)
    ensures LeNumber(m, a, n) == LeNumber(m', a + shift, n)
    decreases n
  {
    if n > 0 {
      SameBytesSameNumber(m, a + 1, m', shift, n - 1);
    }
  }

  lemma LeNumberLocal(m: Memory, m': Memory, a: int, n: nat)
    requires forall b :: a <= b < a + n ==> m(b) == m'(b)
    ensures LeNumber(m, a, n) == LeNumber(m', a, n)
  {
    SameBytesSameNumber(m, a, m', 0, n);
  }

  /** The bytes of a buffer as memory from address 0. */
  function Bytes(buf: seq<byte>): Memory {
    i => if 0 <= i < |buf| then buf[i] else 0
  }

  /** The 32-bit load at p of a buffer. */
  function WordIn(buf: seq<byte>, p: nat): u32
    requires p + 4 <= |buf|
  {
    Word(Bytes(buf), p)
  }

  lemma WordOfSlice(buf: seq<byte>, p: nat, data: seq<byte>)
    requires |data| == 4 && Carries(buf, p, data)
    ensures WordIn(buf, p) == WordIn(data, 0)
  {
    forall b: int | 0 <= b < 0 + 4 ensures Bytes(data)(b) == Bytes(buf)(b + p) {
      assert data[b] == buf[p..p + 4][b];
    }
    SameBytesSameNumber(Bytes(data), 0, Bytes(buf), p, 4);
  }

  /** `buf` carries `bs` at p. */
  predicate Carries(buf: seq<byte>, p: nat, bs: seq<byte>) {
    p + |bs| <= |buf| && buf[p..p + |bs|] == bs
  }

  lemma CarriesConcat(buf: seq<byte>, p: nat, xs: seq<byte>, ys: seq<byte>)
    ensures Carries(buf, p, xs + ys) <==> Carries(buf, p, xs) && Carries(buf, p + |xs|, ys)
  {
    if Carries(buf, p, xs + ys) {
      assert buf[p..p + |xs|] == buf[p..p + |xs + ys|][..|xs|] == xs;
      assert buf[p + |xs|..p + |xs| + |ys|] == buf[p..p + |xs + ys|][|xs|..] == ys;
    }
  }

  lemma CarriesThree(buf: seq<byte>, p: nat, xs: seq<byte>, ys: seq<byte>, zs: seq<byte>)
    ensures Carries(buf, p, (xs + ys) + zs) <==> Carries(buf, p, xs) && Carries(buf, p + |xs|, ys + zs)
  {
    ConcatAssoc(xs, ys, zs);
    CarriesConcat(buf, p, xs, ys + zs);
  }

  lemma CarriesAt(buf: seq<byte>, p: nat, bs: seq<byte>, i: nat)
    requires Carries(buf, p, bs) && i < |bs|
    ensures p + i < |buf| && buf[p + i] == bs[i]
  {
    assert buf[p..p + |bs|][i] == buf[p + i];
  }

  /** Reducing the operands first does not change a wrapped sum, difference or product. */
  lemma ModAbsorb(x: int, y: int, m: int)
    requires m > 0
    ensures (x % m + y % m) % m == (x + y) % m
    ensures (x % m - y % m) % m == (x - y) % m
    ensures ((x % m) * (y % m)) % m == (x * y) % m
  {
    DivModIs(x, m);
    DivModIs(y, m);
    Absorb(x, y, x / m, y / m, x % m, y % m, m);
  }

  lemma Absorb(x: int, y: int, a: int, b: int, r: int, q: int, m: int)
    requires m > 0 && x == a * m + r && y == b * m + q
    ensures (r + q) % m == (x + y) % m
    ensures (r - q) % m == (x - y) % m
    ensures (r * q) % m == (x * y) % m
  {
    ModShift(r + q, a + b, m);
    Distribute(a, b, m);
    ModShift(r - q, a - b, m);
    Distribute(a, -b, m);
    assert (-b) * m == -(b * m);
    ModShift(r * q, a * b * m + a * q + b * r, m);
    Expand(a, r, b, q, m);
  }

  lemma DivModIs(x: int, m: int)
    requires m > 0
    ensures x == x / m * m + x % m
  {
  }

  lemma Distribute(a: int, b: int, m: int)
    ensures (a + b) * m == a * m + b * m
  {
  }

  lemma Expand(a: int, r: int, b: int, q: int, m: int)
    ensures (a * m + r) * (b * m + q) == r * q + (a * b * m + a * q + b * r) * m
  {
    var s, t := a * m, b * m;
    assert (s + r) * (t + q) == s * t + s * q + r * t + r * q;
    Distribute(a * b * m + a * q, b * r, m);
    Distribute(a * b * m, a * q, m);
    assert s * t == (a * b * m) * m by { assert a * m * (b * m) == a * b * m * m; }
    assert s * q == (a * q) * m;
    assert r * t == (b * r) * m;
  }

  /** Adding a multiple of the modulus changes nothing. */
  lemma {:induction false} ModShift(x: int, k: int, m: int)
    requires m > 0
    ensures (x + k * m) % m == x % m
  {
    DivModIs(x, m);
    Distribute(x / m, k, m);
    ModUnique(x + k * m, x / m + k, x % m, m);
  }

  lemma ModUnique(x: int, q: int, r: int, m: int)
    requires m > 0 && 0 <= r < m && x == q * m + r
    ensures x % m == r
  {
    DivModIs(x, m);
    var d := q - x / m;
    Distribute(q, -(x / m), m);
    assert (-(x / m)) * m == -(x / m * m);
    assert d * m == x % m - r;
    if d >= 1 {
      Scale(d, m);
    } else if d <= -1 {
      Scale(-d, m);
    }
  }

  lemma Scale(d: int, m: int)
    requires d >= 1 && m > 0
    ensures d * m >= m && (-d) * m <= -m
  {
  }

  /** The low half of a 64-bit result is the 32-bit result of the low halves. */
  lemma Mod64Then32(x: int)
    ensures x % TWO64 % TWO32 == x % TWO32
  {
    var k := x / TWO64;
    assert x == k * TWO64 + x % TWO64;
    assert k * TWO64 == (k * TWO32) * TWO32;
    ModShift(x % TWO64, k * TWO32, TWO32);
  }

  lemma ConcatAssoc<T>(a: seq<T>, b: seq<T>, c: seq<T>)
    ensures (a + b) + c == a + (b + c)
  {
  }

  lemma ConcatThree<T>(p: seq<T>, a: seq<T>, b: seq<T>, c: seq<T>)
    ensures p + a + b + c == p + (a + b + c)
  {
  }

  /** No element twice. */
  ghost predicate Distinct<T>(s: seq<T>) {
    forall i, j :: 0 <= i < j < |s| ==> s[i] != s[j]
  }

  lemma {:induction false} SubsetSize<T>(xs: set<T>, ys: set<T>)
    requires xs <= ys
    ensures |xs| <= |ys|
  {
    if xs != {} {
      var x :| x in xs;
      SubsetSize(xs - {x}, ys - {x});
    }
  }
}
