/** Bit buffers as the client keeps them: one cell per bit, holding 0 or 1,
    addressed by bit offset. num_to_bytebits and bytebits_to_byte are the two
    conversions between numbers and such cells. */
module BitBuffers {

  /** One cell of a bit buffer (a `uint8_t` that holds 0 or 1). */
  type Bit = x: int | 0 <= x <= 1

  /** The C `uint32_t`. */
  type uint32 = x: int | 0 <= x < 0x1_0000_0000

  const Word: nat := 0x1_0000_0000

  function Pow2(n: nat): (r: nat)
    ensures r >= 1
  {
    if n == 0 then 1 else 2 * Pow2(n - 1)
  }

  function Min(a: nat, b: nat): (r: nat)
    ensures r <= a && r <= b && (r == a || r == b)
  {
    if a <= b then a else b
  }

  /** A buffer of `n` cleared cells, as after `memset(buf, 0, n)`. */
  function Zeros(n: nat): (r: seq<Bit>)
    ensures |r| == n
    ensures forall i :: 0 <= i < n ==> r[i] == 0
  {
    seq(n, _ => 0)
  }

  /** num_to_bytebits(n, len, dest): the low `len` bits of `n`, most significant first. */
  function NumToBits(n: nat, len: nat): (r: seq<Bit>)
    ensures |r| == len
  {
    if len == 0 then [] else NumToBits(n / 2, len - 1) + [n % 2]
  }

  /** The number whose binary digits, most significant first, are `bs`. */
  function BitsToNum(bs: seq<Bit>): (r: nat)
    ensures r < Pow2(|bs|)
  {
    if |bs| == 0 then 0 else 2 * BitsToNum(bs[..|bs| - 1]) + bs[|bs| - 1]
  }

  /** The number of set cells. */
  function Ones(s: seq<Bit>): (r: nat)
    ensures r <= |s|
  {
    if |s| == 0 then 0 else Ones(s[..|s| - 1]) + s[|s| - 1]
  }

  /** The buffer `s` after `bits` is stored into it from position `off` on;
      only the part of `bits` that falls inside `s` is kept. */
  function Overlay(s: seq<Bit>, off: nat, bits: seq<Bit>): (r: seq<Bit>)
    requires off <= |s|
    ensures |r| == |s|
    ensures forall i :: 0 <= i < |s| ==> r[i] == (if off <= i < off + |bits| then bits[i - off] else s[i])
  {
    var n := Min(|bits|, |s| - off);
    s[..off] + bits[..n] + s[off + n..]
  }

  lemma ModUnique(n: int, m: int, k: int, r: int)
    requires m > 0 && 0 <= r < m && n == m * k + r
    ensures n % m == r && n / m == k
  {
    var q, s := n / m, n % m;
    var d := k - q;
    assert m * d == s - r by {
      assert m * k - m * q == m * d;
    }
    if d > 0 {
      MulAtLeast(m, d);
    } else if d < 0 {
      MulAtLeast(m, -d);
    }
  }

  lemma MulAtLeast(m: int, d: int)
    requires m > 0 && d >= 1
    ensures m * d >= m
  {
  }

  lemma ModPow2Step(n: nat, len: nat)
    requires len > 0
    ensures 2 * ((n / 2) % Pow2(len - 1)) + n % 2 == n % Pow2(len)
  {
    var p := Pow2(len - 1);
    var q, b := n / 2, n % 2;
    var k, r := q / p, q % p;
    assert q == p * k + r;
    assert n == 2 * q + b;
    assert n == Pow2(len) * k + (2 * r + b);
    ModUnique(n, Pow2(len), k, 2 * r + b);
  }

  /** Reading back what num_to_bytebits wrote gives the number reduced to `len` bits. */
  lemma {:induction false} BitsToNumOfNumToBits(n: nat, len: nat)
    ensures BitsToNum(NumToBits(n, len)) == n % Pow2(len)
  {
    if len > 0 {
      BitsToNumOfNumToBits(n / 2, len - 1);
      var s := NumToBits(n, len);
      assert s[..len - 1] == NumToBits(n / 2, len - 1);
      ModPow2Step(n, len);
    }
  }

  /** Writing back what bytebits_to_byte read gives the same cells. */
  lemma {:induction false} NumToBitsOfBitsToNum(bs: seq<Bit>)
    ensures NumToBits(BitsToNum(bs), |bs|) == bs
  {
    if |bs| > 0 {
      var init := bs[..|bs| - 1];
      NumToBitsOfBitsToNum(init);
      var n := BitsToNum(bs);
      assert n / 2 == BitsToNum(init) && n % 2 == bs[|bs| - 1];
      assert bs == init + [bs[|bs| - 1]];
    }
  }

  /** Two numbers give the same `len` cells exactly when they agree modulo 2^len. */
  lemma NumToBitsEqual(a: nat, b: nat, len: nat)
    ensures NumToBits(a, len) == NumToBits(b, len) <==> a % Pow2(len) == b % Pow2(len)
  {
    BitsToNumOfNumToBits(a, len);
    BitsToNumOfNumToBits(b, len);
    NumToBitsOfBitsToNum(NumToBits(a, len));
    NumToBitsOfBitsToNum(NumToBits(b, len));
    NumToBitsMod(a, len);
    NumToBitsMod(b, len);
  }

  lemma NumToBitsMod(n: nat, len: nat)
    ensures NumToBits(n % Pow2(len), len) == NumToBits(n, len)
  {
    BitsToNumOfNumToBits(n, len);
    NumToBitsOfBitsToNum(NumToBits(n, len));
  }

  /** The last `b` of `a + b` cells of a number are its `b` cells. */
  lemma {:induction false} NumToBitsSuffix(n: nat, a: nat, b: nat)
    ensures NumToBits(n, a + b)[a..] == NumToBits(n, b)
    decreases b
  {
    if b > 0 {
      NumToBitsSuffix(n / 2, a, b - 1);
      var s := NumToBits(n, a + b);
      assert s == NumToBits(n / 2, a + b - 1) + [n % 2];
      assert s[a..] == NumToBits(n / 2, a + b - 1)[a..] + [n % 2];
    }
  }

  lemma {:induction false} OnesAppend(a: seq<Bit>, b: seq<Bit>)
    ensures Ones(a + b) == Ones(a) + Ones(b)
    decreases |b|
  {
    if |b| > 0 {
      assert (a + b)[..|a + b| - 1] == a + b[..|b| - 1];
      OnesAppend(a, b[..|b| - 1]);
    } else {
      assert a + b == a;
    }
  }

  lemma {:induction false} Pow2Monotone(m: nat, n: nat)
    requires m <= n
    ensures Pow2(m) <= Pow2(n)
    decreases n
  {
    if m < n {
      Pow2Monotone(m, n - 1);
    }
  }

  lemma ShiftInMod(x: nat, b: Bit)
    ensures (2 * (x % Word) + b) % Word == (2 * x + b) % Word
  {
    var k, r := x / Word, x % Word;
    var t := 2 * r + b;
    var k2, r2 := t / Word, t % Word;
    assert 2 * x + b == Word * (2 * k + k2) + r2;
    ModUnique(2 * x + b, Word, 2 * k + k2, r2);
  }

  lemma AppendSlices<T>(a: seq<T>, b: seq<T>, w: nat)
    requires w <= |a|
    ensures (a + b)[..w] == a[..w]
    ensures (a + b)[w..] == a[w..] + b
  {
  }

  lemma SubSlice<T>(s: seq<T>, lo: nat, hi: nat, i: nat, j: nat)
    requires lo <= hi <= |s| && i <= j <= hi - lo
    ensures s[lo..hi][i..j] == s[lo + i..lo + j]
  {
    var t := s[lo..hi][i..j];
    assert |t| == j - i;
    assert forall k :: 0 <= k < j - i ==> t[k] == s[lo + i + k];
  }

  lemma AppendAssoc<T>(a: seq<T>, b: seq<T>, c: seq<T>)
    ensures a + (b + c) == (a + b) + c
  {
  }

  /** Stores `bits` into `dest` from cell `off` on, keeping only what fits. */
  method WriteBits(dest: array<Bit>, off: nat, bits: seq<Bit>)
    requires off <= dest.Length
    modifies dest
    ensures dest[..] == Overlay(old(dest[..]), off, bits)
  {
    var n := Min(|bits|, dest.Length - off);
    for i := 0 to n
      invariant forall k :: 0 <= k < dest.Length ==>
        dest[k] == (if off <= k < off + i then bits[k - off] else old(dest[k]))
    {
      dest[off + i] := bits[i];
    }
    assert forall k :: 0 <= k < dest.Length ==> dest[..][k] == Overlay(old(dest[..]), off, bits)[k];
  }

  /** bytebits_to_byte(src + off, numbits): shifts the cells, most significant
      first, into a 32-bit register, so only the last 32 of them survive. */
  method BytebitsToByte(src: array<Bit>, off: nat, numbits: nat) returns (num: uint32)
    requires off + numbits <= src.Length
    ensures num == BitsToNum(src[off..off + numbits]) % Word
  {
    num := 0;
    for i := 0 to numbits
      invariant num == BitsToNum(src[off..off + i]) % Word
    {
      assert src[off..off + i + 1][..i] == src[off..off + i];
      ShiftInMod(BitsToNum(src[off..off + i]), src[off + i]);
      num := (2 * num + src[off + i]) % Word;
    }
  }

  lemma Pow2Word()
    ensures Pow2(8) == 256 && Pow2(16) == 0x1_0000 && Pow2(32) == Word
  {
    assert Pow2(1) == 2;
    Pow2Add(1, 1);
    Pow2Add(2, 2);
    Pow2Add(4, 4);
    Pow2Add(8, 8);
    Pow2Add(16, 16);
  }

  lemma {:induction false} Pow2Add(a: nat, b: nat)
    ensures Pow2(a + b) == Pow2(a) * Pow2(b)
    decreases b
  {
    if b > 0 {
      Pow2Add(a, b - 1);
    }
  }

  /** A 32-bit word survives a trip through 32 cells. */
  lemma WordRoundTrip(x: uint32)
    ensures BitsToNum(NumToBits(x, 32)) == x
  {
    BitsToNumOfNumToBits(x, 32);
    Pow2Word();
    ModUnique(x, Word, 0, x);
  }

  /** A number below 256 survives a trip through a byte. */
  lemma ByteCast(n: int)
    requires 0 <= n < 256
    ensures (n as bv8) as int == n
  {
    ByteCastMod(n);
    ModUnique(n, 256, 0, n);
  }

  lemma ByteCastMod(n: int)
    requires 0 <= n < 256
    ensures (n as bv8) as int == n % 256
  {
  }

  /** For at most 32 cells the register keeps the whole value. */
  lemma BytebitsFit(bs: seq<Bit>)
    requires |bs| <= 32
    ensures BitsToNum(bs) % Word == BitsToNum(bs)
  {
    Pow2Monotone(|bs|, 32);
    Pow2Word();
  }
}
