/** The two parity helpers the Pyramid encoder calls: wiegand_add_parity, which
    frames a Wiegand field with a leading even and a trailing odd parity bit,
    and addParity, which follows every group of pLen - 1 data bits with one
    parity bit (pLen is the width of a group including its parity bit). */
module Parity {
  import opened BitBuffers

  /** The parity kinds addParity is asked for: its `parityType` 0 (even) and 1 (odd). */
  datatype ParityType = EvenParity | OddParity

  /** The parity bit over `data`: with it, the number of set bits is even
      (EvenParity) or odd (OddParity). */
  function ParityBit(data: seq<Bit>, t: ParityType): (p: Bit)
    ensures (Ones(data) + p) % 2 == (if t == OddParity then 1 else 0)
  {
    if t == OddParity then 1 - Ones(data) % 2 else Ones(data) % 2
  }

  /** wiegand_add_parity(target, source, len): an even parity bit over the
      first len / 2 source bits, the source bits themselves, then an odd parity
      bit over the next len / 2 source bits. */
  function WiegandAddParity(source: seq<Bit>): (r: seq<Bit>)
    ensures |r| == |source| + 2
    ensures r[1..|source| + 1] == source
    ensures (r[0] + Ones(source[..|source| / 2])) % 2 == 0
    ensures (Ones(source[|source| / 2..2 * (|source| / 2)]) + r[|source| + 1]) % 2 == 1
  {
    var h := |source| / 2;
    [ParityBit(source[..h], EvenParity)] + source + [ParityBit(source[h..2 * h], OddParity)]
  }

  /** The `g`-th group of `len` consecutive bits of `s`. */
  function Chunk(s: seq<Bit>, len: nat, g: nat): (c: seq<Bit>)
    requires (g + 1) * len <= |s|
  {
    s[g * len..(g + 1) * len]
  }

  /** Past the first group, the groups of `s` are those of its tail. */
  lemma ChunkTail(s: seq<Bit>, len: nat, g: nat)
    requires g > 0 && (g + 1) * len <= |s|
    ensures len <= |s| && g * len <= |s[len..]|
    ensures Chunk(s, len, g) == Chunk(s[len..], len, g - 1)
  {
    assert g * len == (g - 1) * len + len;
    assert (g + 1) * len == g * len + len;
  }

  lemma GroupStep(n: nat, w: nat)
    requires w > 0 && n > 0 && n % w == 0
    ensures n >= w && (n - w) % w == 0 && (n - w) / w == n / w - 1
  {
    var k := n / w;
    assert n == w * k;
    assert w * 0 == 0;
    assert k >= 1;
    assert n - w == w * (k - 1);
    MulAtLeast(w, k);
    ModUnique(n - w, w, k - 1, 0);
  }

  /** A sum of two multiples of `w` is one. */
  lemma MultipleSum(x: nat, y: nat, w: nat)
    requires w > 0 && x % w == 0 && y % w == 0
    ensures (x + y) % w == 0
  {
    var kx, ky := x / w, y / w;
    assert x == w * kx && y == w * ky;
    assert x + y == w * (kx + ky);
    ModUnique(x + y, w, kx + ky, 0);
  }

  /** addParity(source, dest, len, pLen, parityType): every group of pLen - 1
      source bits is copied and followed by its parity bit. */
  function AddParity(source: seq<Bit>, pLen: nat, t: ParityType): (r: seq<Bit>)
    requires pLen >= 2 && |source| % (pLen - 1) == 0
    decreases |source|
  {
    if |source| == 0 then []
    else
      GroupStep(|source|, pLen - 1);
      var w := pLen - 1;
      source[..w] + [ParityBit(source[..w], t)] + AddParity(source[w..], pLen, t)
  }

  /** addParity's first group, then the rest. */
  lemma AddParityUnfold(source: seq<Bit>, pLen: nat, t: ParityType)
    requires pLen >= 2 && |source| % (pLen - 1) == 0 && |source| > 0
    ensures |source| >= pLen - 1 && |source[pLen - 1..]| % (pLen - 1) == 0
    ensures AddParity(source, pLen, t)
         == source[..pLen - 1] + [ParityBit(source[..pLen - 1], t)] + AddParity(source[pLen - 1..], pLen, t)
  {
    GroupStep(|source|, pLen - 1);
  }

  /** addParity emits one parity bit per group of pLen - 1 source bits. */
  lemma {:induction false} AddParityLength(source: seq<Bit>, pLen: nat, t: ParityType)
    requires pLen >= 2 && |source| % (pLen - 1) == 0
    ensures |AddParity(source, pLen, t)| == |source| + |source| / (pLen - 1)
    decreases |source|
  {
    if |source| > 0 {
      GroupStep(|source|, pLen - 1);
      AddParityLength(source[pLen - 1..], pLen, t);
    }
  }

  /** The `g`-th group that addParity emits is the `g`-th group of the source
      followed by that group's parity bit. */
  lemma {:induction false} AddParityChunk(source: seq<Bit>, pLen: nat, t: ParityType, g: nat)
    requires pLen >= 2 && |source| % (pLen - 1) == 0
    requires (g + 1) * (pLen - 1) <= |source|
    ensures (g + 1) * pLen <= |AddParity(source, pLen, t)|
    ensures Chunk(AddParity(source, pLen, t), pLen, g)
         == Chunk(source, pLen - 1, g) + [ParityBit(Chunk(source, pLen - 1, g), t)]
    decreases g
  {
    var w := pLen - 1;
    GroupStep(|source|, w);
    var r := AddParity(source, pLen, t);
    var rest := AddParity(source[w..], pLen, t);
    assert r == source[..w] + [ParityBit(source[..w], t)] + rest;
    if g > 0 {
      ChunkTail(source, w, g);
      AddParityChunk(source[w..], pLen, t, g - 1);
      ChunkTail(r, pLen, g);
      assert r[pLen..] == rest;
    }
  }

  /** Every group addParity emits has the parity it was asked for. */
  lemma AddParityGroupParity(source: seq<Bit>, pLen: nat, t: ParityType, g: nat)
    requires pLen >= 2 && |source| % (pLen - 1) == 0
    requires (g + 1) * (pLen - 1) <= |source|
    ensures (g + 1) * pLen <= |AddParity(source, pLen, t)|
    ensures Ones(Chunk(AddParity(source, pLen, t), pLen, g)) % 2 == (if t == OddParity then 1 else 0)
  {
    AddParityChunk(source, pLen, t, g);
    var c := Chunk(source, pLen - 1, g);
    var p := ParityBit(c, t);
    OnesAppend(c, [p]);
    assert Ones([p]) == p by {
      assert [p][..0] == [];
    }
  }

  /** addParity on two runs of whole groups is addParity on each, one after the other. */
  lemma {:induction false} AddParityAppend(a: seq<Bit>, b: seq<Bit>, pLen: nat, t: ParityType)
    requires pLen >= 2 && |a| % (pLen - 1) == 0 && |b| % (pLen - 1) == 0
    ensures |a + b| % (pLen - 1) == 0
    ensures AddParity(a + b, pLen, t) == AddParity(a, pLen, t) + AddParity(b, pLen, t)
    decreases |a|
  {
    var w := pLen - 1;
    MultipleSum(|a|, |b|, w);
    if |a| > 0 {
      AddParityHeads(a, b, pLen, t);
      AddParityUnfold(a, pLen, t);
      AddParityAppend(a[w..], b, pLen, t);
      var head := a[..w] + [ParityBit(a[..w], t)];
      AppendAssoc(head, AddParity(a[w..], pLen, t), AddParity(b, pLen, t));
    } else {
      assert a + b == b;
    }
  }

  /** With `a` non-empty, addParity of `a + b` starts with the first group of `a`. */
  lemma AddParityHeads(a: seq<Bit>, b: seq<Bit>, pLen: nat, t: ParityType)
    requires pLen >= 2 && |a| % (pLen - 1) == 0 && |b| % (pLen - 1) == 0 && |a| > 0
    ensures |a| >= pLen - 1 && |a + b| % (pLen - 1) == 0 && |a[pLen - 1..] + b| % (pLen - 1) == 0
    ensures AddParity(a + b, pLen, t)
         == a[..pLen - 1] + [ParityBit(a[..pLen - 1], t)] + AddParity(a[pLen - 1..] + b, pLen, t)
  {
    var w := pLen - 1;
    GroupStep(|a|, w);
    MultipleSum(|a|, |b|, w);
    MultipleSum(|a| - w, |b|, w);
    var ab := a + b;
    assert |ab| == |a| + |b| > 0 && |ab| % w == 0;
    AppendSlices(a, b, w);
    AddParityUnfold(ab, pLen, t);
    var first, rest := ab[..w], ab[w..];
    assert first == a[..w] && rest == a[w..] + b;
    assert AddParity(rest, pLen, t) == AddParity(a[w..] + b, pLen, t);
  }

  /** Removal of the parity bits: the first pLen - 1 bits of every group of pLen. */
  function StripParity(bits: seq<Bit>, pLen: nat): (r: seq<Bit>)
    requires pLen >= 2 && |bits| % pLen == 0
    decreases |bits|
  {
    if |bits| == 0 then []
    else
      GroupStep(|bits|, pLen);
      bits[..pLen - 1] + StripParity(bits[pLen..], pLen)
  }

  /** addParity loses nothing: removing the parity bits gives back the source. */
  lemma {:induction false} StripAddParity(source: seq<Bit>, pLen: nat, t: ParityType)
    requires pLen >= 2 && |source| % (pLen - 1) == 0
    ensures |AddParity(source, pLen, t)| % pLen == 0
    ensures StripParity(AddParity(source, pLen, t), pLen) == source
    decreases |source|
  {
    if |source| > 0 {
      var w := pLen - 1;
      GroupStep(|source|, w);
      StripAddParity(source[w..], pLen, t);
      var rest := AddParity(source[w..], pLen, t);
      var r := AddParity(source, pLen, t);
      assert |r| == |rest| + pLen;
      MultipleSum(|rest|, pLen, pLen);
      assert r[..pLen - 1] == source[..w];
      assert r[pLen..] == rest;
      assert source == source[..w] + source[w..];
    }
  }
}
