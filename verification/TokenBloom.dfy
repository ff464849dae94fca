/** The token bloom filter: bits set in place by wrapping double hashing. */
module TokenBloom {
  import opened Bytes
  import opened Numbers

  /** `double_hash`, kept arbitrary: two 64-bit hashes of a token. */
  datatype Hash = Hash(h1: string -> u64, h2: string -> u64)

  /** Probe `i` of a token: h1 + i * h2 on 64 wrapping bits, reduced to a bit index. */
  function Probe(h: Hash, token: string, i: nat, nbits: nat): (bit: nat)
    requires nbits > 0
    ensures bit < nbits
  {
    (h.h1(token) + i * h.h2(token) % (U64_MAX + 1)) % (U64_MAX + 1) % nbits
  }

  /** Wrapping at each step is wrapping once: probe `i` is h1 plus `i` times h2, modulo 2^64. */
  lemma ProbeIs(h: Hash, token: string, i: nat, nbits: nat)
    requires nbits > 0
    ensures Probe(h, token, i, nbits)
         == (h.h1(token) + i * h.h2(token)) % 0x1_0000_0000_0000_0000 % nbits
  {
    WrapOnce(h.h1(token), i * h.h2(token));
  }

  lemma WrapOnce(a: nat, b: nat)
    ensures (a + b % 0x1_0000_0000_0000_0000) % 0x1_0000_0000_0000_0000 == (a + b) % 0x1_0000_0000_0000_0000
  {
  }

  // ----- Bits of bytes

  predicate BitSet(bits: seq<byte>, b: nat)
    requires b < 8 * |bits|
  {
    BitOf(bits[b / 8], b % 8)
  }

  function OrBit(x: byte, j: nat): (y: byte)
    requires j < 8
  {
    assert Pow2(8) == 0x100;
    WithBitBelow(x, j, 8);
    WithBit(x, j)
  }

  /** Two byte strings of one length with the same bits are the same. */
  lemma BytesFromBits(x: seq<byte>, y: seq<byte>)
    requires |x| == |y|
    requires forall b: nat :: b < 8 * |x| ==> (BitSet(x, b) <==> BitSet(y, b))
    ensures x == y
  {
    hide BitOf;
    forall i | 0 <= i < |x|
      ensures x[i] == y[i]
    {
      forall j: nat | j < 8
        ensures BitOf(x[i], j) <==> BitOf(y[i], j)
      {
        var b := 8 * i + j;
        assert b / 8 == i && b % 8 == j;
        assert BitSet(x, b) <==> BitSet(y, b);
      }
      assert Pow2(8) == 0x100;
      NumberFromBits(x[i], y[i], 8);
    }
  }

  // ----- What a bloom holds

  /** `b` is one of the first `k` probes of `token`. */
  predicate Probed(h: Hash, token: string, k: nat, nbits: nat, b: nat)
    requires nbits > 0
  {
    exists i :: 0 <= i < k && Probe(h, token, i, nbits) == b
  }

  predicate ProbedByAny(h: Hash, tokens: seq<string>, k: nat, nbits: nat, b: nat)
    requires nbits > 0
  {
    exists t :: 0 <= t < |tokens| && Probed(h, tokens[t], k, nbits, b)
  }

  /** The set bits are exactly the union of the tokens' probes. */
  ghost predicate Holds(h: Hash, bits: seq<byte>, k: nat, tokens: seq<string>)
    requires |bits| > 0
  {
    forall b: nat :: b < 8 * |bits| ==> (BitSet(bits, b) <==> ProbedByAny(h, tokens, k, 8 * |bits|, b))
  }

  /** What a probe of the stored bits answers. */
  predicate MaybeContains(h: Hash, bits: seq<byte>, k: nat, token: string)
    requires |bits| > 0
  {
    forall i :: 0 <= i < k ==> BitSet(bits, Probe(h, token, i, 8 * |bits|))
  }

  // ----- The filter, bit by bit

  class Filter {
    const bits: array<byte>
    const k: nat

    /** An empty filter of the given size. */
    constructor (bytes: nat, k: nat)
      requires bytes > 0
      ensures fresh(bits) && bits.Length == bytes && this.k == k
      ensures forall i :: 0 <= i < bytes ==> bits[i] == 0
    {
      bits := new byte[bytes](_ => 0);
      this.k := k;
    }

    method Insert(h: Hash, token: string)
      requires bits.Length > 0
      modifies bits
      ensures forall b: nat :: b < 8 * bits.Length ==>
                (BitSet(bits[..], b) <==> BitSet(old(bits[..]), b) || Probed(h, token, k, 8 * bits.Length, b))
    {
      var nbits := 8 * bits.Length;
      for i := 0 to k
        invariant forall b: nat :: b < nbits ==>
                    (BitSet(bits[..], b) <==> BitSet(old(bits[..]), b) || Probed(h, token, i, nbits, b))
      {
        var bit := Probe(h, token, i, nbits);
        ghost var before := bits[..];
        bits[bit / 8] := OrBit(bits[bit / 8], bit % 8);
        BitSetAfter(before, bits[..], bit);
        ProbedNext(h, token, i, nbits);
      }
    }

    method Query(h: Hash, token: string) returns (maybe: bool)
      requires bits.Length > 0
      ensures maybe == MaybeContains(h, bits[..], k, token)
    {
      var nbits := 8 * bits.Length;
      for i := 0 to k
        invariant forall j :: 0 <= j < i ==> BitSet(bits[..], Probe(h, token, j, nbits))
      {
        var bit := Probe(h, token, i, nbits);
        if !BitOf(bits[bit / 8], bit % 8) {
          assert !BitSet(bits[..], Probe(h, token, i, nbits));
          return false;
        }
      }
      maybe := true;
    }
  }

  lemma BitSetAfter(before: seq<byte>, after: seq<byte>, bit: nat)
    requires bit < 8 * |before|
    requires after == before[bit / 8 := OrBit(before[bit / 8], bit % 8)]
    ensures forall b: nat :: b < 8 * |before| ==> (BitSet(after, b) <==> BitSet(before, b) || b == bit)
  {
    forall b: nat | b < 8 * |before|
      ensures BitSet(after, b) <==> BitSet(before, b) || b == bit
    {
      WithBitSets(before[bit / 8], bit % 8, b % 8);
    }
  }

  lemma ProbedNext(h: Hash, token: string, i: nat, nbits: nat)
    requires nbits > 0
    ensures forall b :: Probed(h, token, i + 1, nbits, b) <==>
              Probed(h, token, i, nbits, b) || b == Probe(h, token, i, nbits)
  {
  }

  /** `build`: a filter of `bytes` bytes with every token inserted. */
  method Build(h: Hash, bytes: nat, k: nat, tokens: seq<string>) returns (bits: seq<byte>)
    requires bytes >= 8 && 1 <= k <= 16
    ensures |bits| == bytes && Holds(h, bits, k, tokens)
  {
    var filter := new Filter(bytes, k);
    forall b: nat | b < 8 * bytes
      ensures !BitSet(filter.bits[..], b)
    {
      ZeroHasNoBits(b % 8);
    }
    for t := 0 to |tokens|
      invariant Holds(h, filter.bits[..], k, tokens[..t])
    {
      ghost var before := filter.bits[..];
      filter.Insert(h, tokens[t]);
      HoldsOneMore(h, before, filter.bits[..], k, tokens, t);
    }
    assert tokens[..|tokens|] == tokens;
    bits := filter.bits[..];
  }

  lemma HoldsOneMore(h: Hash, before: seq<byte>, after: seq<byte>, k: nat, tokens: seq<string>, t: nat)
    requires |before| == |after| > 0 && t < |tokens|
    requires Holds(h, before, k, tokens[..t])
    requires forall b: nat :: b < 8 * |before| ==>
               (BitSet(after, b) <==> BitSet(before, b) || Probed(h, tokens[t], k, 8 * |before|, b))
    ensures Holds(h, after, k, tokens[..t + 1])
  {
  }

  // ----- Laws

  /** An inserted token is always reported present. */
  lemma NoFalseNegatives(h: Hash, bits: seq<byte>, k: nat, tokens: seq<string>, token: string)
    requires |bits| > 0 && Holds(h, bits, k, tokens) && token in tokens
    ensures MaybeContains(h, bits, k, token)
  {
  }

  /** And a token is reported absent exactly when one of its probes is a probe of no inserted token. */
  lemma PresentIff(h: Hash, bits: seq<byte>, k: nat, nbits: nat, tokens: seq<string>, token: string)
    requires |bits| > 0 && nbits == 8 * |bits| && Holds(h, bits, k, tokens)
    ensures MaybeContains(h, bits, k, token) <==>
              forall i :: 0 <= i < k ==> ProbedByAny(h, tokens, k, nbits, Probe(h, token, i, nbits))
  {
    hide Probe, BitSet, ProbedByAny;
    forall i | 0 <= i < k
      ensures BitSet(bits, Probe(h, token, i, nbits)) <==> ProbedByAny(h, tokens, k, nbits, Probe(h, token, i, nbits))
    {
    }
  }

  /** The bytes depend on the set of tokens only: neither order nor repetition shows. */
  lemma BytesDependOnSet(h: Hash, x: seq<byte>, y: seq<byte>, k: nat, a: seq<string>, b: seq<string>)
    requires |x| == |y| > 0 && Holds(h, x, k, a) && Holds(h, y, k, b)
    requires forall t :: t in a <==> t in b
    ensures x == y
  {
    hide BitSet, Probed;
    forall i: nat | i < 8 * |x|
      ensures BitSet(x, i) <==> BitSet(y, i)
    {
      SameProbes(h, a, b, k, 8 * |x|, i);
      SameProbes(h, b, a, k, 8 * |x|, i);
    }
    BytesFromBits(x, y);
  }

  lemma SameProbes(h: Hash, a: seq<string>, b: seq<string>, k: nat, nbits: nat, i: nat)
    requires nbits > 0 && forall t <- a :: t in b
    ensures ProbedByAny(h, a, k, nbits, i) ==> ProbedByAny(h, b, k, nbits, i)
  {
    hide Probed;
    if ProbedByAny(h, a, k, nbits, i) {
      var t :| 0 <= t < |a| && Probed(h, a[t], k, nbits, i);
      assert a[t] in b;
      var u :| 0 <= u < |b| && b[u] == a[t];
    }
  }
}
