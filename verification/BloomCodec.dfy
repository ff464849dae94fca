/** Bloom payloads in the footer: bytes, hexadecimal text, and the list of one bloom a row group. */
module BloomCodec {
  import opened Wrappers
  import opened Bytes
  import opened Sequences

  const BLOOM_MAGIC: seq<byte> := [0x4C, 0x4B, 0x42, 0x46] // "LKBF"
  const LIST_MAGIC: seq<byte> := [0x4C, 0x4B, 0x42, 0x4C] // "LKBL"
  const VERSION: byte := 1
  const U32_SIZE: nat := 0x1_0000_0000

  datatype Bloom = Bloom(k: byte, bits: seq<byte>) {
    predicate WellFormed() {
      k != 0 && bits != []
    }
  }

  // ----- One bloom

  function ToBytes(b: Bloom): (bytes: seq<byte>)
    ensures |bytes| == 6 + |b.bits|
  {
    BLOOM_MAGIC + [VERSION, b.k] + b.bits
  }

  function FromBytes(bytes: seq<byte>): (b: Option<Bloom>) {
    if |bytes| < 7 || bytes[..4] != BLOOM_MAGIC || bytes[4] != VERSION || bytes[5] == 0 then None
    else Some(Bloom(bytes[5], bytes[6..]))
  }

  /** Reading inverts writing exactly on the well-formed blooms. */
  lemma BytesRoundTrip(b: Bloom)
    ensures FromBytes(ToBytes(b)) == Some(b) <==> b.WellFormed()
  {
  }

  /** Writing inverts reading: an accepted payload is the only one of its bloom. */
  lemma BytesCanonical(bytes: seq<byte>)
    requires FromBytes(bytes).Some?
    ensures FromBytes(bytes).value.WellFormed() && ToBytes(FromBytes(bytes).value) == bytes
  {
  }

  /** A payload opens with the letters LKBF, a 1 and the number of probes. */
  lemma PayloadOpens(b: Bloom)
    ensures ToBytes(b)[..6] == [0x4C, 0x4B, 0x42, 0x46, 1, b.k] && ToBytes(b)[6..] == b.bits
  {
  }

  // ----- Hexadecimal text, as its UTF-8 bytes

  function HexDigit(n: byte): (c: byte)
    requires n < 16
  {
    if n < 10 then 0x30 + n else 0x57 + n
  }

  function Nibble(c: byte): (n: Option<byte>)
    ensures n.Some? ==> n.value < 16
  {
    if 0x30 <= c <= 0x39 then Some(c - 0x30)
    else if 0x61 <= c <= 0x66 then Some(c - 0x57)
    else if 0x41 <= c <= 0x46 then Some(c - 0x37)
    else None
  }

  function Hex(bytes: seq<byte>): (text: seq<byte>)
    ensures |text| == 2 * |bytes|
  {
    if bytes == [] then []
    else [HexDigit(bytes[0] / 16), HexDigit(bytes[0] % 16)] + Hex(bytes[1..])
  }

  function Unhex(text: seq<byte>): (bytes: Option<seq<byte>>)
    ensures bytes.Some? ==> 2 * |bytes.value| == |text|
  {
    if text == [] then Some([])
    else if |text| == 1 then None
    else
      var hi :- Nibble(text[0]);
      var lo :- Nibble(text[1]);
      var rest :- Unhex(text[2..]);
      Some([hi * 16 + lo] + rest)
  }

  method ToHexText(bytes: seq<byte>) returns (out: seq<byte>)
    ensures out == Hex(bytes)
  {
    out := [];
    for i := 0 to |bytes|
      invariant out + Hex(bytes[i..]) == Hex(bytes)
    {
      assert bytes[i..][1..] == bytes[i + 1..];
      Concat3(out, [HexDigit(bytes[i] / 16), HexDigit(bytes[i] % 16)], Hex(bytes[i + 1..]));
      out := out + [HexDigit(bytes[i] / 16), HexDigit(bytes[i] % 16)];
    }
    assert out + [] == out;
  }

  method FromHexText(text: seq<byte>) returns (r: Option<seq<byte>>)
    ensures r == Unhex(text)
  {
    if |text| % 2 != 0 {
      OddIsRefused(text);
      return None;
    }
    hide Unhex, Nibble, Onto;
    var bytes: seq<byte> := [];
    var i := 0;
    assert text[0..] == text;
    PairsBegin(text);
    while i < |text|
      invariant 0 <= i <= |text| && i % 2 == 0
      invariant Unhex(text) == Onto(bytes, Unhex(text[i..]))
    {
      PairRead(text, i, bytes);
      var hi :- Nibble(text[i]);
      var lo :- Nibble(text[i + 1]);
      bytes := bytes + [hi * 16 + lo];
      i := i + 2;
    }
    assert text[i..] == [];
    PairsEnd(bytes);
    r := Some(bytes);
  }

  /** The bytes read so far, then those of the remaining text. */
  function Onto(done: seq<byte>, r: Option<seq<byte>>): (all: Option<seq<byte>>) {
    if r.None? then None else Some(done + r.value)
  }

  lemma PairsBegin(text: seq<byte>)
    ensures Onto([], Unhex(text)) == Unhex(text)
  {
    if Unhex(text).Some? {
      assert [] + Unhex(text).value == Unhex(text).value;
    }
  }

  lemma PairsEnd(done: seq<byte>)
    ensures Onto(done, Unhex([])) == Some(done)
  {
    assert done + [] == done;
  }

  lemma PairRead(text: seq<byte>, i: nat, done: seq<byte>)
    requires i + 2 <= |text|
    ensures var hi, lo := Nibble(text[i]), Nibble(text[i + 1]);
            Onto(done, Unhex(text[i..])) ==
            if hi.None? || lo.None? then None else Onto(done + [hi.value * 16 + lo.value], Unhex(text[i + 2..]))
  {
    assert text[i..][2..] == text[i + 2..];
    var hi, lo, rest := Nibble(text[i]), Nibble(text[i + 1]), Unhex(text[i + 2..]);
    if hi.Some? && lo.Some? && rest.Some? {
      Concat3(done, [hi.value * 16 + lo.value], rest.value);
    }
  }

  lemma OddIsRefused(text: seq<byte>)
    requires |text| % 2 == 1
    ensures Unhex(text).None?
  {
  }

  /** Hexadecimal text reads back byte for byte. */
  lemma {:induction false} HexRoundTrip(bytes: seq<byte>)
    ensures Unhex(Hex(bytes)) == Some(bytes)
  {
    if bytes != [] {
      HexRoundTrip(bytes[1..]);
      var text := Hex(bytes);
      assert text[2..] == Hex(bytes[1..]);
      assert bytes == [bytes[0]] + bytes[1..];
    }
  }

  /** Each byte is two lower-case digits, the high half first. */
  lemma {:induction false} HexAt(bytes: seq<byte>, i: nat)
    requires i < |bytes|
    ensures Hex(bytes)[2 * i] == (if bytes[i] < 0xA0 then 0x30 + bytes[i] / 16 else 0x61 + (bytes[i] / 16 - 10))
    ensures Hex(bytes)[2 * i + 1] == (if bytes[i] % 16 < 10 then 0x30 + bytes[i] % 16 else 0x61 + (bytes[i] % 16 - 10))
  {
    if i > 0 {
      HexAt(bytes[1..], i - 1);
      assert Hex(bytes)[2..] == Hex(bytes[1..]);
      assert Hex(bytes)[2 * i] == Hex(bytes)[2..][2 * (i - 1)];
      assert Hex(bytes)[2 * i + 1] == Hex(bytes)[2..][2 * (i - 1) + 1];
    }
  }

  function LowerDigit(c: byte): (l: byte) {
    if 0x41 <= c <= 0x46 then c + 0x20 else c
  }

  /** The digits as the writer has them. */
  function LowerDigits(text: seq<byte>): (l: seq<byte>)
    ensures |l| == |text|
  {
    seq(|text|, i requires 0 <= i < |text| => LowerDigit(text[i]))
  }

  lemma NibbleCanonical(c: byte)
    requires Nibble(c).Some?
    ensures HexDigit(Nibble(c).value) == LowerDigit(c)
  {
  }

  /** Accepted text is the writer's text up to the case of its digits. */
  lemma {:induction false} HexCanonical(text: seq<byte>)
    requires Unhex(text).Some?
    ensures Hex(Unhex(text).value) == LowerDigits(text)
  {
    if text != [] {
      HexCanonical(text[2..]);
      NibbleCanonical(text[0]);
      NibbleCanonical(text[1]);
      hide Nibble, HexDigit, LowerDigit;
      var bytes := Unhex(text).value;
      assert bytes[1..] == Unhex(text[2..]).value;
      assert bytes[0] / 16 == Nibble(text[0]).value && bytes[0] % 16 == Nibble(text[1]).value;
      assert LowerDigits(text) == [LowerDigit(text[0]), LowerDigit(text[1])] + LowerDigits(text[2..]);
    }
  }

  /** `from_hex` of one bloom. */
  function FromHex(text: seq<byte>): (b: Option<Bloom>) {
    var bytes :- Unhex(text);
    FromBytes(bytes)
  }

  /** The hexadecimal form of a bloom reads back exactly when the bloom is well formed. */
  lemma HexFormRoundTrip(b: Bloom)
    ensures FromHex(Hex(ToBytes(b))) == Some(b) <==> b.WellFormed()
  {
    hide Hex, Unhex, ToBytes, FromBytes;
    HexRoundTrip(ToBytes(b));
    BytesRoundTrip(b);
  }

  /** An accepted hexadecimal form is the writer's, up to the case of its digits. */
  lemma HexFormCanonical(text: seq<byte>)
    requires FromHex(text).Some?
    ensures Hex(ToBytes(FromHex(text).value)) == LowerDigits(text)
  {
    hide Hex, Unhex, ToBytes, FromBytes, LowerDigits;
    HexCanonical(text);
    BytesCanonical(Unhex(text).value);
  }

  // ----- The row-group list

  /** `n as u32`, low byte first. */
  function U32(n: nat): (bytes: seq<byte>)
    ensures |bytes| == 4
  {
    var v := n % U32_SIZE;
    [(v % 0x100), (v / 0x100 % 0x100), (v / 0x1_0000 % 0x100), (v / 0x100_0000)]
  }

  function FromLe(a: int, b: int, c: int, d: int): (v: int) {
    a + 0x100 * b + 0x1_0000 * c + 0x100_0000 * d
  }

  lemma LeBytes(v: nat)
    requires v < U32_SIZE
    ensures FromLe(v % 0x100, v / 0x100 % 0x100, v / 0x1_0000 % 0x100, v / 0x100_0000) == v
  {
    assert v / 0x1_0000 == v / 0x100 / 0x100;
    assert v / 0x100_0000 == v / 0x1_0000 / 0x100;
  }

  function ReadU32(buf: seq<byte>, pos: nat): (r: Option<(nat, nat)>)
    ensures r.Some? ==> r.value.0 < U32_SIZE && r.value.1 == pos + 4 <= |buf|
  {
    if pos + 4 > |buf| then None
    else
      Some((FromLe(buf[pos], buf[pos + 1], buf[pos + 2], buf[pos + 3]), pos + 4))
  }

  function Chunk(b: Bloom): (bytes: seq<byte>) {
    U32(|ToBytes(b)|) + ToBytes(b)
  }

  function Chunks(blooms: seq<Bloom>): (bytes: seq<byte>) {
    if blooms == [] then [] else Chunk(blooms[0]) + Chunks(blooms[1..])
  }

  function ListBytes(blooms: seq<Bloom>): (bytes: seq<byte>) {
    LIST_MAGIC + [VERSION] + (U32(|blooms|) + Chunks(blooms))
  }

  function ReadChunk(buf: seq<byte>, pos: nat): (r: Option<(Bloom, nat)>)
    ensures r.Some? ==> pos < r.value.1 <= |buf|
  {
    var (len, at) :- ReadU32(buf, pos);
    if at + len > |buf| then None
    else
      var b :- FromBytes(buf[at..at + len]);
      Some((b, at + len))
  }

  function ReadChunks(buf: seq<byte>, pos: nat, n: nat): (r: Option<(seq<Bloom>, nat)>)
    ensures r.Some? ==> |r.value.0| == n
    decreases n
  {
    if n == 0 then Some(([], pos))
    else
      var (b, at) :- ReadChunk(buf, pos);
      var (bs, end) :- ReadChunks(buf, at, n - 1);
      Some(([b] + bs, end))
  }

  /** The list a payload holds; bytes after the last bloom are not looked at. */
  function ReadList(bytes: seq<byte>): (blooms: Option<seq<Bloom>>) {
    if |bytes| < 5 || bytes[..4] != LIST_MAGIC || bytes[4] != VERSION then None
    else
      var (n, at) :- ReadU32(bytes, 5);
      var (bs, _) :- ReadChunks(bytes, at, n);
      Some(bs)
  }

  method RowgroupBloomsToHex(blooms: seq<Bloom>) returns (text: seq<byte>)
    ensures text == Hex(ListBytes(blooms))
  {
    var bytes := LIST_MAGIC + [VERSION] + U32(|blooms|);
    for i := 0 to |blooms|
      invariant bytes + Chunks(blooms[i..]) == ListBytes(blooms)
    {
      hide U32, ToBytes;
      var b := ToBytes(blooms[i]);
      assert blooms[i..][1..] == blooms[i + 1..];
      Concat3(bytes, U32(|b|) + b, Chunks(blooms[i + 1..]));
      bytes := bytes + (U32(|b|) + b);
    }
    assert bytes + [] == bytes;
    text := ToHexText(bytes);
  }

  method RowgroupBloomsFromHex(text: seq<byte>) returns (r: Option<seq<Bloom>>)
    ensures r == if Unhex(text).None? then None else ReadList(Unhex(text).value)
  {
    hide Unhex, ReadU32;
    var bytes :- FromHexText(text);
    if |bytes| < 5 || bytes[..4] != LIST_MAGIC || bytes[4] != VERSION {
      return None;
    }
    var count := ReadU32(bytes, 5);
    if count.None? {
      return None;
    }
    var (n, pos) := count.value;
    var blooms: seq<Bloom> := [];
    BehindNothing(ReadChunks(bytes, 9, n));
    for i := 0 to n
      invariant ReadChunks(bytes, 9, n) == Behind(blooms, ReadChunks(bytes, pos, n - i))
    {
      var chunk := TakeChunk(bytes, pos);
      if chunk.None? {
        return None;
      }
      BehindNext(blooms, chunk.value.0, ReadChunks(bytes, chunk.value.1, n - i - 1));
      blooms, pos := blooms + [chunk.value.0], chunk.value.1;
    }
    assert blooms + [] == blooms;
    r := Some(blooms);
  }

  method TakeChunk(bytes: seq<byte>, pos: nat) returns (r: Option<(Bloom, nat)>)
    ensures r == ReadChunk(bytes, pos)
  {
    hide ReadU32, FromBytes;
    var len := ReadU32(bytes, pos);
    if len.None? || pos + 4 + len.value.0 > |bytes| {
      return None;
    }
    var end := pos + 4 + len.value.0;
    var b := FromBytes(bytes[pos + 4..end]);
    if b.None? {
      return None;
    }
    r := Some((b.value, end));
  }

  // ----- Laws of the list

  lemma U32Reads(buf: seq<byte>, pos: nat, n: nat)
    requires At(buf, pos, U32(n))
    ensures ReadU32(buf, pos) == Some((n % U32_SIZE, pos + 4))
  {
    hide FromLe;
    AtIndex(buf, pos, U32(n), 0);
    AtIndex(buf, pos, U32(n), 1);
    AtIndex(buf, pos, U32(n), 2);
    AtIndex(buf, pos, U32(n), 3);
    LeBytes(n % U32_SIZE);
  }

  /** The four bytes of a count or length are its digits in base 256, the lowest first. */
  lemma U32Is(n: nat, a: int, b: int, c: int, d: int)
    requires n < 0x1_0000_0000 && U32(n) == [a, b, c, d]
    ensures n == a + 0x100 * b + 0x1_0000 * c + 0x100_0000 * d
  {
    assert n % U32_SIZE == n;
    assert U32(n)[0] == a && U32(n)[1] == b && U32(n)[2] == c && U32(n)[3] == d;
    LeBytes(n);
  }

  lemma ReadU32Extends(buf: seq<byte>, pos: nat, more: seq<byte>)
    requires ReadU32(buf, pos).Some?
    ensures ReadU32(buf + more, pos) == ReadU32(buf, pos)
  {
  }

  /** Every length and the count fit 32 bits. */
  ghost predicate Fits(blooms: seq<Bloom>) {
    |blooms| < U32_SIZE && forall i :: 0 <= i < |blooms| ==> |ToBytes(blooms[i])| < U32_SIZE
  }

  ghost predicate AllWellFormed(blooms: seq<Bloom>) {
    forall i :: 0 <= i < |blooms| ==> blooms[i].WellFormed()
  }

  lemma ChunkReads(buf: seq<byte>, pos: nat, b: Bloom)
    requires At(buf, pos, Chunk(b)) && b.WellFormed() && |ToBytes(b)| < U32_SIZE
    ensures ReadChunk(buf, pos) == Some((b, pos + |Chunk(b)|))
  {
    hide U32, ReadU32, ToBytes, FromBytes;
    AtSplit(buf, pos, U32(|ToBytes(b)|), ToBytes(b));
    U32Reads(buf, pos, |ToBytes(b)|);
    BytesRoundTrip(b);
  }

  lemma {:induction false} ChunksRead(buf: seq<byte>, pos: nat, blooms: seq<Bloom>)
    requires At(buf, pos, Chunks(blooms)) && AllWellFormed(blooms)
    requires forall i :: 0 <= i < |blooms| ==> |ToBytes(blooms[i])| < U32_SIZE
    ensures ReadChunks(buf, pos, |blooms|) == Some((blooms, pos + |Chunks(blooms)|))
    decreases |blooms|
  {
    hide ReadChunk, Chunk, ToBytes;
    if blooms != [] {
      AtSplit(buf, pos, Chunk(blooms[0]), Chunks(blooms[1..]));
      assert |ToBytes(blooms[0])| < U32_SIZE && blooms[0].WellFormed();
      ChunkReads(buf, pos, blooms[0]);
      ChunksRead(buf, pos + |Chunk(blooms[0])|, blooms[1..]);
      assert [blooms[0]] + blooms[1..] == blooms;
    }
  }

  /** If the chunks come back as they were, no length was cut. */
  lemma {:induction false} ChunksUncut(buf: seq<byte>, pos: nat, blooms: seq<Bloom>)
    requires At(buf, pos, Chunks(blooms))
    requires ReadChunks(buf, pos, |blooms|).Some? && ReadChunks(buf, pos, |blooms|).value.0 == blooms
    ensures forall i :: 0 <= i < |blooms| ==> |ToBytes(blooms[i])| < U32_SIZE
    decreases |blooms|
  {
    hide U32, ReadU32, FromBytes, ToBytes;
    if blooms != [] {
      var b := blooms[0];
      AtSplit(buf, pos, Chunk(b), Chunks(blooms[1..]));
      AtSplit(buf, pos, U32(|ToBytes(b)|), ToBytes(b));
      U32Reads(buf, pos, |ToBytes(b)|);
      var (read, at) := ReadChunk(buf, pos).value;
      assert ReadChunks(buf, pos, |blooms|).value.0[0] == read;
      BytesCanonical(buf[pos + 4..at]);
      var tail := ReadChunks(buf, at, |blooms| - 1).value.0;
      assert ReadChunks(buf, pos, |blooms|).value.0[1..] == tail;
      ChunksUncut(buf, at, blooms[1..]);
    }
  }

  /** A list payload opens with the letters LKBL and a 1. */
  lemma ListOpens(blooms: seq<Bloom>)
    ensures |ListBytes(blooms)| >= 5 && ListBytes(blooms)[..5] == [0x4C, 0x4B, 0x42, 0x4C, 1]
  {
    hide U32, Chunks;
  }

  lemma ListHeader(blooms: seq<Bloom>)
    ensures var bytes := ListBytes(blooms);
            && |bytes| >= 9 && bytes[..4] == LIST_MAGIC && bytes[4] == VERSION
            && ReadU32(bytes, 5) == Some((|blooms| % U32_SIZE, 9)) && At(bytes, 9, Chunks(blooms))
  {
    hide U32, Chunks, ReadU32;
    var bytes, tail := ListBytes(blooms), U32(|blooms|) + Chunks(blooms);
    assert bytes[5..5 + |tail|] == tail;
    AtSplit(bytes, 5, U32(|blooms|), Chunks(blooms));
    U32Reads(bytes, 5, |blooms|);
  }

  /**
   * A list of well-formed blooms comes back in order if and only if its count and every
   * length fit 32 bits.
   */
  lemma ListRoundTrip(blooms: seq<Bloom>)
    requires AllWellFormed(blooms)
    ensures ReadList(ListBytes(blooms)) == Some(blooms) <==> Fits(blooms)
  {
    hide Chunks, ReadU32, ReadChunks, ListBytes, ToBytes;
    ListHeader(blooms);
    var bytes := ListBytes(blooms);
    if Fits(blooms) {
      ChunksRead(bytes, 9, blooms);
    }
    if ReadList(bytes) == Some(blooms) {
      assert |blooms| % U32_SIZE == |blooms|;
      ChunksUncut(bytes, 9, blooms);
    }
  }

  /** What the reader takes the bytes of a bloom for, their length cut to 32 bits. */
  function Cut(b: Bloom): (r: Option<Bloom>)
    requires b.WellFormed()
    ensures |ToBytes(b)| < U32_SIZE ==> r == Some(b)
  {
    var len := |ToBytes(b)| % U32_SIZE;
    assert b.bits[..|b.bits|] == b.bits;
    if len < 7 then None else Some(Bloom(b.k, b.bits[..len - 6]))
  }

  lemma CutReads(b: Bloom)
    requires b.WellFormed()
    ensures FromBytes(ToBytes(b)[..|ToBytes(b)| % U32_SIZE]) == Cut(b)
  {
    var bytes, len := ToBytes(b), |ToBytes(b)| % U32_SIZE;
    if len >= 7 {
      assert bytes[..len][..4] == BLOOM_MAGIC && bytes[..len][6..] == b.bits[..len - 6];
    }
  }

  lemma CutChunkReads(buf: seq<byte>, pos: nat, b: Bloom)
    requires At(buf, pos, Chunk(b)) && b.WellFormed()
    ensures ReadChunk(buf, pos)
         == if Cut(b).None? then None else Some((Cut(b).value, pos + 4 + |ToBytes(b)| % U32_SIZE))
  {
    hide U32, ReadU32, ToBytes, FromBytes, Cut;
    var len := |ToBytes(b)| % U32_SIZE;
    AtSplit(buf, pos, U32(|ToBytes(b)|), ToBytes(b));
    U32Reads(buf, pos, |ToBytes(b)|);
    AtPart(buf, pos + 4, ToBytes(b), 0, len);
    CutReads(b);
  }

  lemma {:induction false} ChunksSplit(a: seq<Bloom>, b: seq<Bloom>)
    ensures Chunks(a + b) == Chunks(a) + Chunks(b)
  {
    hide Chunk;
    if a == [] {
      assert a + b == b && Chunks(a) + Chunks(b) == Chunks(b);
    } else {
      assert (a + b)[1..] == a[1..] + b;
      ChunksSplit(a[1..], b);
      Concat3(Chunk(a[0]), Chunks(a[1..]), Chunks(b));
    }
  }

  lemma {:induction false} ReadChunksSplit(buf: seq<byte>, pos: nat, m: nat, n: nat)
    requires ReadChunks(buf, pos, m).Some?
    ensures ReadChunks(buf, pos, m + n)
         == Behind(ReadChunks(buf, pos, m).value.0, ReadChunks(buf, ReadChunks(buf, pos, m).value.1, n))
    decreases m
  {
    hide ReadChunk;
    if m == 0 {
      BehindNothing(ReadChunks(buf, pos, n));
    } else {
      var (b, at) := ReadChunk(buf, pos).value;
      var (bs, end) := ReadChunks(buf, at, m - 1).value;
      ReadChunksSplit(buf, at, m - 1, n);
      if ReadChunks(buf, end, n).Some? {
        Concat3([b], bs, ReadChunks(buf, end, n).value.0);
      }
    }
  }

  /** The first `n` of the blooms fit: that is what a reader told `n` gets. */
  lemma PrefixReads(buf: seq<byte>, pos: nat, blooms: seq<Bloom>, n: nat)
    requires At(buf, pos, Chunks(blooms)) && AllWellFormed(blooms) && n <= |blooms|
    requires forall i :: 0 <= i < n ==> |ToBytes(blooms[i])| < U32_SIZE
    ensures ReadChunks(buf, pos, n) == Some((blooms[..n], pos + |Chunks(blooms[..n])|))
    ensures At(buf, pos + |Chunks(blooms[..n])|, Chunks(blooms[n..]))
  {
    hide Chunks, ReadChunks, ToBytes;
    ChunksSplit(blooms[..n], blooms[n..]);
    assert blooms[..n] + blooms[n..] == blooms;
    AtSplit(buf, pos, Chunks(blooms[..n]), Chunks(blooms[n..]));
    ChunksRead(buf, pos, blooms[..n]);
  }

  /** A count cut to 32 bits: of blooms that fit, the reader gets as many as the cut count says. */
  lemma CountCut(blooms: seq<Bloom>)
    requires AllWellFormed(blooms)
    requires forall i :: 0 <= i < |blooms| % U32_SIZE ==> |ToBytes(blooms[i])| < U32_SIZE
    ensures ReadList(ListBytes(blooms)) == Some(blooms[..|blooms| % U32_SIZE])
  {
    hide Chunks, ReadU32, ReadChunks, ListBytes, ToBytes;
    ListHeader(blooms);
    PrefixReads(ListBytes(blooms), 9, blooms, |blooms| % U32_SIZE);
  }

  /**
   * Bloom `k` is the first too long: the list reads as absent if what is left of its length is less
   * than a bloom, or the bytes after that do not read as the blooms still due; otherwise it reads as
   * a different list, with the start of bloom `k` in its place.
   */
  lemma LengthCut(blooms: seq<Bloom>, k: nat)
    requires AllWellFormed(blooms) && k < |blooms| % U32_SIZE && |ToBytes(blooms[k])| >= U32_SIZE
    requires forall i :: 0 <= i < k ==> |ToBytes(blooms[i])| < U32_SIZE
    ensures var bytes, cut := ListBytes(blooms), Cut(blooms[k]);
            var end := 9 + |Chunks(blooms[..k])| + 4 + |ToBytes(blooms[k])| % U32_SIZE;
            var due := ReadChunks(bytes, end, |blooms| % U32_SIZE - k - 1);
            && ReadList(bytes)
               == (if cut.None? || due.None? then None else Some(blooms[..k] + ([cut.value] + due.value.0)))
            && ReadList(bytes) != Some(blooms)
  {
    hide Chunks, ReadU32, ListBytes, ToBytes, ReadChunks, Cut, AllWellFormed;
    ListHeader(blooms);
    CutChunksRead(ListBytes(blooms), 9, blooms, k, |blooms| % U32_SIZE);
    assert !Fits(blooms);
    ListRoundTrip(blooms);
  }

  lemma CutChunksRead(buf: seq<byte>, pos: nat, blooms: seq<Bloom>, k: nat, n: nat)
    requires At(buf, pos, Chunks(blooms)) && AllWellFormed(blooms) && k < n <= |blooms|
    requires forall i :: 0 <= i < k ==> |ToBytes(blooms[i])| < U32_SIZE
    ensures var cut := Cut(blooms[k]);
            var end := pos + |Chunks(blooms[..k])| + 4 + |ToBytes(blooms[k])| % U32_SIZE;
            ReadChunks(buf, pos, n) ==
            if cut.None? then None else Behind(blooms[..k], Behind([cut.value], ReadChunks(buf, end, n - k - 1)))
  {
    hide Chunks, ToBytes, ReadChunks, Chunk, Cut;
    PrefixReads(buf, pos, blooms, k);
    var at := pos + |Chunks(blooms[..k])|;
    FirstChunk(buf, at, blooms[k..]);
    CutTailReads(buf, at, blooms[k], n - k);
    ReadChunksSplit(buf, pos, k, n - k);
  }

  lemma CutTailReads(buf: seq<byte>, pos: nat, b: Bloom, n: nat)
    requires At(buf, pos, Chunk(b)) && b.WellFormed() && n > 0
    ensures var cut := Cut(b);
            var due := ReadChunks(buf, pos + 4 + |ToBytes(b)| % U32_SIZE, n - 1);
            ReadChunks(buf, pos, n) == if cut.None? then None else Behind([cut.value], due)
  {
    hide ToBytes, ReadChunk, Chunk, Cut;
    CutChunkReads(buf, pos, b);
  }

  lemma FirstChunk(buf: seq<byte>, pos: nat, blooms: seq<Bloom>)
    requires blooms != [] && At(buf, pos, Chunks(blooms))
    ensures At(buf, pos, Chunk(blooms[0]))
  {
    AtSplit(buf, pos, Chunk(blooms[0]), Chunks(blooms[1..]));
  }

  lemma ReadChunkExtends(buf: seq<byte>, pos: nat, more: seq<byte>)
    requires ReadChunk(buf, pos).Some?
    ensures ReadChunk(buf + more, pos) == ReadChunk(buf, pos)
  {
    hide FromBytes, ReadU32;
    ReadU32Extends(buf, pos, more);
    var (len, at) := ReadU32(buf, pos).value;
    assert (buf + more)[at..at + len] == buf[at..at + len];
  }

  lemma {:induction false} ReadChunksExtends(buf: seq<byte>, pos: nat, n: nat, more: seq<byte>)
    requires ReadChunks(buf, pos, n).Some?
    ensures ReadChunks(buf + more, pos, n) == ReadChunks(buf, pos, n)
    decreases n
  {
    hide ReadChunk;
    if n > 0 {
      ReadChunkExtends(buf, pos, more);
      ReadChunksExtends(buf, ReadChunk(buf, pos).value.1, n - 1, more);
    }
  }

  /** Unlike the footer body, a list payload may carry anything after its last bloom. */
  lemma ListIgnoresTail(bytes: seq<byte>, more: seq<byte>)
    requires ReadList(bytes).Some?
    ensures ReadList(bytes + more) == ReadList(bytes)
  {
    hide ReadU32, ReadChunks;
    ReadU32Extends(bytes, 5, more);
    var (n, at) := ReadU32(bytes, 5).value;
    ReadChunksExtends(bytes, at, n, more);
    assert (bytes + more)[..4] == bytes[..4];
  }

  lemma LeDigits(a: nat, b: nat, c: nat, d: nat)
    requires a < 0x100 && b < 0x100 && c < 0x100 && d < 0x100
    ensures 0 <= FromLe(a, b, c, d) < U32_SIZE && U32(FromLe(a, b, c, d)) == [a, b, c, d]
  {
    var v := FromLe(a, b, c, d);
    assert v % U32_SIZE == v;
    assert v % 0x100 == a;
    assert v / 0x100 == b + 0x100 * c + 0x1_0000 * d;
    assert v / 0x100 % 0x100 == b;
    assert v / 0x1_0000 == c + 0x100 * d;
    assert v / 0x1_0000 % 0x100 == c;
    assert v / 0x100_0000 == d;
  }

  lemma U32Canonical(buf: seq<byte>, pos: nat)
    requires ReadU32(buf, pos).Some?
    ensures At(buf, pos, U32(ReadU32(buf, pos).value.0))
  {
    LeDigits(buf[pos], buf[pos + 1], buf[pos + 2], buf[pos + 3]);
    hide FromLe, U32;
    assert buf[pos..pos + 4] == [buf[pos], buf[pos + 1], buf[pos + 2], buf[pos + 3]];
  }

  lemma ChunkCanonical(buf: seq<byte>, pos: nat)
    requires ReadChunk(buf, pos).Some?
    ensures var (b, at) := ReadChunk(buf, pos).value;
            b.WellFormed() && At(buf, pos, Chunk(b)) && at == pos + |Chunk(b)|
  {
    hide U32, ReadU32, ToBytes, FromBytes;
    var (len, from) := ReadU32(buf, pos).value;
    U32Canonical(buf, pos);
    BytesCanonical(buf[from..from + len]);
    AtJoin(buf, pos, U32(len), buf[from..from + len]);
  }

  lemma {:induction false} ChunksCanonical(buf: seq<byte>, pos: nat, n: nat)
    requires pos <= |buf| && ReadChunks(buf, pos, n).Some?
    ensures AllWellFormed(ReadChunks(buf, pos, n).value.0) && At(buf, pos, Chunks(ReadChunks(buf, pos, n).value.0))
    decreases n
  {
    hide ReadChunk, Chunk;
    if n > 0 {
      var (b, at) := ReadChunk(buf, pos).value;
      var bs := ReadChunks(buf, at, n - 1).value.0;
      ChunkCanonical(buf, pos);
      ChunksCanonical(buf, at, n - 1);
      AtJoin(buf, pos, Chunk(b), Chunks(bs));
      assert ([b] + bs)[1..] == bs;
    }
  }

  /** An accepted list payload is what the writer emits for its blooms, then whatever follows. */
  lemma ListCanonical(bytes: seq<byte>)
    requires ReadList(bytes).Some?
    ensures AllWellFormed(ReadList(bytes).value) && ListBytes(ReadList(bytes).value) <= bytes
  {
    hide U32, ReadU32, Chunks, ReadChunks;
    var (n, at) := ReadU32(bytes, 5).value;
    var blooms := ReadChunks(bytes, at, n).value.0;
    U32Canonical(bytes, 5);
    ChunksCanonical(bytes, at, n);
    AtJoin(bytes, 5, U32(n), Chunks(blooms));
    assert bytes[..5] == LIST_MAGIC + [VERSION];
    var tail := U32(n) + Chunks(blooms);
    assert bytes[..5 + |tail|] == bytes[..5] + bytes[5..5 + |tail|];
  }
}
