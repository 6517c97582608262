/**
 The data the payload hashes (src/rbx.cpp:78-164) and what it is supposed to compute
 from it (rbx-repro/repro.cpp:32-69): a std::vector of chunks, each holding a
 std::vector of 16-bit nodes, laid out in the arena by hand.
 */
module ArenaImage {
  import opened Words
  import opened Binary
  import opened Memory
  import opened Fnv
  import opened Shadow
  import opened FakeStack
  import opened Frames

  type Word16 = x: int | 0 <= x < 0x1_0000

  const ARENA_BASE: Word := 0x6000_0000_0000
  const STACK_SIZE_LOG: nat := 20
  const STACK_REGION: nat := 0xc00000
  const DATA_REGION: nat := 0x100000
  const ARENA_BYTES: nat := STACK_REGION + DATA_REGION
  const VECTOR_AT: nat := STACK_REGION + 0x100
  const CHUNKS_AT: nat := STACK_REGION + 0x1000
  const NODES_AT: nat := STACK_REGION + 0x10000
  const STRIDE: nat := 0x2800
  const DATA_SEED: Word32 := 12345

  /* ---------------- the hash of a vector of chunks ---------------- */

  function LE16(n: Word16): (bytes: seq<Byte>)
    ensures |bytes| == 2
  {
    [n % 0x100, n / 0x100]
  }

  function Absorb(acc: Word, bytes: seq<Byte>): Word {
    if bytes == [] then acc else Step(Absorb(acc, bytes[..|bytes| - 1]), bytes[|bytes| - 1])
  }

  function NodeBytes(nodes: seq<Word16>): seq<Byte> {
    if nodes == [] then [] else NodeBytes(nodes[..|nodes| - 1]) + LE16(nodes[|nodes| - 1])
  }

  // A std::size_t as eight bytes.
  function SizeBytes(n: nat): seq<Byte> { LE64(n % W) }

  lemma SizeBytesInOrder(n: Word)
    ensures SizeBytes(n) == LowBytes(n, 8)
  {
    hide LE64, LowBytes;
    assert n % W == n;
    LowBytesAreLE64(n);
  }

  function ChunkBytes(nodes: seq<Word16>): seq<Byte> {
    SizeBytes(|nodes|) + NodeBytes(nodes)
  }

  function AllChunkBytes(chunks: seq<seq<Word16>>): seq<Byte> {
    if chunks == [] then []
    else AllChunkBytes(chunks[..|chunks| - 1]) + ChunkBytes(chunks[|chunks| - 1])
  }

  // Every byte emit_state passes to the hash, in order.
  function StateBytes(chunks: seq<seq<Word16>>): seq<Byte> {
    SizeBytes(|chunks|) + AllChunkBytes(chunks)
  }

  lemma {:induction false} AbsorbConcat(acc: Word, a: seq<Byte>, b: seq<Byte>)
    ensures Absorb(acc, a + b) == Absorb(Absorb(acc, a), b)
  {
    if b == [] {
      assert a + b == a;
    } else {
      var last := |b| - 1;
      assert (a + b)[..|a + b| - 1] == a + b[..last];
      AbsorbConcat(acc, a, b[..last]);
    }
  }

  lemma {:induction false} AbsorbIsHash(bytes: seq<Byte>)
    ensures Absorb(BASIS, bytes) == Hash(bytes)
  {
    if bytes != [] {
      var last := |bytes| - 1;
      AbsorbIsHash(bytes[..last]);
      HashSnoc(bytes[..last], bytes[last]);
      assert bytes[..last] + [bytes[last]] == bytes;
    }
  }

  // (value >> 8 * i) & 0xff
  function ByteOf(value: Word, i: nat): Byte {
    value / Pow2(8 * i) % 0x100
  }

  function LowBytes(value: Word, count: nat): (bytes: seq<Byte>)
    ensures |bytes| == count
  {
    seq(count, i requires 0 <= i < count => ByteOf(value, i))
  }

  lemma LowBytesSnoc(value: Word, count: nat)
    ensures LowBytes(value, count + 1) == LowBytes(value, count) + [ByteOf(value, count)]
  {
  }

  lemma ByteOfHalf(v: Word32, i: nat)
    requires i < 4
    ensures ByteOf(v, i) == LE32(v)[i]
  {
    assert Pow2(8 * 0) == 1;
    hide Pow2;
    Pow2Values();
    Pow2Add(8, 16);
  }

  // The bytes in shift order are the bytes in memory order.
  lemma LowBytesAreLE64(v: Word)
    ensures LowBytes(v, 8) == LE64(v)
  {
    forall i | 0 <= i < 8
      ensures ByteOf(v, i) == LE64(v)[i]
    {
      if i < 4 {
        LowHalf(v, i);
        ByteOfHalf(v % 0x1_0000_0000, i);
      } else {
        HighHalf(v, i - 4);
        ByteOfHalf(v / 0x1_0000_0000, i - 4);
      }
    }
  }

  lemma LowHalf(v: Word, i: nat)
    requires i < 4
    ensures ByteOf(v, i) == ByteOf(v % 0x1_0000_0000, i)
  {
    hide Pow2;
    Pow2Values();
    Pow2Add(8 * i, 32 - 8 * i);
    Pow2Add(8, 24 - 8 * i);
    DivModAssoc(v, Pow2(8 * i), Pow2(32 - 8 * i));
    DivModAssoc(v / Pow2(8 * i), 0x100, Pow2(24 - 8 * i));
  }

  lemma HighHalf(v: Word, i: nat)
    ensures ByteOf(v, i + 4) == ByteOf(v / 0x1_0000_0000, i)
  {
    hide Pow2;
    Pow2Values();
    Pow2Add(32, 8 * i);
    DivModAssoc(v, 0x1_0000_0000, Pow2(8 * i));
  }

  lemma LowBytesAreLE16(v: Word16)
    ensures LowBytes(v, 2) == LE16(v)
  {
    assert Pow2(8 * 0) == 1;
    hide Pow2;
    Pow2Values();
    assert ByteOf(v, 0) == v % 0x100;
    assert ByteOf(v, 1) == v / 0x100;
  }

  // The hash object of repro.cpp: a value, and the lambda that folds bytes into it.
  class Hasher {
    var value: Word

    constructor ()
      ensures value == BASIS
    {
      value := BASIS;
    }

    method Emit(bytes: seq<Byte>)
      modifies this
      ensures value == Absorb(old(value), bytes)
    {
      for i := 0 to |bytes|
        invariant value == Absorb(old(value), bytes[..i])
      {
        assert bytes[..i + 1][..i] == bytes[..i];
        value := Step(value, bytes[i]);
      }
      assert bytes[..|bytes|] == bytes;
    }

    method EmitU64(v: Word)
      modifies this
      ensures value == Absorb(old(value), LE64(v))
    {
      var buffer := new Byte[8](_ => 0);
      for i := 0 to 8
        invariant buffer[..i] == LowBytes(v, i)
        invariant value == old(value)
      {
        LowBytesSnoc(v, i);
        buffer[i] := ByteOf(v, i);
        assert buffer[..i + 1] == buffer[..i] + [ByteOf(v, i)];
      }
      assert buffer[..] == buffer[..8];
      LowBytesAreLE64(v);
      Emit(buffer[..]);
    }

    method EmitI16(v: Word16)
      modifies this
      ensures value == Absorb(old(value), LE16(v))
    {
      var buffer := new Byte[2](_ => 0);
      buffer[0] := v % 0x100;
      buffer[1] := v / 0x100;
      assert buffer[..] == LE16(v);
      Emit(buffer[..]);
    }

    method EmitState(chunks: seq<seq<Word16>>)
      modifies this
      ensures value == Absorb(old(value), StateBytes(chunks))
    {
      hide Absorb, ChunkBytes, LE64;
      ghost var start := value;
      EmitU64(|chunks| % W);
      ghost var prefix := SizeBytes(|chunks|);
      assert AllChunkBytes([]) == [] && prefix + [] == prefix;
      for c := 0 to |chunks|
        invariant value == Absorb(start, prefix + AllChunkBytes(chunks[..c]))
      {
        ghost var done := prefix + AllChunkBytes(chunks[..c]);
        EmitChunk(chunks[c]);
        AbsorbConcat(start, done, ChunkBytes(chunks[c]));
        assert chunks[..c + 1][..c] == chunks[..c];
        assert done + ChunkBytes(chunks[c]) == prefix + AllChunkBytes(chunks[..c + 1]);
      }
      assert chunks[..|chunks|] == chunks;
    }

    method EmitChunk(nodes: seq<Word16>)
      modifies this
      ensures value == Absorb(old(value), ChunkBytes(nodes))
    {
      hide Absorb, LE64;
      ghost var start := value;
      EmitU64(|nodes| % W);
      ghost var prefix := SizeBytes(|nodes|);
      assert prefix + [] == prefix;
      for n := 0 to |nodes|
        invariant value == Absorb(start, prefix + NodeBytes(nodes[..n]))
      {
        ghost var done := prefix + NodeBytes(nodes[..n]);
        EmitI16(nodes[n]);
        AbsorbConcat(start, done, LE16(nodes[n]));
        assert nodes[..n + 1][..n] == nodes[..n];
        assert done + LE16(nodes[n]) == prefix + NodeBytes(nodes[..n + 1]);
      }
      assert nodes[..|nodes|] == nodes;
    }
  }

  // repro.cpp's hash: FNV-1a of the bytes of the whole state.
  method HashOf(chunks: seq<seq<Word16>>) returns (hash: Word)
    ensures hash == Hash(StateBytes(chunks))
  {
    var hasher := new Hasher();
    hasher.EmitState(chunks);
    AbsorbIsHash(StateBytes(chunks));
    hash := hasher.value;
  }

  /* ---------------- the intended data ---------------- */

  // The generator of the original reproducer after n steps.
  function Seed(n: nat): Word32 {
    if n == 0 then DATA_SEED else NextSeed(Seed(n - 1))
  }

  function NextSeed(seed: Word32): Word32 {
    (seed * 1664525 + 1013904223) % 0x1_0000_0000
  }

  function Node(i: nat): Word16 { Seed(i + 1) / 0x1_0000 }

  // The powers of the multiplier.
  function Power(n: nat): nat {
    if n == 0 then 1 else 1664525 * Power(n - 1)
  }

  // What n steps of the generator come to, from 12345 on: the seed taken 1664524 times, with
  // the increment added, grows by the multiplier in each step, modulo 2^32.
  lemma {:induction false} SeedAfter(n: nat)
    ensures (1664524 * Seed(n) + 1013904223) % 0x1_0000_0000
         == (1664524 * 12345 + 1013904223) * Power(n) % 0x1_0000_0000
  {
    if n > 0 {
      SeedAfter(n - 1);
      SeedGrows(Seed(n - 1), 1664524 * 12345 + 1013904223, Power(n - 1));
    }
  }

  lemma SeedGrows(seed: Word32, start: nat, power: nat)
    requires (1664524 * seed + 1013904223) % 0x1_0000_0000 == start * power % 0x1_0000_0000
    ensures (1664524 * NextSeed(seed) + 1013904223) % 0x1_0000_0000 == start * (1664525 * power) % 0x1_0000_0000
  {
    var m: nat, x := 0x1_0000_0000, 1664524 * seed + 1013904223;
    var k := (seed * 1664525 + 1013904223) / m;
    assert 1664524 * NextSeed(seed) + 1013904223 == 1664525 * x + m * (-1664524 * k);
    ModAddMultiple(1664525 * x, m, -1664524 * k);
    MulRespectsMod(x, start * power, 1664525, m);
    Reorder(start, power);
  }

  lemma Reorder(start: nat, power: nat)
    ensures start * power * 1664525 == start * (1664525 * power)
  {
  }

  // The first nodes: the upper halves of 0x5391c44, 0x43c7ad3 and 0x8b0c4216.
  lemma FirstNodes()
    ensures Node(0) == 0x539 && Node(1) == 0x43c && Node(2) == 0x8b0c
  {
    assert Seed(1) == 0x5391c44;
    assert Seed(2) == 0x43c7ad3;
    assert Seed(3) == 0x8b0c4216;
  }

  function NodeOf(c: nat, nodeCount: nat, n: nat): Word16 { Node(c * nodeCount + n) }

  function IntendedNodes(c: nat, nodeCount: nat): (nodes: seq<Word16>)
    ensures |nodes| == nodeCount
  {
    seq(nodeCount, n requires 0 <= n < nodeCount => NodeOf(c, nodeCount, n))
  }

  function Intended(chunkCount: nat, nodeCount: nat): (chunks: seq<seq<Word16>>)
    ensures |chunks| == chunkCount
    ensures forall c :: 0 <= c < chunkCount ==> chunks[c] == IntendedNodes(c, nodeCount)
  {
    seq(chunkCount, c requires 0 <= c < chunkCount => IntendedNodes(c, nodeCount))
  }

  // The counts fit the strides and the data region.
  ghost predicate CountsFit(chunkCount: nat, nodeCount: nat) {
    && CHUNKS_AT + 32 * chunkCount <= NODES_AT
    && 2 * nodeCount <= STRIDE
    && NODES_AT + chunkCount * STRIDE <= ARENA_BYTES
  }

  lemma ActualCountsFit()
    ensures CountsFit(64, 4096)
  {
  }

  function ChunkAt(c: nat): nat { CHUNKS_AT + 32 * c }

  function NodesFor(c: nat): nat { NODES_AT + c * STRIDE }

  /* ---------------- the image in memory ---------------- */

  function Get2(m: seq<Byte>, a: nat): Word16
    requires a + 2 <= |m|
  {
    var lo: int, hi: int := m[a], m[a + 1];
    lo + 0x100 * hi
  }

  // Following the pointers from a std::vector<Chunk> object at the given offset reads
  // these chunks, and all of them lie behind the fake stack.
  ghost predicate Represents(m: seq<Byte>, base: nat, at: nat, chunks: seq<seq<Word16>>) {
    && at + 24 <= |m|
    && var begin, end := Get8(m, at) - base, Get8(m, at + 8) - base;
    && STACK_REGION <= begin && begin % 8 == 0 && end == begin + 32 * |chunks| && end <= |m|
    && Get8(m, at + 16) == base + end
    && forall c :: 0 <= c < |chunks| ==> RepresentsNodes(m, base, begin + 32 * c + 8, chunks[c])
  }

  // The same for a std::vector<int16_t>.
  ghost predicate RepresentsNodes(m: seq<Byte>, base: nat, at: nat, nodes: seq<Word16>) {
    && at + 24 <= |m|
    && var begin, end := Get8(m, at) - base, Get8(m, at + 8) - base;
    && STACK_REGION <= begin && begin % 2 == 0 && end == begin + 2 * |nodes| && end <= |m|
    && Get8(m, at + 16) == base + end
    && forall n :: 0 <= n < |nodes| ==> Get2(m, begin + 2 * n) == nodes[n]
  }

  // A memory image determines the vector it represents.
  lemma RepresentsOne(m: seq<Byte>, base: nat, at: nat, a: seq<seq<Word16>>, b: seq<seq<Word16>>)
    requires Represents(m, base, at, a) && Represents(m, base, at, b)
    ensures a == b
  {
    hide Get8, RepresentsNodes;
    forall c | 0 <= c < |a|
      ensures a[c] == b[c]
    {
      var p := Get8(m, at) - base + 32 * c + 8;
      assert RepresentsNodes(m, base, p, a[c]) && RepresentsNodes(m, base, p, b[c]);
      RepresentsSameNodes(m, base, p, a[c], b[c]);
    }
  }

  lemma RepresentsSameNodes(m: seq<Byte>, base: nat, at: nat, a: seq<Word16>, b: seq<Word16>)
    requires RepresentsNodes(m, base, at, a) && RepresentsNodes(m, base, at, b)
    ensures a == b
  {
    hide Get8, Get2;
    assert |a| == |b|;
    forall n | 0 <= n < |a|
      ensures a[n] == b[n]
    {
      assert Get2(m, Get8(m, at) - base + 2 * n) == a[n];
    }
  }

  // Chunk c and its nodes, where build_arena puts them.
  ghost predicate ChunkBuilt(m: seq<Byte>, base: nat, c: nat, nodes: seq<Word16>) {
    && ChunkAt(c) + 32 <= |m| && NodesFor(c) + 2 * |nodes| <= |m|
    && Get8(m, ChunkAt(c) + 8) == base + NodesFor(c)
    && Get8(m, ChunkAt(c) + 16) == base + NodesFor(c) + 2 * |nodes|
    && Get8(m, ChunkAt(c) + 24) == base + NodesFor(c) + 2 * |nodes|
    && NodesBuilt(m, c, nodes)
  }

  ghost predicate NodesBuilt(m: seq<Byte>, c: nat, nodes: seq<Word16>)
    requires NodesFor(c) + 2 * |nodes| <= |m|
  {
    forall n :: 0 <= n < |nodes| ==> Get2(m, NodesFor(c) + 2 * n) == nodes[n]
  }

  // Addresses that belong to chunk c.
  ghost predicate OfChunk(c: nat, nodeCount: nat, a: nat) {
    ChunkAt(c) <= a < ChunkAt(c) + 32 || NodesFor(c) <= a < NodesFor(c) + 2 * nodeCount
  }

  lemma ChunksApart(c: nat, d: nat, chunkCount: nat, nodeCount: nat, a: nat)
    requires CountsFit(chunkCount, nodeCount) && c < chunkCount && d < chunkCount && c != d
    requires OfChunk(c, nodeCount, a)
    ensures !OfChunk(d, nodeCount, a)
  {
  }

  lemma ChunkPlace(c: nat, chunkCount: nat, nodeCount: nat)
    requires CountsFit(chunkCount, nodeCount) && c < chunkCount
    ensures CHUNKS_AT <= ChunkAt(c) && ChunkAt(c) + 32 <= NODES_AT
    ensures NODES_AT <= NodesFor(c) && NodesFor(c) + 2 * nodeCount <= ARENA_BYTES
  {
  }

  lemma ChunkStays(m: seq<Byte>, m': seq<Byte>, base: nat, c: nat, nodes: seq<Word16>)
    requires ChunkBuilt(m, base, c, nodes) && |m'| == |m|
    requires forall a: nat :: a < |m| && OfChunk(c, |nodes|, a) ==> m'[a] == m[a]
    ensures ChunkBuilt(m', base, c, nodes)
  {
    hide Get8, ChunkAt, NodesFor;
    assert forall i :: ChunkAt(c) <= i < ChunkAt(c) + 32 ==> OfChunk(c, |nodes|, i);
    HeadStays(m, m', ChunkAt(c), base + NodesFor(c), base + NodesFor(c) + 2 * |nodes|);
    forall n | 0 <= n < |nodes|
      ensures Get2(m', NodesFor(c) + 2 * n) == nodes[n]
    {
      assert OfChunk(c, |nodes|, NodesFor(c) + 2 * n) && OfChunk(c, |nodes|, NodesFor(c) + 2 * n + 1);
    }
  }

  /* ---------------- building it ---------------- */

  method FnvBytes(hash: Word, value: Word, count: nat) returns (r: Word)
    ensures r == Absorb(hash, LowBytes(value, count))
  {
    r := hash;
    for i := 0 to count
      invariant r == Absorb(hash, LowBytes(value, i))
    {
      LowBytesSnoc(value, i);
      var before := LowBytes(value, i);
      assert (before + [ByteOf(value, i)])[..i] == before;
      r := Step(r, ByteOf(value, i));
    }
  }

  // One node: the next value of the generator, stored in two bytes.
  method StoreNode(mem: array<Byte>, at: nat, v: Word16)
    requires at + 2 <= mem.Length
    modifies mem
    ensures Get2(mem[..], at) == v
    ensures forall i :: 0 <= i < mem.Length && i != at && i != at + 1 ==> mem[i] == old(mem[i])
  {
    mem[at] := v % 0x100;
    mem[at + 1] := v / 0x100;
  }

  lemma NodesSnoc(nodes: seq<Word16>, n: nat)
    requires n < |nodes|
    ensures NodeBytes(nodes[..n + 1]) == NodeBytes(nodes[..n]) + LE16(nodes[n])
  {
    assert nodes[..n + 1][..n] == nodes[..n];
  }

  lemma {:induction false} NextNode(c: nat, nodeCount: nat, n: nat)
    requires n < nodeCount
    ensures NextSeed(Seed(c * nodeCount + n)) == Seed(c * nodeCount + n + 1)
    ensures IntendedNodes(c, nodeCount)[n] == Seed(c * nodeCount + n + 1) / 0x1_0000
  {
  }

  // The nodes of chunk c: stored, hashed, and the generator advanced.
  method BuildNodes(mem: array<Byte>, c: nat, chunkCount: nat, nodeCount: nat, seed0: Word32, hash0: Word)
    returns (seed: Word32, hash: Word)
    requires CountsFit(chunkCount, nodeCount) && c < chunkCount && mem.Length == ARENA_BYTES
    requires seed0 == Seed(c * nodeCount)
    modifies mem
    ensures NodesFor(c) + 2 * nodeCount <= mem.Length
    ensures NodesBuilt(mem[..], c, IntendedNodes(c, nodeCount))
    ensures forall i :: 0 <= i < mem.Length && !(NodesFor(c) <= i < NodesFor(c) + 2 * nodeCount) ==>
              mem[i] == old(mem[i])
    ensures seed == Seed(c * nodeCount + nodeCount)
    ensures hash == Absorb(hash0, NodeBytes(IntendedNodes(c, nodeCount)))
  {
    hide IntendedNodes, Seed, Absorb, NodeBytes;
    ChunkPlace(c, chunkCount, nodeCount);
    ghost var nodes := IntendedNodes(c, nodeCount);
    seed, hash := seed0, hash0;
    NoNodes(hash0, nodes);
    for n := 0 to nodeCount
      invariant seed == Seed(c * nodeCount + n)
      invariant hash == Absorb(hash0, NodeBytes(nodes[..n]))
      invariant forall k :: 0 <= k < n ==> Get2(mem[..], NodesFor(c) + 2 * k) == nodes[k]
      invariant forall i :: 0 <= i < mem.Length && !(NodesFor(c) <= i < NodesFor(c) + 2 * n) ==>
                  mem[i] == old(mem[i])
    {
      NextNode(c, nodeCount, n);
      NodesSnoc(nodes, n);
      seed := NextSeed(seed);
      var v: Word16 := seed / 0x1_0000;
      ghost var before := mem[..];
      StoreNode(mem, NodesFor(c) + 2 * n, v);
      forall k | 0 <= k < n
        ensures Get2(mem[..], NodesFor(c) + 2 * k) == Get2(before, NodesFor(c) + 2 * k)
      {
      }
      AbsorbConcat(hash0, NodeBytes(nodes[..n]), LE16(v));
      LowBytesAreLE16(v);
      hash := FnvBytes(hash, v, 2);
    }
    assert nodes[..nodeCount] == nodes;
  }

  lemma NoNodes(hash: Word, nodes: seq<Word16>)
    ensures Absorb(hash, NodeBytes(nodes[..0])) == hash
  {
  }

  method BuildChunk(mem: array<Byte>, base: Word, c: nat, chunkCount: nat, nodeCount: nat, seed0: Word32, hash0: Word)
    returns (seed: Word32, hash: Word)
    requires CountsFit(chunkCount, nodeCount) && c < chunkCount && mem.Length == ARENA_BYTES
    requires base + ARENA_BYTES < W && seed0 == Seed(c * nodeCount)
    modifies mem
    ensures ChunkBuilt(mem[..], base, c, IntendedNodes(c, nodeCount))
    ensures forall i: nat :: i < mem.Length && !OfChunk(c, nodeCount, i) ==> mem[i] == old(mem[i])
    ensures seed == Seed(c * nodeCount + nodeCount)
    ensures hash == Absorb(hash0, ChunkBytes(IntendedNodes(c, nodeCount)))
  {
    hide Get8, IntendedNodes, Seed, Absorb, NodeBytes, ChunkBytes, NodesBuilt, NodesFor, ChunkAt, LowBytes;
    ChunkPlace(c, chunkCount, nodeCount);
    StoreChunk(mem, ChunkAt(c), base + NodesFor(c), base + NodesFor(c) + 2 * nodeCount);
    ghost var headed := mem[..];
    var h := FnvBytes(hash0, nodeCount, 8);
    seed, hash := BuildNodes(mem, c, chunkCount, nodeCount, seed0, h);
    ChunkAbsorbed(hash0, IntendedNodes(c, nodeCount));
    HeadStays(headed, mem[..], ChunkAt(c), base + NodesFor(c), base + NodesFor(c) + 2 * nodeCount);
  }

  lemma ChunkAbsorbed(hash: Word, nodes: seq<Word16>)
    requires |nodes| < W
    ensures Absorb(Absorb(hash, LowBytes(|nodes|, 8)), NodeBytes(nodes)) == Absorb(hash, ChunkBytes(nodes))
  {
    hide Absorb, NodeBytes, SizeBytes, LowBytes;
    SizeBytesInOrder(|nodes|);
    AbsorbConcat(hash, SizeBytes(|nodes|), NodeBytes(nodes));
  }

  ghost predicate ChunkHead(m: seq<Byte>, at: nat, begin: Word, end: Word) {
    at + 32 <= |m| && Get8(m, at + 8) == begin && Get8(m, at + 16) == end && Get8(m, at + 24) == end
  }

  lemma HeadStays(m: seq<Byte>, m': seq<Byte>, at: nat, begin: Word, end: Word)
    requires ChunkHead(m, at, begin, end) && |m'| == |m|
    requires forall i :: at <= i < at + 32 ==> m'[i] == m[i]
    ensures ChunkHead(m', at, begin, end)
  {
    GetSame8(m, m', at + 8);
    GetSame8(m, m', at + 16);
    GetSame8(m, m', at + 24);
  }

  // The time stamp, which stays zero, and the three pointers of the node vector.
  method StoreChunk(mem: array<Byte>, at: nat, begin: Word, end: Word)
    requires at + 32 <= mem.Length
    modifies mem
    ensures ChunkHead(mem[..], at, begin, end)
    ensures forall i :: 0 <= i < mem.Length && !(at <= i < at + 32) ==> mem[i] == old(mem[i])
  {
    hide Get8, Put8;
    ghost var before := mem[..];
    Store8(mem, at, 0);
    Store8(mem, at + 8, begin);
    Store8(mem, at + 16, end);
    Store8(mem, at + 24, end);
    ThreeWords(before, mem[..], at, begin, end);
  }

  lemma ThreeWords(m: seq<Byte>, n: seq<Byte>, a: nat, v: Word, w: Word)
    requires a + 32 <= |m|
    requires n == Put8(Put8(Put8(Put8(m, a, 0), a + 8, v), a + 16, w), a + 24, w)
    ensures Get8(n, a + 8) == v && Get8(n, a + 16) == w && Get8(n, a + 24) == w
  {
    hide Put8, Get8;
    var m1 := Put8(Put8(m, a, 0), a + 8, v);
    var m2 := Put8(m1, a + 16, w);
    GetPut8(Put8(m, a, 0), a + 8, v);
    GetPut8(m1, a + 16, w);
    GetPut8(m2, a + 24, w);
    GetSame8(m1, m2, a + 8);
    GetSame8(m2, n, a + 8);
    GetSame8(m2, n, a + 16);
  }

  // An arena of the probe's own size and place.
  ghost predicate ProbeArena(a: Arena)
  {
    && a.log == STACK_SIZE_LOG && a.base == ARENA_BASE
    && a.mem != a.shadow && a.mem.Length == ARENA_BYTES && 8 * a.shadow.Length == ARENA_BYTES
  }

  lemma ProbeArenaFits()
    ensures Extent(STACK_SIZE_LOG) <= STACK_REGION
    ensures Mapped(ARENA_BASE, ARENA_BYTES / 8) && ARENA_BASE + ARENA_BYTES < W
    ensures NEEDS_GC_AT < HEADER < FramesStart(STACK_SIZE_LOG)
  {
    assert Pow2(10) == 0x400;
    Pow2Add(10, 10);
    assert Pow2(15) == 32 * Pow2(10);
  }

  // The vector object that heads the data.
  ghost predicate VectorBuilt(m: seq<Byte>, base: nat, chunkCount: nat) {
    && VECTOR_AT + 24 <= |m|
    && Get8(m, VECTOR_AT) == base + CHUNKS_AT
    && Get8(m, VECTOR_AT + 8) == base + CHUNKS_AT + 32 * chunkCount
    && Get8(m, VECTOR_AT + 16) == base + CHUNKS_AT + 32 * chunkCount
  }

  // An untouched fake stack: the size log in its header and zeroes everywhere else.
  ghost predicate StackCleared(m: seq<Byte>) {
    && |m| == ARENA_BYTES
    && Get8(m, SIZE_LOG_AT) == STACK_SIZE_LOG
    && forall i :: 0 <= i < STACK_REGION && !(SIZE_LOG_AT <= i < SIZE_LOG_AT + 8) ==> m[i] == 0
  }

  lemma ClearedIsConsistent(m: seq<Byte>)
    requires StackCleared(m)
    ensures Consistent(m, STACK_SIZE_LOG, ARENA_BASE, {}) && HeaderIntact(m, STACK_SIZE_LOG)
  {
    hide Get8, FlagOf, PointerOf, Extent, FramesStart;
    ProbeArenaFits();
    ExtentAboveHeader(STACK_SIZE_LOG);
  }

  lemma BuiltRepresents(m: seq<Byte>, base: nat, chunkCount: nat, nodeCount: nat)
    requires CountsFit(chunkCount, nodeCount) && |m| == ARENA_BYTES
    requires VectorBuilt(m, base, chunkCount)
    requires forall c :: 0 <= c < chunkCount ==> ChunkBuilt(m, base, c, IntendedNodes(c, nodeCount))
    ensures Represents(m, base, VECTOR_AT, Intended(chunkCount, nodeCount))
  {
    hide Get8, IntendedNodes, Get2;
    var chunks := Intended(chunkCount, nodeCount);
    forall c | 0 <= c < chunkCount
      ensures RepresentsNodes(m, base, CHUNKS_AT + 32 * c + 8, chunks[c])
    {
      ChunkPlace(c, chunkCount, nodeCount);
      assert ChunkBuilt(m, base, c, IntendedNodes(c, nodeCount));
    }
  }

  method StoreVector(mem: array<Byte>, base: Word, chunkCount: nat)
    requires mem.Length == ARENA_BYTES && base + ARENA_BYTES < W && CHUNKS_AT + 32 * chunkCount <= NODES_AT
    modifies mem
    ensures VectorBuilt(mem[..], base, chunkCount)
    ensures forall i :: 0 <= i < mem.Length && !(VECTOR_AT <= i < VECTOR_AT + 24) ==> mem[i] == old(mem[i])
  {
    hide Get8, Put8;
    var begin, end := base + CHUNKS_AT, base + CHUNKS_AT + 32 * chunkCount;
    ghost var m0 := mem[..];
    Store8(mem, VECTOR_AT, begin);
    ghost var m1 := mem[..];
    GetPut8(m0, VECTOR_AT, begin);
    Store8(mem, VECTOR_AT + 8, end);
    ghost var m2 := mem[..];
    GetPut8(m1, VECTOR_AT + 8, end);
    Store8(mem, VECTOR_AT + 16, end);
    GetPut8(m2, VECTOR_AT + 16, end);
    GetSame8(m1, mem[..], VECTOR_AT);
    GetSame8(m2, mem[..], VECTOR_AT + 8);
  }

  method ClearStack(a: Arena)
    requires ProbeArena(a)
    modifies a.mem, a.shadow
    ensures StackCleared(a.mem[..])
    ensures forall i :: 0 <= i < a.shadow.Length ==> a.shadow[i] == 0
  {
    hide Get8, Put8;
    Fill(a.mem, 0, a.mem.Length, 0);
    Fill(a.shadow, 0, a.shadow.Length, 0);
    ghost var before := a.mem[..];
    Store8(a.mem, SIZE_LOG_AT, STACK_SIZE_LOG);
    GetPut8(before, SIZE_LOG_AT, STACK_SIZE_LOG);
  }

  lemma ClearedStays(m: seq<Byte>, m': seq<Byte>)
    requires StackCleared(m) && |m'| == |m|
    requires forall i :: 0 <= i < STACK_REGION ==> m'[i] == m[i]
    ensures StackCleared(m')
  {
    GetSame8(m, m', SIZE_LOG_AT);
  }

  // The vector object and the first c chunks are in place, the fake stack is clear.
  ghost predicate BuiltUpTo(m: seq<Byte>, base: nat, chunkCount: nat, nodeCount: nat, c: nat) {
    && StackCleared(m)
    && VectorBuilt(m, base, chunkCount)
    && forall d: nat :: d < c ==> ChunkBuilt(m, base, d, IntendedNodes(d, nodeCount))
  }

  // Writing chunk c disturbs nothing that is already there.
  lemma BuildStep(m: seq<Byte>, m': seq<Byte>, base: nat, chunkCount: nat, nodeCount: nat, c: nat)
    requires CountsFit(chunkCount, nodeCount) && c < chunkCount
    requires BuiltUpTo(m, base, chunkCount, nodeCount, c) && |m'| == |m|
    requires ChunkBuilt(m', base, c, IntendedNodes(c, nodeCount))
    requires forall i: nat :: i < |m| && !OfChunk(c, nodeCount, i) ==> m'[i] == m[i]
    ensures BuiltUpTo(m', base, chunkCount, nodeCount, c + 1)
  {
    hide Get8, IntendedNodes, ChunkBuilt, OfChunk;
    ChunkPlace(c, chunkCount, nodeCount);
    forall i: nat | i < |m| && i < CHUNKS_AT
      ensures m'[i] == m[i]
    {
      BelowChunks(c, chunkCount, nodeCount, i);
    }
    ClearedStays(m, m');
    GetSame8(m, m', VECTOR_AT);
    GetSame8(m, m', VECTOR_AT + 8);
    GetSame8(m, m', VECTOR_AT + 16);
    forall d: nat | d < c
      ensures ChunkBuilt(m', base, d, IntendedNodes(d, nodeCount))
    {
      forall i: nat | i < |m| && OfChunk(d, nodeCount, i)
        ensures m'[i] == m[i]
      {
        ChunksApart(d, c, chunkCount, nodeCount, i);
      }
      ChunkStays(m, m', base, d, IntendedNodes(d, nodeCount));
    }
  }

  lemma BelowChunks(c: nat, chunkCount: nat, nodeCount: nat, i: nat)
    requires CountsFit(chunkCount, nodeCount) && c < chunkCount && i < CHUNKS_AT
    ensures !OfChunk(c, nodeCount, i)
  {
  }

  // The hash so far covers the chunk count and the first c chunks.
  ghost predicate HashedUpTo(hash: Word, chunks: seq<seq<Word16>>, c: nat)
    requires c <= |chunks|
  {
    hash == Absorb(BASIS, SizeBytes(|chunks|) + AllChunkBytes(chunks[..c]))
  }

  lemma HashStart(hash: Word, chunks: seq<seq<Word16>>)
    requires |chunks| < W && hash == Absorb(BASIS, LowBytes(|chunks|, 8))
    ensures HashedUpTo(hash, chunks, 0)
  {
    hide Absorb, SizeBytes, LowBytes;
    SizeBytesInOrder(|chunks|);
    assert SizeBytes(|chunks|) + AllChunkBytes(chunks[..0]) == SizeBytes(|chunks|);
  }

  lemma HashStep(hash: Word, next: Word, chunks: seq<seq<Word16>>, c: nat)
    requires c < |chunks| && HashedUpTo(hash, chunks, c)
    requires next == Absorb(hash, ChunkBytes(chunks[c]))
    ensures HashedUpTo(next, chunks, c + 1)
  {
    hide Absorb, ChunkBytes;
    var done := SizeBytes(|chunks|) + AllChunkBytes(chunks[..c]);
    AbsorbConcat(BASIS, done, ChunkBytes(chunks[c]));
    assert chunks[..c + 1][..c] == chunks[..c];
    assert done + ChunkBytes(chunks[c]) == SizeBytes(|chunks|) + AllChunkBytes(chunks[..c + 1]);
  }

  lemma HashEnd(hash: Word, chunks: seq<seq<Word16>>)
    requires HashedUpTo(hash, chunks, |chunks|)
    ensures hash == Hash(StateBytes(chunks))
  {
    assert chunks[..|chunks|] == chunks;
    AbsorbIsHash(StateBytes(chunks));
  }

  // Puts the arena into the state a pass expects, whatever it held before, and returns
  // the hash a correct pass must produce.
  method BuildArena(a: Arena, chunkCount: nat, nodeCount: nat) returns (hash: Word)
    requires ProbeArena(a) && CountsFit(chunkCount, nodeCount)
    modifies a.mem, a.shadow, a`live
    ensures a.Valid() && a.live == {}
    ensures Represents(a.mem[..], a.base, VECTOR_AT, Intended(chunkCount, nodeCount))
    ensures forall i :: 0 <= i < a.shadow.Length ==> a.shadow[i] == 0
    ensures hash == Hash(StateBytes(Intended(chunkCount, nodeCount)))
    ensures InPlace(a.mem[..], chunkCount, nodeCount)
  {
    hide Get8, Put8, IntendedNodes, Seed, StackCleared, VectorBuilt, Consistent, ChunkBuilt, Represents, OfChunk,
         HashedUpTo, Absorb, StateBytes, ChunkBytes, LowBytes, HeaderIntact, InPlace;
    ProbeArenaFits();
    ClearStack(a);
    ghost var cleared := a.mem[..];
    StoreVector(a.mem, a.base, chunkCount);
    ClearedStays(cleared, a.mem[..]);
    ghost var chunks := Intended(chunkCount, nodeCount);
    hash := FnvBytes(BASIS, chunkCount, 8);
    HashStart(hash, chunks);
    hash := BuildChunks(a.mem, a.base, chunkCount, nodeCount, hash);
    HashEnd(hash, chunks);
    BuiltRepresents(a.mem[..], a.base, chunkCount, nodeCount);
    BuiltInPlace(a.mem[..], chunkCount, nodeCount);
    ClearedIsConsistent(a.mem[..]);
    a.live := {};
  }

  // Where everything is: the fake stack, empty but for its size, in the first 12 MiB, then
  // the vector object, the chunks and the nodes.
  ghost predicate InPlace(m: seq<Byte>, chunkCount: nat, nodeCount: nat) {
    && |m| == 0xd0_0000 && Get8(m, 0x58) == 20
    && (forall i :: 0 <= i < 0xc0_0000 && !(0x58 <= i < 0x60) ==> m[i] == 0)
    && Get8(m, 0xc0_0100) == 0x6000_00c0_1000
    && Get8(m, 0xc0_0108) == Get8(m, 0xc0_0110) == 0x6000_00c0_1000 + 32 * chunkCount
    && forall c: nat :: c < chunkCount ==> ChunkInPlace(m, c, nodeCount)
  }

  ghost predicate ChunkInPlace(m: seq<Byte>, c: nat, nodeCount: nat) {
    && 0xc0_1000 + 32 * c + 32 <= |m|
    && Get8(m, 0xc0_1000 + 32 * c + 8) == 0x6000_00c1_0000 + 0x2800 * c
    && Get8(m, 0xc0_1000 + 32 * c + 16) == Get8(m, 0xc0_1000 + 32 * c + 24)
       == 0x6000_00c1_0000 + 0x2800 * c + 2 * nodeCount
  }

  lemma BuiltInPlace(m: seq<Byte>, chunkCount: nat, nodeCount: nat)
    requires BuiltUpTo(m, ARENA_BASE, chunkCount, nodeCount, chunkCount)
    ensures InPlace(m, chunkCount, nodeCount)
  {
    hide Get8, IntendedNodes, NodesBuilt;
    forall c: nat | c < chunkCount
      ensures ChunkInPlace(m, c, nodeCount)
    {
      assert ChunkBuilt(m, ARENA_BASE, c, IntendedNodes(c, nodeCount));
    }
  }

  // The chunks one after the other, the seed carried from each to the next.
  method BuildChunks(mem: array<Byte>, base: Word, chunkCount: nat, nodeCount: nat, start: Word) returns (hash: Word)
    requires CountsFit(chunkCount, nodeCount) && mem.Length == ARENA_BYTES && base + ARENA_BYTES < W
    requires BuiltUpTo(mem[..], base, chunkCount, nodeCount, 0)
    requires HashedUpTo(start, Intended(chunkCount, nodeCount), 0)
    modifies mem
    ensures BuiltUpTo(mem[..], base, chunkCount, nodeCount, chunkCount)
    ensures HashedUpTo(hash, Intended(chunkCount, nodeCount), chunkCount)
  {
    hide IntendedNodes, Seed, ChunkBuilt, OfChunk, HashedUpTo, Absorb, ChunkBytes, BuiltUpTo;
    ghost var chunks := Intended(chunkCount, nodeCount);
    var seed: Word32 := DATA_SEED;
    FirstSeed(nodeCount);
    hash := start;
    for c := 0 to chunkCount
      invariant seed == Seed(c * nodeCount)
      invariant HashedUpTo(hash, chunks, c)
      invariant BuiltUpTo(mem[..], base, chunkCount, nodeCount, c)
    {
      ghost var before, hash0 := mem[..], hash;
      SeedsUpTo(c, nodeCount);
      seed, hash := BuildChunk(mem, base, c, chunkCount, nodeCount, seed, hash);
      BuildStep(before, mem[..], base, chunkCount, nodeCount, c);
      HashStep(hash0, hash, chunks, c);
    }
  }

  lemma SeedsUpTo(c: nat, nodeCount: nat)
    ensures 0 <= c * nodeCount && c * nodeCount + nodeCount == (c + 1) * nodeCount
  {
  }

  lemma FirstSeed(nodeCount: nat)
    ensures Seed(0 * nodeCount) == DATA_SEED
  {
  }
}
