/**
 Errors that no pass notices: what the pass after one sees, when the error left the hash
 right and the chunks wrong.
 */
module Undetected {
  import opened Words
  import opened Binary
  import opened Memory
  import opened Fnv
  import opened Separation
  import opened ArenaImage
  import opened FaultCapture
  import opened Rewind
  import opened ProbeRun

  /* ---------------- where the nodes lie in the hashed bytes ---------------- */

  lemma {:induction false} NodeBytesOfSum(a: seq<Word16>, b: seq<Word16>)
    ensures NodeBytes(a + b) == NodeBytes(a) + NodeBytes(b)
  {
    if b == [] {
      assert a + b == a;
    } else {
      var last := |b| - 1;
      assert (a + b)[..|a + b| - 1] == a + b[..last];
      NodeBytesOfSum(a, b[..last]);
    }
  }

  lemma {:induction false} NodeBytesLength(s: seq<Word16>)
    ensures |NodeBytes(s)| == 2 * |s|
  {
    hide LE16;
    if s != [] { NodeBytesLength(s[..|s| - 1]); }
  }

  lemma {:induction false} NodeBytesInjective(a: seq<Word16>, b: seq<Word16>)
    requires |a| == |b| && NodeBytes(a) == NodeBytes(b)
    ensures a == b
  {
    hide LE16;
    if a != [] {
      var last := |a| - 1;
      assert NodeBytes(a) == NodeBytes(a[..last]) + LE16(a[last]);
      assert NodeBytes(b) == NodeBytes(b[..last]) + LE16(b[last]);
      hide NodeBytes;
      NodeBytesLength(a[..last]);
      NodeBytesLength(b[..last]);
      SplitLast(NodeBytes(a[..last]), LE16(a[last]), NodeBytes(b[..last]), LE16(b[last]));
      NodeBytesInjective(a[..last], b[..last]);
      SameNode(a[last], b[last]);
      assert a == a[..last] + [a[last]] && b == b[..last] + [b[last]];
    }
  }

  lemma SplitLast(a: seq<Byte>, p: seq<Byte>, b: seq<Byte>, q: seq<Byte>)
    requires |a| == |b| && a + p == b + q
    ensures a == b && p == q
  {
    assert a == (a + p)[..|a|] && b == (b + q)[..|a|];
    assert p == (a + p)[|a|..] && q == (b + q)[|a|..];
  }

  lemma SameNode(v: Word16, w: Word16)
    requires LE16(v) == LE16(w)
    ensures v == w
  {
    assert LE16(v)[0] == LE16(w)[0] && LE16(v)[1] == LE16(w)[1];
  }

  lemma {:induction false} AllChunkBytesOfSum(a: seq<seq<Word16>>, b: seq<seq<Word16>>)
    ensures AllChunkBytes(a + b) == AllChunkBytes(a) + AllChunkBytes(b)
  {
    hide ChunkBytes;
    if b == [] {
      assert a + b == a;
    } else {
      var last := |b| - 1;
      assert (a + b)[..|a + b| - 1] == a + b[..last];
      AllChunkBytesOfSum(a, b[..last]);
    }
  }

  // Sizes and nodes can be read back from the hashed bytes.
  lemma StateBytesInjective(a: seq<seq<Word16>>, b: seq<seq<Word16>>)
    requires |a| < W && |b| < W && forall chunk :: chunk in a || chunk in b ==> |chunk| < W
    requires StateBytes(a) == StateBytes(b)
    ensures a == b
  {
    hide SizeBytes, AllChunkBytes;
    SizeLength(|a|);
    SizeLength(|b|);
    SplitLast(SizeBytes(|a|), AllChunkBytes(a), SizeBytes(|b|), AllChunkBytes(b));
    SizeInjective(|a|, |b|);
    ChunksInjective(a, b);
  }

  lemma SizeLength(n: nat)
    ensures |SizeBytes(n)| == 8
  {
  }

  lemma SizeInjective(n: Word, m: Word)
    requires SizeBytes(n) == SizeBytes(m)
    ensures n == m
  {
    assert n % W == n && m % W == m;
    hide LE64, FromLE64;
    FromLE64OfLE64(n);
    FromLE64OfLE64(m);
  }

  lemma {:induction false} ChunksInjective(a: seq<seq<Word16>>, b: seq<seq<Word16>>)
    requires |a| == |b| && (forall chunk :: chunk in a || chunk in b ==> |chunk| < W)
    requires AllChunkBytes(a) == AllChunkBytes(b)
    ensures a == b
  {
    hide AllChunkBytes, SizeBytes, NodeBytes;
    if a != [] {
      FirstChunk(a);
      FirstChunk(b);
      assert a[0] in a && b[0] in b;
      SameFirst(a[0], AllChunkBytes(a[1..]), b[0], AllChunkBytes(b[1..]));
      ChunksInjective(a[1..], b[1..]);
      assert a == [a[0]] + a[1..] && b == [b[0]] + b[1..];
    }
  }

  lemma SameFirst(c: seq<Word16>, x: seq<Byte>, d: seq<Word16>, y: seq<Byte>)
    requires |c| < W && |d| < W
    requires SizeBytes(|c|) + (NodeBytes(c) + x) == SizeBytes(|d|) + (NodeBytes(d) + y)
    ensures c == d && x == y
  {
    SizeLength(|c|);
    SizeLength(|d|);
    hide SizeBytes, NodeBytes;
    SplitLast(SizeBytes(|c|), NodeBytes(c) + x, SizeBytes(|d|), NodeBytes(d) + y);
    SizeInjective(|c|, |d|);
    NodeBytesLength(c);
    NodeBytesLength(d);
    SplitLast(NodeBytes(c), x, NodeBytes(d), y);
    NodeBytesInjective(c, d);
  }

  lemma FirstChunk(a: seq<seq<Word16>>)
    requires a != []
    ensures AllChunkBytes(a) == SizeBytes(|a[0]|) + (NodeBytes(a[0]) + AllChunkBytes(a[1..]))
  {
    assert a == [a[0]] + a[1..];
    AllChunkBytesOfSum([a[0]], a[1..]);
    OneChunk(a[0]);
    hide AllChunkBytes, SizeBytes, NodeBytes;
  }

  // The hashed bytes before the nodes of chunk c, and behind them.
  function Front(data: seq<seq<Word16>>, c: nat): seq<Byte>
    requires c < |data|
  {
    SizeBytes(|data|) + AllChunkBytes(data[..c]) + SizeBytes(|data[c]|)
  }

  function Back(data: seq<seq<Word16>>, c: nat): seq<Byte>
    requires c < |data|
  {
    AllChunkBytes(data[c + 1..])
  }

  lemma StateBytesAround(data: seq<seq<Word16>>, c: nat)
    requires c < |data|
    ensures StateBytes(data) == Front(data, c) + NodeBytes(data[c]) + Back(data, c)
  {
    hide SizeBytes, NodeBytes, AllChunkBytes;
    var nodes, rest := data[c], data[c + 1..];
    assert data == data[..c] + ([nodes] + rest);
    AllChunkBytesOfSum(data[..c], [nodes] + rest);
    AllChunkBytesOfSum([nodes], rest);
    OneChunk(nodes);
  }

  lemma OneChunk(nodes: seq<Word16>)
    ensures AllChunkBytes([nodes]) == ChunkBytes(nodes)
  {
    hide ChunkBytes;
    var none: seq<seq<Word16>> := [];
    assert [nodes][..0] == none;
    assert AllChunkBytes([nodes]) == AllChunkBytes(none) + ChunkBytes(nodes);
  }

  // The nodes of a chunk, other than the three from n on.
  ghost predicate SameBeside(a: seq<Word16>, b: seq<Word16>, n: nat) {
    |a| == |b| && n <= |a| && a[..n] == b[..n] && (n + 3 <= |a| ==> a[n + 3..] == b[n + 3..])
  }

  // Chunks that differ in at most three consecutive nodes have different hashes.
  lemma SpoiltNodesChangeHash(data: seq<seq<Word16>>, c: nat, nodes: seq<Word16>, n: nat)
    requires c < |data| && SameBeside(data[c], nodes, n)
    requires nodes != data[c]
    ensures Hash(StateBytes(data[c := nodes])) != Hash(StateBytes(data))
  {
    var other := data[c := nodes];
    StateBytesAround(data, c);
    StateBytesAround(other, c);
    assert other[..c] == data[..c] && other[c + 1..] == data[c + 1..];
    var front, back := Front(data, c), Back(data, c);
    assert front == Front(other, c) && back == Back(other, c);
    hide StateBytes, Hash, NodeBytes, Front, Back;
    var a, b := StateBytes(data), StateBytes(other);
    var u, v := NodeBytes(data[c]), NodeBytes(nodes);
    NodesBeside(data[c], nodes, n);
    var m := |front| + 2 * n;
    assert a == front + u + back && b == front + v + back;
    forall i | 0 <= i < |a| && !(m <= i < m + 6)
      ensures a[i] == b[i]
    {
      if |front| <= i < |front| + |u| { assert a[i] == u[i - |front|] && b[i] == v[i - |front|]; }
    }
    assert SameOutside(a, b, m);
    if Hash(a) == Hash(b) {
      SameHashSameBytes(a, b, m);
      assert u == a[|front|..|front| + |u|] && v == b[|front|..|front| + |u|];
      NodeBytesInjective(data[c], nodes);
    }
  }

  lemma NodesBeside(a: seq<Word16>, b: seq<Word16>, n: nat)
    requires SameBeside(a, b, n)
    ensures SameOutside(NodeBytes(a), NodeBytes(b), 2 * n)
  {
    hide NodeBytes;
    var k := if n + 3 <= |a| then n + 3 else |a|;
    Parts(a, n, k);
    Parts(b, n, k);
  }

  lemma Parts(s: seq<Word16>, n: nat, k: nat)
    requires n <= k <= |s|
    ensures NodeBytes(s) == NodeBytes(s[..n]) + NodeBytes(s[n..k]) + NodeBytes(s[k..])
    ensures |NodeBytes(s[..n])| == 2 * n && |NodeBytes(s[n..k])| == 2 * (k - n)
    ensures |NodeBytes(s[k..])| == 2 * (|s| - k)
  {
    hide NodeBytes;
    assert s == s[..n] + (s[n..k] + s[k..]);
    NodeBytesOfSum(s[..n], s[n..k] + s[k..]);
    NodeBytesOfSum(s[n..k], s[k..]);
    NodeBytesLength(s[..n]);
    NodeBytesLength(s[n..k]);
    NodeBytesLength(s[k..]);
  }

  /* ---------------- the pass after an undetected error ---------------- */

  // An error that leaves the hash right and up to three consecutive nodes of a chunk wrong
  // is filed one pass late: the next healthy pass is a mismatch, and the arena is rebuilt.
  lemma SpoiltNodesShowNext(c: nat, nodes: seq<Word16>, n: nat, error: Fate, healthy: Fate, begin: Word, end: Word)
    requires c < CHUNK_COUNT && SameBeside(TheData()[c], nodes, n) && nodes != TheData()[c]
    requires error.Disturbed? && error.hash == TheHash() && healthy.Healthy?
    requires Holds(error.mem, error.shadow, TheData()[c := nodes])
    ensures error.Survivable() && !error.Detectable()
    ensures Tally([error], begin, end).detections == 0 && Spoilt(Held([error]))
    ensures Tally([error, healthy], begin, end) == Counts(2, 1, 0, 0, 1)
    ensures Held([error, healthy]) == TheData()
  {
    hide Holds, StateBytes, Hash, DataIn;
    var data := TheData()[c := nodes];
    SpoiltNodesChangeHash(TheData(), c, nodes, n);
    HoldsOne(error.mem, error.shadow, data);
    assert [error][..0] == [] && Held([]) == TheData();
    assert Held([error]) == data;
    assert [error, healthy][..1] == [error];
  }

  // An error can also leave an arena no pass can start in, and nothing notices.
  lemma ErrorNobodyNotices(regs: Regs, words: StackBytes, begin: Word, end: Word) returns (error: Fate)
    ensures error.Disturbed? && error.Possible() && !error.Detectable() && !error.Survivable()
    ensures !ReadyImage(error.mem, error.shadow)
    ensures Tally([error], begin, end).detections == 0 && Unhealthy([error]) == 1
  {
    hide TheHash, TheData, Spoilt, Holds;
    error := Disturbed(TheHash(), regs, words, seq(ARENA_BYTES, _ => 0), seq(ARENA_BYTES / 8, _ => 0));
    forall data
      ensures !Holds(error.mem, error.shadow, data)
    {
      NothingHeld(error.mem, error.shadow, data);
    }
    UndetectedIsNotCounted(error, begin, end);
  }

  lemma UndetectedIsNotCounted(error: Fate, begin: Word, end: Word)
    requires !error.Detectable()
    ensures Tally([error], begin, end).detections == 0 && Unhealthy([error]) == 1
  {
    hide TheHash, TheData, Spoilt, Held;
    var none: seq<Fate> := [];
    assert [error][..0] == none;
    assert Tally(none, begin, end).detections == 0 && Unhealthy(none) == 0;
  }

  lemma NothingHeld(m: seq<Byte>, sh: seq<Byte>, data: seq<seq<Word16>>)
    requires forall i :: 0 <= i < |m| ==> m[i] == 0
    ensures !Holds(m, sh, data)
  {
    NothingRepresented(m, data);
  }

  lemma NothingRepresented(m: seq<Byte>, data: seq<seq<Word16>>)
    requires forall i :: 0 <= i < |m| ==> m[i] == 0
    ensures !Represents(m, ARENA_BASE, VECTOR_AT, data)
  {
    if VECTOR_AT + 24 <= |m| {
      var begin := m[VECTOR_AT..VECTOR_AT + 8];
      assert FromLE32(begin[..4]) == 0 && FromLE32(begin[4..]) == 0;
      assert Get8(m, VECTOR_AT) == 0;
    }
  }
}
