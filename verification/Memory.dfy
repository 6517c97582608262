/**
 Byte-addressed memory: eight-byte words are stored in little-endian order, and a store
 changes the bytes it covers and no others.
 */
module Memory {
  import opened Words
  import opened Binary

  function LE64(n: Word): (bytes: seq<Byte>)
    ensures |bytes| == 8
  {
    LE32(n % 0x1_0000_0000) + LE32(n / 0x1_0000_0000)
  }

  function FromLE64(bytes: seq<Byte>): Word
    requires |bytes| == 8
  {
    var lo: int, hi: int := FromLE32(bytes[..4]), FromLE32(bytes[4..]);
    lo + 0x1_0000_0000 * hi
  }

  lemma FromLE64OfLE64(n: Word)
    ensures FromLE64(LE64(n)) == n
  {
    FromLE32OfLE32(n % 0x1_0000_0000);
    FromLE32OfLE32(n / 0x1_0000_0000);
    assert LE64(n)[..4] == LE32(n % 0x1_0000_0000) && LE64(n)[4..] == LE32(n / 0x1_0000_0000);
  }

  function Put(m: seq<Byte>, a: nat, bytes: seq<Byte>): (r: seq<Byte>)
    requires a + |bytes| <= |m|
    ensures |r| == |m|
    ensures forall i :: 0 <= i < |m| ==> r[i] == if a <= i < a + |bytes| then bytes[i - a] else m[i]
  {
    m[..a] + bytes + m[a + |bytes|..]
  }

  function Get8(m: seq<Byte>, a: nat): Word
    requires a + 8 <= |m|
  {
    FromLE64(m[a..a + 8])
  }

  function Put8(m: seq<Byte>, a: nat, v: Word): (r: seq<Byte>)
    requires a + 8 <= |m|
    ensures |r| == |m|
    ensures forall i :: 0 <= i < |m| && !(a <= i < a + 8) ==> r[i] == m[i]
  {
    Put(m, a, LE64(v))
  }

  lemma GetPut8(m: seq<Byte>, a: nat, v: Word)
    requires a + 8 <= |m|
    ensures Get8(Put8(m, a, v), a) == v
  {
    assert Put8(m, a, v)[a..a + 8] == LE64(v);
    FromLE64OfLE64(v);
  }

  // A word is unchanged when none of its bytes is.
  lemma GetSame8(m: seq<Byte>, n: seq<Byte>, a: nat)
    requires a + 8 <= |m| && a + 8 <= |n|
    requires forall i :: a <= i < a + 8 ==> m[i] == n[i]
    ensures Get8(m, a) == Get8(n, a)
  {
    assert m[a..a + 8] == n[a..a + 8];
  }

  method Store(mem: array<Byte>, a: nat, bytes: seq<Byte>)
    requires a + |bytes| <= mem.Length
    modifies mem
    ensures mem[..] == Put(old(mem[..]), a, bytes)
  {
    ghost var before := mem[..];
    for i := 0 to |bytes|
      invariant forall j :: 0 <= j < mem.Length ==> mem[j] == if a <= j < a + i then bytes[j - a] else before[j]
    {
      mem[a + i] := bytes[i];
    }
  }

  method Store8(mem: array<Byte>, a: nat, v: Word)
    requires a + 8 <= mem.Length
    modifies mem
    ensures mem[..] == Put8(old(mem[..]), a, v)
  {
    Store(mem, a, LE64(v));
  }

  method Load8(mem: array<Byte>, a: nat) returns (v: Word)
    requires a + 8 <= mem.Length
    ensures v == Get8(mem[..], a)
  {
    assert mem[..][a..a + 8] == mem[a..a + 8];
    v := FromLE64(mem[a..a + 8]);
  }

  // memset
  method Fill(mem: array<Byte>, a: nat, n: nat, b: Byte)
    requires a + n <= mem.Length
    modifies mem
    ensures forall i :: 0 <= i < mem.Length ==> mem[i] == if a <= i < a + n then b else old(mem[i])
  {
    for i := 0 to n
      invariant forall j :: 0 <= j < mem.Length ==> mem[j] == if a <= j < a + i then b else old(mem[j])
    {
      mem[a + i] := b;
    }
  }
}
