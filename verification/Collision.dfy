/**
 The analysis can name the wrong byte (src/sdcprobe.cpp:305-346).

 In the twelve-byte stream below, reading 00 for byte 9 (lane 1 of sample 2, the lane
 read through CH) and reading 0x24 for byte 0 end in the same hash. Both differences
 are below 256, and the scan reports the first.
 */
module Collision {
  import opened Words
  import opened Fnv
  import opened Samples
  import opened Inversion
  import opened Detector
  import Sweep

  const STORED: seq<Word32> := [0xfbff662b, 0xb0afdc86, 0x0000cd34]

  const BYTES: seq<Byte> := [0x2b, 0x66, 0xff, 0xfb, 0x86, 0xdc, 0xaf, 0xb0, 0x34, 0xcd, 0, 0]

  lemma Lanes(value: Word32, b0: Byte, b1: Byte, b2: Byte, b3: Byte)
    requires value == (b0 as int) + 0x100 * b1 + 0x1_0000 * b2 + 0x100_0000 * b3
    ensures LaneOf(value, 0) == b0 && LaneOf(value, 1) == b1 && LaneOf(value, 2) == b2 && LaneOf(value, 3) == b3
  {
    var b: int, c: int, d: int := b1, b2, b3;
    assert value / 0x100 == b + 0x100 * c + 0x1_0000 * d;
    assert value / 0x1_0000 == c + 0x100 * d;
  }

  lemma StoredBytes()
    ensures BytesOf(STORED) == BYTES
  {
    Lanes(0xfbff662b, 0x2b, 0x66, 0xff, 0xfb);
    Lanes(0xb0afdc86, 0x86, 0xdc, 0xaf, 0xb0);
    Lanes(0x0000cd34, 0x34, 0xcd, 0, 0);
    hide LaneOf;
    var bytes := BytesOf(STORED);
    assert bytes[0..4] == BYTES[0..4] && bytes[4..8] == BYTES[4..8] && bytes[8..12] == BYTES[8..12];
    assert bytes == bytes[0..4] + bytes[4..8] + bytes[8..12];
    assert BYTES == BYTES[0..4] + BYTES[4..8] + BYTES[8..12];
  }

  // One step, computed from the low byte of the accumulator: acc is 0x100 * high + low,
  // and the product is quotient * W + next.
  lemma Advance(s: seq<Byte>, k: nat, high: nat, low: Byte, b: Byte, mixed: Byte, quotient: nat, next: Word)
    requires k < |s| && s[k] == b && Forward(s, k) == 0x100 * high + low
    requires ByteXor(low, b) == mixed
    requires (0x100 * high + mixed) * PRIME == quotient * W + next
    ensures Forward(s, k + 1) == next
  {
    hide Xor, ByteXor, Times;
    var acc := Forward(s, k);
    XorByte(acc, b);
    XorOfBytes(low, b);
    assert Xor(acc, b) == 0x100 * high + mixed;
    TimesIsProduct(Xor(acc, b), PRIME);
    DivModUnique((0x100 * high + mixed) * PRIME, W, quotient, next);
  }

  lemma Start(s: seq<Byte>)
    ensures Forward(s, 0) == 0xcbf29ce484222325
  {
  }

  // With 0x24 read for byte 0, the accumulators at bytes 5 and 9.
  lemma MisreadUpToByte5()
    ensures Forward(BYTES[0 := 0x24], 5) == 0xd1db59f6b4cbe235
  {
    hide Forward;
    var s := BYTES[0 := 0x24];
    Start(s);
    Advance(s, 0, 0xcbf29ce4842223, 0x25, 0x24, 0x1, 0xcbf29ce5de, 0xaf63994c86017ab3);
    Advance(s, 1, 0xaf63994c86017a, 0xb3, 0x66, 0xd5, 0xaf63994db0, 0x7b85207b483b7ef);
    Advance(s, 2, 0x7b85207b483b7, 0xef, 0xff, 0x10, 0x7b85207c1, 0xa1ea7317bbd01030);
    Advance(s, 3, 0xa1ea7317bbd010, 0x30, 0xfb, 0xcb, 0xa1ea7318ce, 0xf1725c54228c88f1);
    Advance(s, 4, 0xf1725c54228c88, 0xf1, 0x86, 0x77, 0xf1725c55bc, 0xd1db59f6b4cbe235);
  }

  lemma MisreadUpToByte9()
    ensures Forward(BYTES[0 := 0x24], 9) == 0xbddd60372e1d2b40
  {
    hide Forward;
    var s := BYTES[0 := 0x24];
    MisreadUpToByte5();
    Advance(s, 5, 0xd1db59f6b4cbe2, 0x35, 0xdc, 0xe9, 0xd1db59f819, 0x639cc735367291eb);
    Advance(s, 6, 0x639cc735367291, 0xeb, 0xaf, 0x44, 0x639cc735df, 0xb5f7c36b84acd68c);
    Advance(s, 7, 0xb5f7c36b84acd6, 0x8c, 0xb0, 0x3c, 0xb5f7c36cb9, 0xe0d74bb271b007f4);
    Advance(s, 8, 0xe0d74bb271b007, 0xf4, 0x34, 0xc0, 0xe0d74bb3ef, 0xbddd60372e1d2b40);
  }

  // With every byte read right.
  lemma RightUpToByte3()
    ensures Forward(BYTES, 3) == 0x11ad8817fae179c1
  {
    hide Forward;
    var s := BYTES;
    Start(s);
    Advance(s, 0, 0xcbf29ce4842223, 0x25, 0x2b, 0xe, 0xcbf29ce5de, 0xaf63a64c860190ca);
    Advance(s, 1, 0xaf63a64c860190, 0xca, 0x66, 0xac, 0xaf63a64db0, 0x7e44007b4a8d444);
    Advance(s, 2, 0x7e44007b4a8d4, 0x44, 0xff, 0xbb, 0x7e44007c2, 0x11ad8817fae179c1);
  }

  lemma RightUpToByte5()
    ensures Forward(BYTES, 5) == 0x6a29b100f0df498
  {
    hide Forward;
    var s := BYTES;
    RightUpToByte3();
    Advance(s, 3, 0x11ad8817fae179, 0xc1, 0xfb, 0x3a, 0x11ad881818, 0xeb577abf4d20fd8e);
    Advance(s, 4, 0xeb577abf4d20fd, 0x8e, 0x86, 0x8, 0xeb577ac0dd, 0x6a29b100f0df498);
  }

  lemma RightUpToByte9()
    ensures Forward(BYTES, 9) == 0xbddd60372e1d2b8d
  {
    hide Forward;
    var s := BYTES;
    RightUpToByte5();
    Advance(s, 5, 0x6a29b100f0df4, 0x98, 0xdc, 0x44, 0x6a29b101a, 0x5441c04994b60f8c);
    Advance(s, 6, 0x5441c04994b60f, 0x8c, 0xaf, 0x23, 0x5441c04a23, 0xe1c8e007b15bb879);
    Advance(s, 7, 0xe1c8e007b15bb8, 0x79, 0xb0, 0xc9, 0xe1c8e00931, 0x40d76125edafd8b);
    Advance(s, 8, 0x40d76125edafd, 0x8b, 0x34, 0xbf, 0x40d761265, 0xbddd60372e1d2b8d);
  }

  // After byte 9 both misreads have led to the same accumulator, whatever follows.
  lemma MisreadUpToByte10(rest: seq<Byte>)
    ensures Forward((BYTES + rest)[0 := 0x24], 10) == 0xbc560ac35b910097
  {
    hide Forward;
    var s := (BYTES + rest)[0 := 0x24];
    MisreadUpToByte9();
    assert s[..9] == BYTES[0 := 0x24][..9];
    ForwardPrefix(BYTES[0 := 0x24], s, 9);
    Advance(s, 9, 0xbddd60372e1d2b, 0x40, 0xcd, 0x8d, 0xbddd603870, 0xbc560ac35b910097);
  }

  lemma OtherUpToByte10(rest: seq<Byte>)
    ensures Forward((BYTES + rest)[9 := 0], 10) == 0xbc560ac35b910097
  {
    hide Forward;
    var t := (BYTES + rest)[9 := 0];
    RightUpToByte9();
    assert t[..9] == BYTES[..9];
    ForwardPrefix(BYTES, t, 9);
    Advance(t, 9, 0xbddd60372e1d2b, 0x8d, 0, 0x8d, 0xbddd603870, 0xbc560ac35b910097);
  }

  lemma SameHash(rest: seq<Byte>)
    ensures Hash((BYTES + rest)[9 := 0]) == Hash((BYTES + rest)[0 := 0x24])
  {
    hide Forward;
    MisreadUpToByte10(rest);
    OtherUpToByte10(rest);
    var s, t := (BYTES + rest)[0 := 0x24], (BYTES + rest)[9 := 0];
    SameAfter(s, t, 10);
  }

  // In every array that starts with these samples, a CH read of sample 2 that returns 00
  // for 0xcd is reported as a misread of lane 0 of sample 0.
  lemma WrongByteNamed(rest: seq<Word32>, beyond: Byte, r: ReverseResult)
    requires var bytes := BytesOf(STORED + rest); Describes(bytes, beyond, Hash(bytes[9 := 0]), r)
    ensures r.singleByte && r.sampleIndex == 0 && r.lane == 0 && r.stored == 0x2b && r.observed == 0x24
  {
    hide Forward, Xor;
    StoredBytes();
    BytesOfSum(STORED, rest);
    SameHash(BytesOf(rest));
    var bytes := BytesOf(STORED + rest);
    var wrong := Hash(bytes[9 := 0]);
    assert bytes == BYTES + BytesOf(rest) && bytes[0] == 0x2b;
    ExplainsIff(bytes, wrong, 0, 0x24);
    assert Candidate(bytes, wrong, 0);
    assert Position(r) == 0;
    ReportMeansExplanation(bytes, beyond, wrong, r);
    CandidateIffExplained(bytes, wrong, 0);
  }

  // So it is for arrays of the size the program uses.
  lemma WrongByteNamedInProgram(rest: seq<Word32>, beyond: Byte, r: ReverseResult)
    requires |STORED + rest| == Sweep.SAMPLE_COUNT
    requires var bytes := BytesOf(STORED + rest); Describes(bytes, beyond, Hash(bytes[9 := 0]), r)
    ensures (STORED + rest)[2] == 0xcd34 && BytesOf(STORED + rest)[9] == 0xcd
    ensures r.sampleIndex != 2 && r.sampleIndex == 0 && r.lane == 0
  {
    hide Forward, Xor, LaneOf;
    StoredBytes();
    BytesOfSum(STORED, rest);
    WrongByteNamed(rest, beyond, r);
  }

  /* ---------------- how sharp the distances are ---------------- */

  // If two streams have led to the same accumulator, and the same bytes follow.
  lemma SameAfter(s: seq<Byte>, t: seq<Byte>, k: nat)
    requires k <= |s| == |t| && Forward(s, k) == Forward(t, k) && s[k..] == t[k..]
    ensures Hash(s) == Hash(t)
  {
    ResumeForward(s, k);
    ResumeForward(t, k);
    ResumeSuffix(s, t, k, Forward(s, k));
  }

  // Seven bytes and another reading of all seven.
  const SEVEN: seq<Byte> := [0xd1, 0x6, 0x83, 0x3a, 0x33, 0x59, 0xdb]
  const MISREAD: seq<Byte> := [0x22, 0xa8, 0xa1, 0xb, 0xf7, 0x43, 0x21]

  lemma SevenUpToByte4()
    ensures Forward(SEVEN, 4) == 0x95cd0b3d47fcd0d7
  {
    hide Forward;
    var s := SEVEN;
    Start(s);
    Advance(s, 0, 0xcbf29ce4842223, 0x25, 0xd1, 0xf4, 0xcbf29ce5de, 0xaf648c4c8603179c);
    Advance(s, 1, 0xaf648c4c860317, 0x9c, 0x6, 0x9a, 0xaf648c4db0, 0xaf20007b7411aae);
    Advance(s, 2, 0xaf20007b7411a, 0xae, 0x83, 0x2d, 0xaf20007c9, 0xda503a1c639f7a77);
    Advance(s, 3, 0xda503a1c639f7a, 0x77, 0x3a, 0x4d, 0xda503a1dd6, 0x95cd0b3d47fcd0d7);
  }

  lemma SevenUpToByte7()
    ensures Forward(SEVEN, 7) == 0x18b09ebffa40413c
  {
    hide Forward;
    var s := SEVEN;
    SevenUpToByte4();
    Advance(s, 4, 0x95cd0b3d47fcd0, 0xd7, 0x33, 0xe4, 0x95cd0b3e46, 0x883afd215296f36c);
    Advance(s, 5, 0x883afd215296f3, 0x6c, 0x59, 0x35, 0x883afd223a, 0x132f549f567f430f);
    Advance(s, 6, 0x132f549f567f43, 0xf, 0xdb, 0xd4, 0x132f549f77, 0x18b09ebffa40413c);
  }

  lemma MisreadUpToByte4()
    ensures Forward(MISREAD, 4) == 0x67daa68298aabecb
  {
    hide Forward;
    var s := MISREAD;
    Start(s);
    Advance(s, 0, 0xcbf29ce4842223, 0x25, 0x22, 0x7, 0xcbf29ce5de, 0xaf639f4c860184e5);
    Advance(s, 1, 0xaf639f4c860184, 0xe5, 0xa8, 0x4d, 0xaf639f4db0, 0x7cbfc07b493ced7);
    Advance(s, 2, 0x7cbfc07b493ce, 0xd7, 0xa1, 0x76, 0x7cbfc07c1, 0xd36bb717d727d282);
    Advance(s, 3, 0xd36bb717d727d2, 0x82, 0xb, 0x89, 0xd36bb7193e, 0x67daa68298aabecb);
  }

  lemma MisreadUpToByte7()
    ensures Forward(MISREAD, 7) == 0x18b09ebffa40413c
  {
    hide Forward;
    var s := MISREAD;
    MisreadUpToByte4();
    Advance(s, 4, 0x67daa68298aabe, 0xcb, 0xf7, 0x3c, 0x67daa68349, 0x23472be96a213ff4);
    Advance(s, 5, 0x23472be96a213f, 0xf4, 0x43, 0xb7, 0x23472be9a6, 0x132f549f567f43f5);
    Advance(s, 6, 0x132f549f567f43, 0xf5, 0x21, 0xd4, 0x132f549f77, 0x18b09ebffa40413c);
  }

  // Misreads spread over seven bytes can leave the hash right, in every array that starts
  // with these bytes.
  lemma SevenMisreadsUnnoticed(rest: seq<Byte>)
    ensures |SEVEN| == |MISREAD| == 7 && Hash(SEVEN + rest) == Hash(MISREAD + rest)
    ensures forall i :: 0 <= i < 7 ==> SEVEN[i] != MISREAD[i]
  {
    hide Forward;
    SevenUpToByte7();
    MisreadUpToByte7();
    var s, t := SEVEN + rest, MISREAD + rest;
    assert s[..7] == SEVEN[..7] && t[..7] == MISREAD[..7] && s[7..] == rest == t[7..];
    ForwardPrefix(SEVEN, s, 7);
    ForwardPrefix(MISREAD, t, 7);
    SameAfter(s, t, 7);
  }

  // Nine bytes, and two places eight bytes apart at which one misread has the same effect.
  const NINE: seq<Byte> := [0xac, 0xfa, 0xd7, 0xb8, 0xc7, 0x9d, 0x28, 0x1e, 0x0]
  const NINE_FIRST: seq<Byte> := [0x69, 0xfa, 0xd7, 0xb8, 0xc7, 0x9d, 0x28, 0x1e, 0x0]
  const NINE_LAST: seq<Byte> := [0xac, 0xfa, 0xd7, 0xb8, 0xc7, 0x9d, 0x28, 0x1e, 0x39]

  lemma FirstUpToByte3()
    ensures Forward(NINE_FIRST, 3) == 0x2d979e192d8137b7
  {
    hide Forward;
    var s := NINE_FIRST;
    Start(s);
    Advance(s, 0, 0xcbf29ce4842223, 0x25, 0x69, 0x4c, 0xcbf29ce5de, 0xaf63e44c8601fa24);
    Advance(s, 1, 0xaf63e44c8601fa, 0x24, 0xfa, 0xde, 0xaf63e44db0, 0x8b7cc07b55d473a);
    Advance(s, 2, 0x8b7cc07b55d47, 0x3a, 0xd7, 0xed, 0x8b7cc07c4, 0x2d979e192d8137b7);
  }

  lemma FirstUpToByte6()
    ensures Forward(NINE_FIRST, 6) == 0xd7bcb26c852aabc9
  {
    hide Forward;
    var s := NINE_FIRST;
    FirstUpToByte3();
    Advance(s, 3, 0x2d979e192d8137, 0xb7, 0xb8, 0xf, 0x2d979e197a, 0xf9d8b3c852908e7d);
    Advance(s, 4, 0xf9d8b3c852908e, 0x7d, 0xc7, 0xba, 0xf9d8b3c9fb, 0x1bc837644ba2860e);
    Advance(s, 5, 0x1bc837644ba286, 0xe, 0x9d, 0x93, 0x1bc837647a, 0xd7bcb26c852aabc9);
  }

  lemma FirstUpToByte9()
    ensures Forward(NINE_FIRST, 9) == 0x61d65cde5ffba55
  {
    hide Forward;
    var s := NINE_FIRST;
    FirstUpToByte6();
    Advance(s, 6, 0xd7bcb26c852aab, 0xc9, 0x28, 0xe1, 0xd7bcb26df3, 0xc04f0f6647820f53);
    Advance(s, 7, 0xc04f0f6647820f, 0x53, 0x1e, 0x4d, 0xc04f0f678e, 0x486677cb81ffffd7);
    Advance(s, 8, 0x486677cb81ffff, 0xd7, 0x0, 0xd7, 0x486677cbfd, 0x61d65cde5ffba55);
  }

  lemma LastUpToByte3()
    ensures Forward(NINE_LAST, 3) == 0x3976131a54f28d7c
  {
    hide Forward;
    var s := NINE_LAST;
    Start(s);
    Advance(s, 0, 0xcbf29ce4842223, 0x25, 0xac, 0x89, 0xcbf29ce5de, 0xaf64214c860261cb);
    Advance(s, 1, 0xaf64214c860261, 0xcb, 0xfa, 0x31, 0xaf64214db0, 0x985c607b60b2643);
    Advance(s, 2, 0x985c607b60b26, 0x43, 0xd7, 0x94, 0x985c607c6, 0x3976131a54f28d7c);
  }

  lemma LastUpToByte6()
    ensures Forward(NINE_LAST, 6) == 0x71f314f464afc384
  {
    hide Forward;
    var s := NINE_LAST;
    LastUpToByte3();
    Advance(s, 3, 0x3976131a54f28d, 0x7c, 0xb8, 0xc4, 0x3976131ab6, 0x963039be5826e40c);
    Advance(s, 4, 0x963039be5826e4, 0xc, 0xc7, 0xcb, 0x963039bf57, 0x5ad6e96fca16c4f1);
    Advance(s, 5, 0x5ad6e96fca16c4, 0xf1, 0x9d, 0x6c, 0x5ad6e97064, 0x71f314f464afc384);
  }

  lemma LastUpToByte9()
    ensures Forward(NINE_LAST, 9) == 0x61d65cde5ffba55
  {
    hide Forward;
    var s := NINE_LAST;
    LastUpToByte6();
    Advance(s, 6, 0x71f314f464afc3, 0x84, 0x28, 0xac, 0x71f314f526, 0x4fd0474716a97d44);
    Advance(s, 7, 0x4fd0474716a97d, 0x44, 0x1e, 0x5a, 0x4fd047479e, 0x486677cb81ffffee);
    Advance(s, 8, 0x486677cb81ffff, 0xee, 0x39, 0xd7, 0x486677cbfd, 0x61d65cde5ffba55);
  }

  // Candidates can be eight bytes apart.
  lemma CandidatesEightApart(rest: seq<Byte>)
    ensures var bytes := NINE + rest; var wrong := Hash(bytes[8 := 0x39]);
            Candidate(bytes, wrong, 0) && Candidate(bytes, wrong, 8)
  {
    hide Forward, Xor, Candidate;
    FirstUpToByte9();
    LastUpToByte9();
    var bytes := NINE + rest;
    var s, t := bytes[0 := 0x69], bytes[8 := 0x39];
    assert s[..9] == NINE_FIRST[..9] && t[..9] == NINE_LAST[..9] && s[9..] == t[9..];
    ForwardPrefix(NINE_FIRST, s, 9);
    ForwardPrefix(NINE_LAST, t, 9);
    SameAfter(s, t, 9);
    ExplainsIff(bytes, Hash(t), 0, 0x69);
    ExplainsIff(bytes, Hash(t), 8, 0x39);
  }
}
