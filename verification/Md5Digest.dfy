/** MD5Digest: streaming MD5 with a 64-byte buffer and a split 64-bit bit count.

    The compression of one block, MD5Transform, is a parameter: every statement below holds
    whatever it computes. */
module Md5 {

  const TWO32: int := 0x1_0000_0000
  const TWO64: int := 0x1_0000_0000_0000_0000

  type u8 = x: int | 0 <= x < 0x100
  type u32 = x: int | 0 <= x < 0x1_0000_0000

  /** The four words of `buf`. */
  datatype Hash = Hash(a: u32, b: u32, c: u32, d: u32)

  /** MD5Transform, from the old state and the 64 bytes of `in`. */
  type Transform = (Hash, seq<u8>) -> Hash

  // ---------------------------------------------------------------- RFC 1321

  /** Section 3.3. */
  const INITIAL: Hash := Hash(0x67452301, 0xefcdab89, 0x98badcfe, 0x10325476)

  function Zeros(n: nat): (z: seq<u8>)
    ensures |z| == n
  {
    seq(n, _ => 0)
  }

  /** A word, low-order byte first. */
  function LittleEndian(n: u32): (b: seq<u8>)
    ensures |b| == 4
  {
    seq(4, i requires 0 <= i < 4 => ByteOf(n, i))
  }

  function ByteOf(n: u32, i: nat): u8
    requires i < 4
  {
    if i == 0 then n % 0x100 else if i == 1 then n / 0x100 % 0x100
    else if i == 2 then n / 0x1_0000 % 0x100 else n / 0x100_0000
  }

  /** A one bit, zeros, and a 64-bit length as two words, low-order word first. */
  function PadWith(zeros: nat, lo: u32, hi: u32): (p: seq<u8>)
    ensures |p| == 1 + zeros + 8
  {
    [0x80] + Zeros(zeros) + (LittleEndian(lo) + LittleEndian(hi))
  }

  /** Sections 3.1 and 3.2: pad to 56 bytes mod 64, then append the bit length mod 2^64. */
  function Padding(length: nat): (p: seq<u8>)
    ensures (length + |p|) % 64 == 0
  {
    PadWith((55 - length) % 64, 8 * length % TWO64 % TWO32, 8 * length % TWO64 / TWO32)
  }

  /** The blocks of a padded message, compressed in order. */
  function Blocks(f: Transform, h: Hash, data: seq<u8>): Hash
    requires |data| % 64 == 0
    decreases |data|
  {
    if data == [] then h else Blocks(f, f(h, data[..64]), data[64..])
  }

  /** Section 3.5. */
  function Output(h: Hash): seq<u8> {
    LittleEndian(h.a) + LittleEndian(h.b) + LittleEndian(h.c) + LittleEndian(h.d)
  }

  /** The digest of a whole message. */
  function Digest(f: Transform, message: seq<u8>): seq<u8> {
    Output(Blocks(f, INITIAL, message + Padding(|message|)))
  }

  function Concat(chunks: seq<seq<u8>>): seq<u8> {
    if chunks == [] then [] else chunks[0] + Concat(chunks[1..])
  }

  // ---------------------------------------------------------------- the bytes

  /** Four bytes add up to a word, low-order byte first. */
  predicate AddUp(b: seq<u8>, at: nat, n: u32) {
    at + 4 <= |b| &&
    var b0: int, b1: int, b2: int, b3: int := b[at], b[at + 1], b[at + 2], b[at + 3];
    n == b0 + 0x100 * b1 + 0x1_0000 * b2 + 0x100_0000 * b3
  }

  lemma LowOrderFirst(n: u32)
    ensures AddUp(LittleEndian(n), 0, n)
  {
    var h := n / 0x1_0000;
    assert n / 0x100 % 0x100 == n % 0x1_0000 / 0x100;
    assert h == h % 0x100 + 0x100 * (n / 0x100_0000);
  }

  /** Section 3.5 of RFC 1321: the digest is A, B, C, D, each low-order byte first. */
  lemma OutputBytes(h: Hash)
    ensures var o := Output(h);
            |o| == 16 && AddUp(o, 0, h.a) && AddUp(o, 4, h.b) && AddUp(o, 8, h.c) && AddUp(o, 12, h.d)
  {
    LowOrderFirst(h.a);
    LowOrderFirst(h.b);
    LowOrderFirst(h.c);
    LowOrderFirst(h.d);
  }

  /** Section 3.3: the words of the initial state, byte by byte. */
  lemma InitialBytes()
    ensures Output(INITIAL) ==
            [0x01, 0x23, 0x45, 0x67, 0x89, 0xab, 0xcd, 0xef, 0xfe, 0xdc, 0xba, 0x98, 0x76, 0x54, 0x32, 0x10]
  {
    assert LittleEndian(0x67452301) == [0x01, 0x23, 0x45, 0x67];
    assert LittleEndian(0xefcdab89) == [0x89, 0xab, 0xcd, 0xef];
    assert LittleEndian(0x98badcfe) == [0xfe, 0xdc, 0xba, 0x98];
    assert LittleEndian(0x10325476) == [0x76, 0x54, 0x32, 0x10];
  }

  /** Sections 3.1 and 3.2: a one bit, then as few zeros as bring the message to 56 bytes mod 64, then its
      bit length mod 2^64 as two words, low-order word first. */
  lemma PaddingBytes(length: nat, lo: u32, hi: u32)
    requires lo + TWO32 * hi == 8 * length % TWO64
    ensures var p := Padding(length);
            && 9 <= |p| <= 72 && (length + |p|) % 64 == 0 && p[0] == 0x80
            && (forall i | 1 <= i < |p| - 8 :: p[i] == 0)
            && AddUp(p, |p| - 8, lo) && AddUp(p, |p| - 4, hi)
  {
    LengthWords(length, lo, hi);
    LowOrderFirst(lo);
    LowOrderFirst(hi);
    var p := Padding(length);
    var tail := p[|p| - 8..];
    assert tail == LittleEndian(lo) + LittleEndian(hi);
    assert forall i | 0 <= i < 8 :: tail[i] == p[|p| - 8 + i];
  }

  // ---------------------------------------------------------------- lemmas

  lemma {:induction false} BlocksAppend(f: Transform, h: Hash, a: seq<u8>, b: seq<u8>)
    requires |a| % 64 == 0 && |b| % 64 == 0
    ensures Blocks(f, h, a + b) == Blocks(f, Blocks(f, h, a), b)
    decreases |a|
  {
    if a == [] {
      assert a + b == b;
    } else {
      assert (a + b)[..64] == a[..64] && (a + b)[64..] == a[64..] + b;
      BlocksAppend(f, f(h, a[..64]), a[64..], b);
    }
  }

  /** One more block. */
  lemma OneBlock(f: Transform, h: Hash, a: seq<u8>, block: seq<u8>)
    requires |a| % 64 == 0 && |block| == 64
    ensures Blocks(f, h, a + block) == f(Blocks(f, h, a), block)
  {
    BlocksAppend(f, h, a, block);
    assert block[..64] == block && block[64..] == [];
  }

  /** The number of whole blocks, in bytes, and the bytes after them. */
  function Full(n: nat): (m: nat)
    ensures m <= n < m + 64 && m % 64 == 0
  {
    n - n % 64
  }

  lemma FullIs(n: nat, done: nat)
    requires done % 64 == 0 && done <= n < done + 64
    ensures Full(n) == done && n % 64 == n - done
  {
  }

  /** The state after `done` bytes of m in whole blocks, plus a 64-byte stretch of m. */
  lemma NextBlock(f: Transform, m: seq<u8>, done: nat)
    requires done % 64 == 0 && done + 64 <= |m|
    ensures Blocks(f, INITIAL, m[..done + 64]) == f(Blocks(f, INITIAL, m[..done]), m[done..done + 64])
  {
    assert m[..done + 64] == m[..done] + m[done..done + 64];
    OneBlock(f, INITIAL, m[..done], m[done..done + 64]);
  }

  /** The carry test and the two shifts keep a 64-bit count. */
  lemma CountCarries(lo: u32, hi: u32, n: u32)
    ensures var lo' := (lo + n * 8 % TWO32) % TWO32;
            var carried := if lo' < lo then (hi + 1) % TWO32 else hi;
            var hi' := (carried + n / 0x2000_0000) % TWO32;
            lo' + TWO32 * hi' == (lo + TWO32 * hi + 8 * n) % TWO64
  {
    var low, high := n * 8 % TWO32, n / 0x2000_0000;
    assert 8 * n == low + TWO32 * high;
    var c := if lo + low >= TWO32 then 1 else 0;
    var lo' := lo + low - TWO32 * c;
    assert lo' == (lo + low) % TWO32;
    WrapTwice(hi, c, high);
    var sum := hi + c + high;
    SplitMod(lo', sum);
  }

  lemma WrapTwice(hi: u32, c: nat, high: u32)
    requires c <= 1
    ensures ((if c == 1 then (hi + 1) % TWO32 else hi) + high) % TWO32 == (hi + c + high) % TWO32
  {
  }

  lemma SplitMod(lo: u32, sum: nat)
    ensures lo + TWO32 * (sum % TWO32) == (lo + TWO32 * sum) % TWO64
  {
  }

  lemma CountMod(length: nat, n: nat)
    ensures (8 * length % TWO64 + 8 * n) % TWO64 == 8 * (length + n) % TWO64
  {
  }

  /** Bytes already buffered, from the low word of the bit count. */
  lemma BufferedBytes(lo: u32, hi: u32, length: nat)
    requires lo + TWO32 * hi == 8 * length % TWO64
    ensures lo / 8 % 64 == length % 64
  {
  }

  lemma LengthWords(length: nat, lo: u32, hi: u32)
    requires lo + TWO32 * hi == 8 * length % TWO64
    ensures 8 * length % TWO64 % TWO32 == lo && 8 * length % TWO64 / TWO32 == hi
  {
  }

  lemma ZeroCount(length: nat, zeros: nat)
    requires zeros < 64 && (length % 64 + zeros == 55 || length % 64 + zeros == 119)
    ensures (55 - length) % 64 == zeros
  {
  }

  /** The bytes Final puts after the r bytes left over. */
  lemma PaddingParts(length: nat, zeros: nat, words: seq<u8>, lo: u32, hi: u32)
    requires lo + TWO32 * hi == 8 * length % TWO64 && words == LittleEndian(lo) + LittleEndian(hi)
    requires zeros < 64 && (length % 64 + zeros == 55 || length % 64 + zeros == 119)
    ensures Padding(length) == [0x80] + Zeros(zeros) + words
  {
    LengthWords(length, lo, hi);
    ZeroCount(length, zeros);
    assert Padding(length) == PadWith(zeros, lo, hi);
  }

  /** Padding that fits the last block. */
  lemma FinishOne(f: Transform, m: seq<u8>, p: seq<u8>, words: seq<u8>, block: seq<u8>)
    requires |m| % 64 < 56 && |words| == 8
    requires p == [0x80] + Zeros(55 - |m| % 64) + words
    requires block == m[Full(|m|)..] + [0x80] + Zeros(55 - |m| % 64) + words
    ensures (|m| + |p|) % 64 == 0
    ensures Blocks(f, INITIAL, m + p) == f(Blocks(f, INITIAL, m[..Full(|m|)]), block)
  {
    assert m[..Full(|m|)] + block == m + p;
    OneBlock(f, INITIAL, m[..Full(|m|)], block);
  }

  /** Padding that needs one more block. */
  lemma FinishTwo(f: Transform, m: seq<u8>, p: seq<u8>, words: seq<u8>, first: seq<u8>, second: seq<u8>)
    requires |m| % 64 >= 56 && |words| == 8
    requires p == [0x80] + Zeros(119 - |m| % 64) + words
    requires first == m[Full(|m|)..] + [0x80] + Zeros(63 - |m| % 64) && second == Zeros(56) + words
    ensures (|m| + |p|) % 64 == 0
    ensures Blocks(f, INITIAL, m + p) == f(f(Blocks(f, INITIAL, m[..Full(|m|)]), first), second)
  {
    var z := 63 - |m| % 64;
    assert Zeros(z) + Zeros(56) == Zeros(z + 56);
    assert m[..Full(|m|)] + first == m + ([0x80] + Zeros(z));
    assert m[..Full(|m|)] + first + second == m + p;
    OneBlock(f, INITIAL, m[..Full(|m|)], first);
    OneBlock(f, INITIAL, m[..Full(|m|)] + first, second);
  }

  lemma {:induction false} ConcatNext(chunks: seq<seq<u8>>, i: nat)
    requires i < |chunks|
    ensures Concat(chunks[..i + 1]) == Concat(chunks[..i]) + chunks[i]
  {
    if i == 0 {
      assert chunks[..1] == [chunks[0]] && Concat(chunks[..1]) == chunks[0] + Concat([]);
    } else {
      ConcatNext(chunks[1..], i - 1);
      assert chunks[..i + 1][1..] == chunks[1..][..i] && chunks[..i][1..] == chunks[1..][..i - 1];
      assert chunks[0] + (Concat(chunks[1..][..i - 1]) + chunks[i]) == chunks[0] + Concat(chunks[1..][..i - 1]) + chunks[i];
    }
  }

  // ---------------------------------------------------------------- the object

  class MD5Digest {
    const transform: Transform
    var buf: Hash
    var bits0: u32
    var bits1: u32
    const input: array<u8>
    /** Everything passed to Update since the last Reset. */
    ghost var message: seq<u8>

    /** bits[] is the bit length mod 2^64, buf the whole blocks compressed so far, and the
        input buffer begins with the bytes after them. */
    ghost predicate Valid()
      reads this, input
    {
      && input.Length == 64
      && bits0 + TWO32 * bits1 == 8 * |message| % TWO64
      && buf == Blocks(transform, INITIAL, message[..Full(|message|)])
      && input[..|message| % 64] == message[Full(|message|)..]
    }

    constructor (transform: Transform)
      ensures Valid() && fresh(input) && message == [] && this.transform == transform
    {
      this.transform := transform;
      buf := INITIAL;
      bits0, bits1 := 0, 0;
      input := new u8[64](_ => 0);
      message := [];
    }

    method Reset()
      requires input.Length == 64
      modifies this, input
      ensures Valid() && message == []
    {
      buf := INITIAL;
      bits0, bits1 := 0, 0;
      Fill(0, 64);
      message := [];
    }

    /** memset(in + at, 0, n). */
    method Fill(at: nat, n: nat)
      requires at + n <= input.Length
      modifies input
      ensures input[..] == old(input[..at]) + Zeros(n) + old(input[at + n..])
    {
      forall i | at <= i < at + n {
        input[i] := 0;
      }
    }

    /** memcpy(in + at, source, |source|). */
    method Copy(at: nat, source: seq<u8>)
      requires at + |source| <= input.Length
      modifies input
      ensures input[..] == old(input[..at]) + source + old(input[at + |source|..])
    {
      forall i | at <= i < at + |source| {
        input[i] := source[i - at];
      }
    }

    /** The bit count of Update. */
    method AddBits(n: u32)
      modifies this`bits0, this`bits1
      ensures bits0 + TWO32 * bits1 == (old(bits0) + TWO32 * old(bits1) + 8 * n) % TWO64
    {
      var t := bits0;
      CountCarries(bits0, bits1, n);
      bits0 := (t + n * 8 % TWO32) % TWO32;
      if bits0 < t {
        bits1 := (bits1 + 1) % TWO32;
      }
      bits1 := (bits1 + n / 0x2000_0000) % TWO32;
    }

    /** What Update keeps while it works through the data: `done` bytes of the whole message are
        compressed.  The buffer is not mentioned, as each block overwrites it. */
    ghost predicate Compressed(whole: seq<u8>, done: nat)
      reads this
    {
      done % 64 == 0 && done <= |whole| && buf == Blocks(transform, INITIAL, whole[..done])
    }

    method Update(data: seq<u8>)
      requires Valid() && |data| < TWO32
      modifies this, input
      ensures Valid() && message == old(message) + data
    {
      ghost var done := Full(|message|);
      BufferedBytes(bits0, bits1, |message|);
      var t := bits0 / 8 % 64;
      AddBits(|data|);
      CountMod(|message|, |data|);
      ghost var tail := message[done..];
      ghost var before := message;
      message := message + data;
      assert message[..done] == before[..done];
      assert message[done..] == tail + data;
      AfterCount(data, t, tail, done);
    }

    /** The rest of Update, once the bits are counted. */
    method AfterCount(data: seq<u8>, t: nat, ghost tail: seq<u8>, ghost start: nat)
      requires input.Length == 64 && t == |tail| < 64 && input[..t] == tail
      requires Compressed(message, start) && message[start..] == tail + data
      modifies this`buf, input
      ensures Compressed(message, Full(|message|)) && input[..|message| % 64] == message[Full(|message|)..]
    {
      ghost var done := start;
      var rest := data;
      if t != 0 {
        var room := 64 - t;
        if |data| < room {
          Copy(t, data);
          FullIs(|message|, done);
          return;
        }
        Copy(t, data[..room]);
        assert input[..] == message[done..][..64] == message[done..done + 64];
        NextBlock(transform, message, done);
        buf := transform(buf, input[..]);
        rest := data[room..];
        done := done + 64;
        assert rest == message[start..][64..];
      }
      done := WholeBlocks(rest, done);
    }

    /** The loop over 64-byte chunks, and the remaining bytes. */
    method WholeBlocks(data: seq<u8>, ghost start: nat) returns (ghost done: nat)
      requires input.Length == 64 && Compressed(message, start) && message[start..] == data
      modifies this`buf, input
      ensures done == Full(|message|)
      ensures Compressed(message, done) && input[..|message| % 64] == message[done..]
    {
      done := start;
      var rest := data;
      while |rest| >= 64
        invariant Compressed(message, done) && rest == message[done..]
      {
        Copy(0, rest[..64]);
        assert input[..] == message[done..done + 64];
        NextBlock(transform, message, done);
        buf := transform(buf, input[..]);
        rest := rest[64..];
        done := done + 64;
      }
      FullIs(|message|, done);
      Copy(0, rest);
    }

    method Final() returns (digest: seq<u8>)
      requires Valid()
      modifies this`buf, input
      ensures digest == Digest(transform, message)
    {
      BufferedBytes(bits0, bits1, |message|);
      var count := bits0 / 8 % 64;
      ghost var words := LittleEndian(bits0) + LittleEndian(bits1);

      if 64 - 1 - count < 8 {
        ghost var first := PadFirst(count);
        WriteLength();
        PaddingParts(|message|, 119 - count, words, bits0, bits1);
        FinishTwo(transform, message, Padding(|message|), words, first, input[..]);
      } else {
        Pad(count, 64 - 1 - count - 8);
        WriteLength();
        PaddingParts(|message|, 55 - count, words, bits0, bits1);
        FinishOne(transform, message, Padding(|message|), words, input[..]);
      }
      buf := transform(buf, input[..]);
      digest := Output(buf);
    }

    /** The first of two lots of padding. */
    method PadFirst(count: nat) returns (ghost first: seq<u8>)
      requires input.Length == 64 && count < 64
      modifies this`buf, input
      ensures first == old(input[..count]) + [0x80] + Zeros(63 - count) && buf == transform(old(buf), first)
      ensures input[..56] == Zeros(56)
    {
      Pad(count, 64 - 1 - count);
      first := input[..];
      buf := transform(buf, input[..]);
      Fill(0, 56);
    }

    /** The first byte of padding, and zeros. */
    method Pad(count: nat, zeros: nat)
      requires input.Length == 64 && count + 1 + zeros <= 64
      modifies input
      ensures input[..count + 1 + zeros] == old(input[..count]) + [0x80] + Zeros(zeros)
    {
      Copy(count, [0x80]);
      Fill(count + 1, zeros);
    }

    /** The last two words of the block. */
    method WriteLength()
      requires input.Length == 64
      modifies input
      ensures input[..] == old(input[..56]) + LittleEndian(bits0) + LittleEndian(bits1)
    {
      Copy(56, LittleEndian(bits0));
      Copy(60, LittleEndian(bits1));
    }
  }

  /** Streaming: however a message is cut into Update calls, Final gives its one-shot digest. */
  method DigestOfChunks(transform: Transform, chunks: seq<seq<u8>>) returns (digest: seq<u8>)
    requires forall i | 0 <= i < |chunks| :: |chunks[i]| < TWO32
    ensures digest == Digest(transform, Concat(chunks))
  {
    var md5 := new MD5Digest(transform);
    for i := 0 to |chunks|
      invariant fresh(md5) && fresh(md5.input) && md5.Valid() && md5.transform == transform
      invariant md5.message == Concat(chunks[..i])
    {
      md5.Update(chunks[i]);
      ConcatNext(chunks, i);
    }
    assert chunks[..|chunks|] == chunks;
    digest := md5.Final();
  }
}
