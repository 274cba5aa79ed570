// The streaming halves of MD5 and SHA-1: buffering of partial blocks, the
// 64-bit length kept in two 32-bit words, and the padding at the end.
//
// The compression function is any function of a state and a block of 64 bytes.

module Digests {

  type Byte = x: int | 0 <= x < 256
  type UInt32 = x: int | 0 <= x < 0x1_0000_0000

  const TWO_TO_THE_32 := 0x1_0000_0000
  const TWO_TO_THE_64 := 0x1_0000_0000_0000_0000

  // ---------- What a digest is ------------------------------------------------

  // The state after the first n blocks of a message.
  function Blocks<S>(transform: (S, seq<Byte>) -> S, init: S, m: seq<Byte>, n: nat): (s: S)
    requires 64 * n <= |m|
  {
    if n == 0 then init
    else transform(Blocks(transform, init, m, n - 1), m[64 * (n - 1)..64 * n])
  }

  function Digest<S>(transform: (S, seq<Byte>) -> S, init: S, padded: seq<Byte>): (s: S) {
    Blocks(transform, init, padded, |padded| / 64)
  }

  // Later bytes do not change what the blocks before them make of the state.
  lemma {:induction false} SameBlocks<S>(transform: (S, seq<Byte>) -> S, init: S, m: seq<Byte>, more: seq<Byte>, n: nat)
    requires 64 * n <= |m|
    ensures Blocks(transform, init, m + more, n) == Blocks(transform, init, m, n)
  {
    if n > 0 {
      SameBlocks(transform, init, m, more, n - 1);
      assert (m + more)[64 * (n - 1)..64 * n] == m[64 * (n - 1)..64 * n];
    }
  }

  // How many zero bytes stand between the byte 0x80 and the length.
  function Zeros(len: nat): (k: nat)
    ensures k < 64 && (len + 1 + k) % 64 == 56
  {
    (119 - len % 64) % 64
  }

  // The n low bytes of a number, low byte first or high byte first.
  function LittleEndian(x: nat, n: nat): (b: seq<Byte>)
    ensures |b| == n
  {
    if n == 0 then [] else [x % 256] + LittleEndian(x / 256, n - 1)
  }

  function BigEndian(x: nat, n: nat): (b: seq<Byte>)
    ensures |b| == n
  {
    if n == 0 then [] else BigEndian(x / 256, n - 1) + [x % 256]
  }

  function Fill(n: nat): (z: seq<Byte>)
    ensures |z| == n && forall i | 0 <= i < n :: z[i] == 0
  {
    seq(n, i => 0)
  }

  function Padded(m: seq<Byte>, length: seq<Byte>): (p: seq<Byte>)
    requires |length| == 8
    ensures |p| % 64 == 0 && m <= p
  {
    m + [0x80] + Fill(Zeros(|m|)) + length
  }

  // Sections 3.1 and 3.2 of RFC 1321.
  function Md5Padded(m: seq<Byte>): (p: seq<Byte>)
    ensures |p| % 64 == 0 && m <= p
  {
    Padded(m, LittleEndian(8 * |m| % TWO_TO_THE_64, 8))
  }

  // Section 4 of RFC 3174.
  function Sha1Padded(m: seq<Byte>): (p: seq<Byte>)
    ensures |p| % 64 == 0 && m <= p
  {
    Padded(m, BigEndian(8 * |m| % TWO_TO_THE_64, 8))
  }

  // ---------- Counting bits in two words -----------------------------------------

  // The two words after `len` more bytes: the low one may wrap once.
  function LowBits(low: UInt32, len: UInt32): (r: UInt32) {
    (low + 8 * len % TWO_TO_THE_32) % TWO_TO_THE_32
  }

  function HighBits(low: UInt32, high: UInt32, len: UInt32): (r: UInt32) {
    var carried := if LowBits(low, len) < low then (high + 1) % TWO_TO_THE_32 else high;
    (carried + len / 0x2000_0000) % TWO_TO_THE_32
  }

  lemma CarryIsRight(low: UInt32, high: UInt32, len: UInt32)
    ensures LowBits(low, len) + TWO_TO_THE_32 * HighBits(low, high, len)
         == (low + TWO_TO_THE_32 * high + 8 * len) % TWO_TO_THE_64
  {
    var carry := LowWraps(low, len);
    HighWraps(low, high, len, carry);
    var sum := high + carry + 8 * len / TWO_TO_THE_32;
    TwoWords(LowBits(low, len), sum);
    assert low + TWO_TO_THE_32 * high + 8 * len == LowBits(low, len) + TWO_TO_THE_32 * sum;
  }

  lemma LowWraps(low: UInt32, len: UInt32) returns (carry: int)
    ensures 0 <= carry <= 1 && (LowBits(low, len) < low <==> carry == 1)
    ensures LowBits(low, len) + TWO_TO_THE_32 * carry == low + 8 * len % TWO_TO_THE_32
  {
    carry := if low + 8 * len % TWO_TO_THE_32 >= TWO_TO_THE_32 then 1 else 0;
  }

  lemma HighWraps(low: UInt32, high: UInt32, len: UInt32, carry: int)
    requires 0 <= carry <= 1 && (LowBits(low, len) < low <==> carry == 1)
    ensures HighBits(low, high, len) == (high + carry + 8 * len / TWO_TO_THE_32) % TWO_TO_THE_32
  {
    hide LowBits;
    assert 8 * len / TWO_TO_THE_32 == len / 0x2000_0000;
  }

  lemma TwoWords(low: UInt32, sum: nat)
    ensures low + TWO_TO_THE_32 * (sum % TWO_TO_THE_32) == (low + TWO_TO_THE_32 * sum) % TWO_TO_THE_64
  {
    var q, r := sum / TWO_TO_THE_32, sum % TWO_TO_THE_32;
    assert low + TWO_TO_THE_32 * sum == (low + TWO_TO_THE_32 * r) + TWO_TO_THE_64 * q;
  }

  lemma AddModulo(a: nat, b: nat)
    ensures (a % TWO_TO_THE_64 + b) % TWO_TO_THE_64 == (a + b) % TWO_TO_THE_64
  {
  }

  // The low word alone tells how full the buffer is.
  lemma Buffered(low: UInt32, high: UInt32, len: nat)
    requires low + TWO_TO_THE_32 * high == 8 * len % TWO_TO_THE_64
    ensures low / 8 % 64 == len % 64
  {
    var q := 8 * len / TWO_TO_THE_64;
    assert low == 8 * (len - 0x2000_0000 * (high + TWO_TO_THE_32 * q));
    var r := high + TWO_TO_THE_32 * q;
    assert low / 8 == len - 64 * (0x80_0000 * r);
  }

  // The two words count the bits of a message that grew by `len` bytes.
  lemma CountGrows(low: UInt32, high: UInt32, had: nat, len: UInt32)
    requires low + TWO_TO_THE_32 * high == 8 * had % TWO_TO_THE_64
    ensures LowBits(low, len) + TWO_TO_THE_32 * HighBits(low, high, len) == 8 * (had + len) % TWO_TO_THE_64
  {
    hide LowBits, HighBits;
    CarryIsRight(low, high, len);
    AddModulo(8 * had, 8 * len);
  }

  // ---------- Contexts --------------------------------------------------------------

  // What a context holds after the bytes m: the state behind the full blocks,
  // the bytes of the last, partial one, and the length.
  ghost predicate Absorbed<S>(transform: (S, seq<Byte>) -> S, init: S, m: seq<Byte>,
                              state: S, low: UInt32, high: UInt32, block: seq<Byte>)
  {
    && low + TWO_TO_THE_32 * high == 8 * |m| % TWO_TO_THE_64
    && state == Blocks(transform, init, m, |m| / 64)
    && |block| == 64 && block[..|m| % 64] == m[64 * (|m| / 64)..]
  }

  lemma AbsorbedNothing<S>(transform: (S, seq<Byte>) -> S, init: S)
    ensures forall block: seq<Byte> | |block| == 64 :: Absorbed(transform, init, [], init, 0, 0, block)
  {
  }

  // Everything before the place p has gone into the state.
  ghost predicate Folded<S>(transform: (S, seq<Byte>) -> S, init: S, m: seq<Byte>, state: S, p: nat) {
    p <= |m| && p % 64 == 0 && state == Blocks(transform, init, m, p / 64)
  }

  lemma OneBlock<S>(transform: (S, seq<Byte>) -> S, init: S, m: seq<Byte>, state: S, p: nat, block: seq<Byte>)
    requires Folded(transform, init, m, state, p) && p + 64 <= |m| && block == m[p..p + 64]
    ensures Folded(transform, init, m, transform(state, block), p + 64)
  {
  }

  lemma Whole<S>(transform: (S, seq<Byte>) -> S, init: S, m: seq<Byte>, state: S, p: nat)
    requires Folded(transform, init, m, state, p) && |m| - p < 64
    ensures state == Blocks(transform, init, m, |m| / 64) && p == 64 * (|m| / 64) && |m| % 64 == |m| - p
  {
    hide Blocks;
    Nearest(|m|, p);
  }

  lemma Nearest(len: nat, p: nat)
    requires p % 64 == 0 && p <= len < p + 64
    ensures p == 64 * (len / 64) && p / 64 == len / 64 && len % 64 == len - p
  {
  }

  lemma StartFolded<S>(transform: (S, seq<Byte>) -> S, init: S, m: seq<Byte>, data: seq<Byte>, state: S)
    requires state == Blocks(transform, init, m, |m| / 64)
    ensures Folded(transform, init, m + data, state, 64 * (|m| / 64))
  {
    hide Blocks;
    var n := |m| / 64;
    SameBlocks(transform, init, m, data, n);
    Exactly(n);
  }

  lemma Exactly(n: nat)
    ensures 64 * n % 64 == 0 && 64 * n / 64 == n
  {
  }

  // The data does not fill the block.
  lemma ShortData<S>(transform: (S, seq<Byte>) -> S, init: S, m: seq<Byte>, data: seq<Byte>, state: S,
                     low: UInt32, high: UInt32, block: seq<Byte>, low': UInt32, high': UInt32, after: seq<Byte>)
    requires Absorbed(transform, init, m, state, low, high, block) && |m| % 64 + |data| < 64
    requires low' + TWO_TO_THE_32 * high' == 8 * |m + data| % TWO_TO_THE_64
    requires after == block[..|m| % 64] + data + block[|m| % 64 + |data|..]
    ensures Absorbed(transform, init, m + data, state, low', high', after)
  {
    hide Blocks;
    var t, n := |m| % 64, |m| / 64;
    SameBlocks(transform, init, m, data, n);
    assert |m + data| / 64 == n && |m + data| % 64 == t + |data|;
    assert after[..t + |data|] == block[..t] + data;
    assert (m + data)[64 * n..] == m[64 * n..] + data;
  }

  // The data fills the block, which goes into the state.
  lemma BlockFilled<S>(transform: (S, seq<Byte>) -> S, init: S, m: seq<Byte>, data: seq<Byte>,
                       state: S, low: UInt32, high: UInt32, block: seq<Byte>, full: seq<Byte>)
    requires Absorbed(transform, init, m, state, low, high, block) && |m| % 64 + |data| >= 64
    requires full == block[..|m| % 64] + data[..64 - |m| % 64]
    ensures Folded(transform, init, m + data, transform(state, full), |m| + (64 - |m| % 64))
  {
    var t, n := |m| % 64, |m| / 64;
    StartFolded(transform, init, m, data, state);
    hide Blocks;
    assert (m + data)[64 * n..64 * n + 64] == m[64 * n..] + data[..64 - t];
    OneBlock(transform, init, m + data, state, 64 * n, full);
  }

  lemma BlockSize<S>(transform: (S, seq<Byte>) -> S, init: S, m: seq<Byte>,
                     state: S, low: UInt32, high: UInt32, block: seq<Byte>)
    requires Absorbed(transform, init, m, state, low, high, block)
    ensures |block| == 64
  {
  }

  // What is left of the data stays in the block.
  lemma RestKept<S>(transform: (S, seq<Byte>) -> S, init: S, m: seq<Byte>, data: seq<Byte>, p: nat,
                    state: S, low: UInt32, high: UInt32, after: seq<Byte>)
    requires low + TWO_TO_THE_32 * high == 8 * |m + data| % TWO_TO_THE_64
    requires p <= |data| < p + 64 && Folded(transform, init, m + data, state, |m| + p)
    requires |after| == 64 && after[..|data| - p] == data[p..]
    ensures Absorbed(transform, init, m + data, state, low, high, after)
  {
    hide Blocks;
    Whole(transform, init, m + data, state, |m| + p);
    assert (m + data)[|m| + p..] == data[p..];
  }

  lemma Behind(m: seq<Byte>, data: seq<Byte>, p: nat)
    requires p + 64 <= |data|
    ensures (m + data)[|m| + p..|m| + p + 64] == data[p..p + 64]
  {
  }

  // ---------- Padding ------------------------------------------------------------------

  lemma DigestOfOneMore<S>(transform: (S, seq<Byte>) -> S, init: S, m: seq<Byte>, full: seq<Byte>)
    requires |m| % 64 == 0 && |full| == 64
    ensures Digest(transform, init, m + full) == transform(Digest(transform, init, m), full)
  {
    var n := |m| / 64;
    SameBlocks(transform, init, m, full, n);
    assert (m + full)[64 * n..64 * (n + 1)] == full;
  }

  lemma DigestOfFullBlocks<S>(transform: (S, seq<Byte>) -> S, init: S, m: seq<Byte>)
    ensures Digest(transform, init, m[..64 * (|m| / 64)]) == Blocks(transform, init, m, |m| / 64)
  {
    hide Blocks;
    var n := |m| / 64;
    SameBlocks(transform, init, m[..64 * n], m[64 * n..], n);
    assert m == m[..64 * n] + m[64 * n..];
    Exactly(n);
  }

  lemma PaddingBehindBlocks(m: seq<Byte>, length: seq<Byte>)
    requires |length| == 8
    ensures Padded(m, length)
         == m[..64 * (|m| / 64)] + (m[64 * (|m| / 64)..] + [0x80] + Fill(Zeros(|m|)) + length)
  {
    var a, b, c := m[..64 * (|m| / 64)], m[64 * (|m| / 64)..], Fill(Zeros(|m|));
    assert m == a + b;
    assert a + b + [0x80] + c + length == a + (b + [0x80] + c + length);
  }

  // There is room for the mark and the length in the last block,
  lemma PadOneBlock<S>(transform: (S, seq<Byte>) -> S, init: S, m: seq<Byte>, t: nat, length: seq<Byte>, full: seq<Byte>)
    requires |length| == 8 && t == |m| % 64 < 56
    requires full == m[64 * (|m| / 64)..] + [0x80] + Fill(55 - t) + length
    ensures transform(Blocks(transform, init, m, |m| / 64), full) == Digest(transform, init, Padded(m, length))
  {
    hide Blocks, Digest, Padded, Fill;
    ZerosNeeded(|m|);
    PaddingBehindBlocks(m, length);
    DigestOfFullBlocks(transform, init, m);
    var a := m[..64 * (|m| / 64)];
    hide Zeros;
    assert Padded(m, length) == a + full;
    DigestOfOneMore(transform, init, a, full);
  }

  lemma ZerosNeeded(len: nat)
    ensures Zeros(len) == if len % 64 < 56 then 55 - len % 64 else 63 - len % 64 + 56
  {
  }

  // or a second block follows.
  lemma PadTwoBlocks<S>(transform: (S, seq<Byte>) -> S, init: S, m: seq<Byte>, t: nat, length: seq<Byte>,
                        first: seq<Byte>, second: seq<Byte>)
    requires |length| == 8 && t == |m| % 64 >= 56
    requires first == m[64 * (|m| / 64)..] + [0x80] + Fill(63 - t)
    requires second == Fill(56) + length
    ensures transform(transform(Blocks(transform, init, m, |m| / 64), first), second)
         == Digest(transform, init, Padded(m, length))
  {
    hide Blocks, Digest, Padded, Fill;
    ZerosNeeded(|m|);
    PaddingBehindBlocks(m, length);
    ZerosSplit(m[64 * (|m| / 64)..] + [0x80], 63 - t, length);
    DigestOfFullBlocks(transform, init, m);
    var a := m[..64 * (|m| / 64)];
    hide Zeros;
    assert Padded(m, length) == a + (first + second);
    TwoMore(transform, init, a, first, second);
  }

  lemma TwoMore<S>(transform: (S, seq<Byte>) -> S, init: S, a: seq<Byte>, first: seq<Byte>, second: seq<Byte>)
    requires |a| % 64 == 0 && |first| == |second| == 64
    ensures Digest(transform, init, a + (first + second)) == transform(transform(Digest(transform, init, a), first), second)
  {
    hide Digest;
    DigestOfOneMore(transform, init, a, first);
    DigestOfOneMore(transform, init, a + first, second);
    assert a + (first + second) == a + first + second;
  }

  lemma ZerosSplit(head: seq<Byte>, z: nat, length: seq<Byte>)
    ensures head + Fill(z + 56) + length == (head + Fill(z)) + (Fill(56) + length)
  {
    assert Fill(z + 56) == Fill(z) + Fill(56);
  }

  // On a little-endian machine the two words are stored as one number.
  lemma {:induction false} TwoWordsInARow(low: nat, high: nat, k: nat, n: nat)
    requires low < Pow256(k)
    ensures LittleEndian(low + Pow256(k) * high, k + n) == LittleEndian(low, k) + LittleEndian(high, n)
  {
    if k > 0 {
      LowByte(low, high, k);
      TwoWordsInARow(low / 256, high, k - 1, n);
    }
  }

  lemma LowByte(low: nat, high: nat, k: nat)
    requires 0 < k && low < Pow256(k)
    ensures (low + Pow256(k) * high) % 256 == low % 256
    ensures (low + Pow256(k) * high) / 256 == low / 256 + Pow256(k - 1) * high
    ensures low / 256 < Pow256(k - 1)
  {
    var p := Pow256(k - 1);
    Regroup(p, high);
    var more := p * high;
    assert (low + 256 * more) % 256 == low % 256 && (low + 256 * more) / 256 == low / 256 + more;
  }

  lemma Regroup(p: nat, high: nat)
    ensures 256 * p * high == 256 * (p * high)
  {
  }

  function Pow256(k: nat): (p: nat)
    ensures p > 0
  {
    if k == 0 then 1 else 256 * Pow256(k - 1)
  }

  // Byte by byte: the i-th is the digit to the base 256 at the i-th place, from
  // the low end or from the high end.
  lemma {:induction false} LittleEndianByte(x: nat, n: nat, i: nat)
    requires i < n
    ensures LittleEndian(x, n)[i] == x / Pow256(i) % 256
  {
    if i > 0 {
      LittleEndianByte(x / 256, n - 1, i - 1);
      DivideTwice(x, Pow256(i - 1));
    }
  }

  lemma {:induction false} BigEndianByte(x: nat, n: nat, i: nat)
    requires i < n
    ensures BigEndian(x, n)[n - 1 - i] == x / Pow256(i) % 256
  {
    if i > 0 {
      BigEndianByte(x / 256, n - 1, i - 1);
      DivideTwice(x, Pow256(i - 1));
    }
  }

  lemma DivideTwice(x: nat, a: nat)
    requires a > 0
    ensures x / 256 / a == x / (256 * a)
  {
    var q, r := x / 256 / a, x / 256 % a;
    assert x / 256 == a * q + r;
    assert x == 256 * (a * q + r) + x % 256;
    Quotient(x, 256 * a, q, 256 * r + x % 256);
  }

  lemma Quotient(x: nat, b: nat, q: nat, r: nat)
    requires x == b * q + r && r < b
    ensures x / b == q
  {
    assert b * (x / b) + x % b == b * q + r;
    Times(b, x / b + 1, q);
    Times(b, q + 1, x / b);
  }

  lemma Times(b: nat, c: nat, d: nat)
    ensures c <= d ==> b * c <= b * d
  {
  }

  // What is digested, byte by byte: the message, a byte 0x80, as many zero
  // bytes as fill up the block, and the number of bits of the message.
  lemma PaddedBytes(m: seq<Byte>, p: seq<Byte>, bits: nat)
    requires bits == 8 * |m| % TWO_TO_THE_64 && (p == Md5Padded(m) || p == Sha1Padded(m))
    ensures |p| % 64 == 0 && |m| + 9 <= |p| < |m| + 73 && p[..|m|] == m && p[|m|] == 0x80
    ensures forall i | |m| < i < |p| - 8 :: p[i] == 0
    ensures p == Md5Padded(m) ==> forall i: nat | i < 8 :: p[|p| - 8 + i] == bits / Pow256(i) % 256
    ensures p == Sha1Padded(m) ==> forall i: nat | i < 8 :: p[|p| - 1 - i] == bits / Pow256(i) % 256
  {
    var z := Zeros(|m|);
    forall i: nat | i < 8
      ensures p == Md5Padded(m) ==> p[|p| - 8 + i] == bits / Pow256(i) % 256
      ensures p == Sha1Padded(m) ==> p[|p| - 1 - i] == bits / Pow256(i) % 256
    {
      LittleEndianByte(bits, 8, i);
      BigEndianByte(bits, 8, i);
    }
  }

  method Copy(dst: array<Byte>, off: nat, src: seq<Byte>)
    requires off + |src| <= dst.Length
    modifies dst
    ensures dst[..] == old(dst[..off]) + src + old(dst[off + |src|..])
  {
    var i := 0;
    while i < |src|
      invariant i <= |src|
      invariant forall j | 0 <= j < dst.Length && !(off <= j < off + i) :: dst[j] == old(dst[j])
      invariant forall j | off <= j < off + i :: dst[j] == src[j - off]
    {
      dst[off + i] := src[i];
      i := i + 1;
    }
  }

  class Md5<S> {
    const transform: (S, seq<Byte>) -> S
    const init: S
    const block: array<Byte>        // in[64]
    var state: S                    // buf[4]
    var low: UInt32                 // bits[0]
    var high: UInt32                // bits[1]

    ghost var msg: seq<Byte>        // all bytes so far

    ghost predicate Valid()
      reads this, block
    {
      block.Length == 64 && Absorbed(transform, init, msg, state, low, high, block[..])
    }

    constructor (transform: (S, seq<Byte>) -> S, init: S)
      ensures Valid() && msg == [] && this.transform == transform && this.init == init
      ensures fresh(block)
    {
      this.transform, this.init := transform, init;
      AbsorbedNothing(transform, init);
      hide Absorbed, Blocks;
      block := new Byte[64];
      state, low, high := init, 0, 0;
      msg := [];
    }

    // Count the bytes that come; the result is where in the block they go.
    method Count(len: UInt32) returns (t: nat)
      requires Valid()
      modifies this`low, this`high
      ensures low + TWO_TO_THE_32 * high == 8 * (|msg| + len) % TWO_TO_THE_64
      ensures t == |msg| % 64
    {
      hide Blocks;
      Buffered(low, high, |msg|);
      CountGrows(low, high, |msg|, len);
      t := low;
      low := (t + 8 * len % TWO_TO_THE_32) % TWO_TO_THE_32;
      if low < t {
        high := (high + 1) % TWO_TO_THE_32;
      }
      high := (high + len / 0x2000_0000) % TWO_TO_THE_32;
      t := t / 8 % 64;
    }

    method FullBlocks(data: seq<Byte>, from: nat) returns (p: nat)
      requires block.Length == 64 && from <= |data|
      requires Folded(transform, init, msg + data, state, |msg| + from)
      modifies this`state, block
      ensures p <= |data| < p + 64 && Folded(transform, init, msg + data, state, |msg| + p)
    {
      hide Blocks, Folded;
      p := from;
      while |data| - p >= 64
        invariant p <= |data| && Folded(transform, init, msg + data, state, |msg| + p)
      {
        Copy(block, 0, data[p..p + 64]);
        Behind(msg, data, p);
        OneBlock(transform, init, msg + data, state, |msg| + p, block[..]);
        state := transform(state, block[..]);
        p := p + 64;
      }
    }

    // The data does not fill the block.
    method KeepShort(data: seq<Byte>, t: nat, ghost l: UInt32, ghost h: UInt32)
      requires block.Length == 64 && Absorbed(transform, init, msg, state, l, h, block[..])
      requires t == |msg| % 64 && t + |data| < 64
      requires low + TWO_TO_THE_32 * high == 8 * |msg + data| % TWO_TO_THE_64
      modifies block
      ensures Absorbed(transform, init, msg + data, state, low, high, block[..])
    {
      hide Blocks, Absorbed;
      ghost var b := block[..];
      Copy(block, t, data);
      ShortData(transform, init, msg, data, state, l, h, b, low, high, block[..]);
    }

    // The block is filled up and goes into the state.
    method FillBlock(data: seq<Byte>, t: nat, ghost l: UInt32, ghost h: UInt32)
      requires block.Length == 64 && Absorbed(transform, init, msg, state, l, h, block[..])
      requires t == |msg| % 64 && t + |data| >= 64
      modifies this`state, block
      ensures Folded(transform, init, msg + data, state, |msg| + (64 - t))
    {
      hide Blocks, Folded, Absorbed;
      ghost var s, b := state, block[..];
      BlockSize(transform, init, msg, s, l, h, b);
      Copy(block, t, data[..64 - t]);
      BlockFilled(transform, init, msg, data, s, l, h, b, block[..]);
      state := transform(state, block[..]);
    }

    // The full blocks, then what is left.
    method TakeRest(data: seq<Byte>, from: nat)
      requires block.Length == 64 && from <= |data|
      requires low + TWO_TO_THE_32 * high == 8 * |msg + data| % TWO_TO_THE_64
      requires Folded(transform, init, msg + data, state, |msg| + from)
      modifies this`state, block
      ensures Absorbed(transform, init, msg + data, state, low, high, block[..])
    {
      hide Blocks, Folded, Absorbed;
      var p := FullBlocks(data, from);
      Copy(block, 0, data[p..]);
      RestKept(transform, init, msg, data, p, state, low, high, block[..]);
    }

    method Update(data: seq<Byte>)
      requires Valid() && |data| < TWO_TO_THE_32
      modifies this, block
      ensures Valid() && msg == old(msg) + data
    {
      hide Absorbed, Folded, Blocks;
      ghost var l, h := low, high;
      var t := Count(|data|);
      if t != 0 {
        if |data| < 64 - t {
          KeepShort(data, t, l, h);
        } else {
          FillBlock(data, t, l, h);
          TakeRest(data, 64 - t);
        }
      } else {
        NothingBuffered(l, h, data);
        TakeRest(data, 0);
      }
      msg := msg + data;
    }

    lemma NothingBuffered(l: UInt32, h: UInt32, data: seq<Byte>)
      requires Absorbed(transform, init, msg, state, l, h, block[..]) && |msg| % 64 == 0
      ensures Folded(transform, init, msg + data, state, |msg|)
    {
      StartFolded(transform, init, msg, data, state);
    }

    // Pad the message in the block, in a second one if need be, and put the
    // length in the last 8 bytes.
    method Final() returns (digest: S)
      requires Valid()
      modifies this`state, block
      ensures digest == Digest(transform, init, Md5Padded(msg))
    {
      hide Absorbed, Blocks, Digest, Fill, LittleEndian, Padded;
      Position();
      ghost var tail := block[..|msg| % 64];
      ghost var length := LittleEndian(8 * |msg| % TWO_TO_THE_64, 8);
      var count := low / 8 % 64;
      var room := 64 - 1 - count;
      if room < 8 {
        MarkAndClear(count, room);
        ghost var first := block[..];
        state := transform(state, block[..]);
        Copy(block, 0, Fill(56));
        StoreLength();
        assert block[..] == Fill(56) + length;
        PadTwoBlocks(transform, init, msg, count, length, first, block[..]);
      } else {
        MarkAndClear(count, room - 8);
        StoreLength();
        assert block[..] == tail + [0x80] + Fill(room - 8) + length;
        PadOneBlock(transform, init, msg, count, length, block[..]);
      }
      state := transform(state, block[..]);
      digest := state;
    }

    // The mark goes behind the message, and zero bytes behind the mark.
    method MarkAndClear(count: nat, zeros: nat)
      requires block.Length == 64 && count + 1 + zeros <= 64
      modifies block
      ensures block[..count + 1 + zeros] == old(block[..count]) + [0x80] + Fill(zeros)
      ensures count + 1 + zeros == 64 ==> block[..] == old(block[..count]) + [0x80] + Fill(zeros)
    {
      hide Fill;
      block[count] := 0x80;
      Copy(block, count + 1, Fill(zeros));
    }

    lemma Position()
      requires Valid()
      ensures low / 8 % 64 == |msg| % 64 && state == Blocks(transform, init, msg, |msg| / 64)
      ensures block[..|msg| % 64] == msg[64 * (|msg| / 64)..]
      ensures LittleEndian(low, 4) + LittleEndian(high, 4) == LittleEndian(8 * |msg| % TWO_TO_THE_64, 8)
    {
      hide LittleEndian, Blocks;
      Buffered(low, high, |msg|);
      LengthStored(low, high);
      assert |block[..]| == 64 && block[..][..|msg| % 64] == block[..|msg| % 64];
    }

    method StoreLength()
      requires block.Length == 64
      modifies block
      ensures block[..] == old(block[..56]) + LittleEndian(low, 4) + LittleEndian(high, 4)
    {
      Copy(block, 56, LittleEndian(low, 4));
      Copy(block, 60, LittleEndian(high, 4));
    }
  }

  lemma LengthStored(low: UInt32, high: UInt32)
    ensures LittleEndian(low, 4) + LittleEndian(high, 4) == LittleEndian(low + TWO_TO_THE_32 * high, 8)
  {
    assert Pow256(4) == TWO_TO_THE_32;
    TwoWordsInARow(low, high, 4, 4);
  }

  // ---------- mg_md5 ---------------------------------------------------------------------

  function Concat(parts: seq<seq<Byte>>): (m: seq<Byte>) {
    if parts == [] then [] else parts[0] + Concat(parts[1..])
  }

  // In their order, without anything between them.
  lemma {:induction false} ConcatInOrder(a: seq<seq<Byte>>, p: seq<Byte>, b: seq<seq<Byte>>)
    ensures Concat(a + [p] + b) == Concat(a) + p + Concat(b)
    decreases |a|
  {
    if a == [] {
      assert (a + [p] + b)[1..] == b;
    } else {
      ConcatInOrder(a[1..], p, b);
      assert (a + [p] + b)[1..] == a[1..] + [p] + b;
    }
  }

  lemma {:induction false} ConcatGrows(parts: seq<seq<Byte>>, i: nat)
    requires i < |parts|
    ensures Concat(parts[..i + 1]) == Concat(parts[..i]) + parts[i]
  {
    if i == 0 {
      assert Concat(parts[..1][1..]) == [];
    } else {
      ConcatGrows(parts[1..], i - 1);
      assert parts[1..][..i] == parts[..i + 1][1..] && parts[1..][..i - 1] == parts[..i][1..];
    }
  }

  lemma EmptyConcat()
    ensures Concat([]) == []
  {
  }

  // The digest of several strings is that of the strings in a row.
  method DigestOfParts<S>(transform: (S, seq<Byte>) -> S, init: S, parts: seq<seq<Byte>>) returns (digest: S)
    requires forall p | p in parts :: |p| < TWO_TO_THE_32
    ensures digest == Digest(transform, init, Md5Padded(Concat(parts)))
  {
    hide Absorbed, Digest, Md5Padded, Concat;
    var ctx := new Md5(transform, init);
    assert parts[..0] == [];
    EmptyConcat();
    var i := 0;
    while i < |parts|
      invariant i <= |parts| && ctx.Valid() && fresh(ctx) && fresh(ctx.block)
      invariant ctx.transform == transform && ctx.init == init && ctx.msg == Concat(parts[..i])
    {
      ctx.Update(parts[i]);
      ConcatGrows(parts, i);
      i := i + 1;
    }
    assert parts[..i] == parts;
    digest := ctx.Final();
  }

  const HEX := "0123456789abcdef"

  // Two hexadecimal digits for each byte.
  function Hex(p: seq<Byte>): (s: string)
    ensures |s| == 2 * |p|
  {
    if p == [] then "" else [HEX[p[0] / 16], HEX[p[0] % 16]] + Hex(p[1..])
  }

  function DigitOf(c: char): (v: int) {
    if '0' <= c <= '9' then c as int - '0' as int else if 'a' <= c <= 'f' then 10 + c as int - 'a' as int else -1
  }

  // Two digits a byte, in lower case, the high one first.
  lemma {:induction false} HexOfByte(p: seq<Byte>, i: nat)
    requires i < |p|
    ensures |Hex(p)| == 2 * |p| && var a, b := DigitOf(Hex(p)[2 * i]), DigitOf(Hex(p)[2 * i + 1]);
      0 <= a < 16 && 0 <= b < 16 && 16 * a + b == p[i]
    decreases |p|
  {
    HexHead(p);
    if i > 0 {
      HexOfByte(p[1..], i - 1);
      assert Hex(p)[2..][2 * (i - 1)] == Hex(p)[2 * i] && Hex(p)[2..][2 * (i - 1) + 1] == Hex(p)[2 * i + 1];
    } else {
      DigitCode(p[0] / 16);
      DigitCode(p[0] % 16);
    }
  }

  // Different bytes have different digits.
  lemma {:induction false} HexTellsApart(p: seq<Byte>, q: seq<Byte>)
    ensures Hex(p) == Hex(q) <==> p == q
    decreases |p|
  {
    if Hex(p) == Hex(q) && p != [] {
      HexHead(p);
      HexHead(q);
      DigitsTellApart(p[0] / 16, q[0] / 16);
      DigitsTellApart(p[0] % 16, q[0] % 16);
      HexTellsApart(p[1..], q[1..]);
      assert p == [p[0]] + p[1..] && q == [q[0]] + q[1..];
    }
  }

  lemma HexHead(p: seq<Byte>)
    requires p != []
    ensures Hex(p)[0] == HEX[p[0] / 16] && Hex(p)[1] == HEX[p[0] % 16] && Hex(p)[2..] == Hex(p[1..])
  {
  }

  lemma DigitsTellApart(a: nat, b: nat)
    requires a < 16 && b < 16 && HEX[a] == HEX[b]
    ensures a == b
  {
    DigitCode(a);
    DigitCode(b);
  }

  lemma DigitCode(a: nat)
    requires a < 16
    ensures HEX[a] as int == if a < 10 then '0' as int + a else 'a' as int + a - 10
  {
    if a < 8 {
      assert a == 0 || a == 1 || a == 2 || a == 3 || a == 4 || a == 5 || a == 6 || a == 7;
    } else {
      assert a == 8 || a == 9 || a == 10 || a == 11 || a == 12 || a == 13 || a == 14 || a == 15;
    }
  }

  method Bin2Str(to: array<char>, p: seq<Byte>)
    requires 2 * |p| < to.Length
    modifies to
    ensures to[..2 * |p|] == Hex(p) && to[2 * |p|] == '\0'
    ensures forall k | 2 * |p| < k < to.Length :: to[k] == old(to[k])
  {
    hide Hex;
    NoHex();
    var k := 0;
    while k < |p|
      invariant k <= |p| && to[..2 * k] == Hex(p[..k])
      invariant forall j | 2 * k <= j < to.Length :: to[j] == old(to[j])
    {
      to[2 * k] := HEX[p[k] / 16];
      to[2 * k + 1] := HEX[p[k] % 16];
      HexGrows(p, k);
      assert to[..2 * (k + 1)] == to[..2 * k] + [HEX[p[k] / 16], HEX[p[k] % 16]];
      k := k + 1;
    }
    assert p[..k] == p;
    to[2 * k] := '\0';
  }

  lemma NoHex()
    ensures Hex([]) == ""
  {
  }

  lemma {:induction false} HexGrows(p: seq<Byte>, k: nat)
    requires k < |p|
    ensures Hex(p[..k + 1]) == Hex(p[..k]) + [HEX[p[k] / 16], HEX[p[k] % 16]]
    decreases |p|
  {
    if k > 0 {
      HexGrows(p[1..], k - 1);
      assert p[1..][..k] == p[..k + 1][1..] && p[1..][..k - 1] == p[..k][1..];
      assert p[..k + 1][0] == p[..k][0] == p[0];
    } else {
      assert p[..1][1..] == [] && p[..0] == [];
    }
  }

  // The 33 bytes that mg_md5 fills: the digest of all the strings in a row as
  // 32 digits, and a terminator.  `store` writes a state as its 16 bytes.
  method MgMd5<S(!new)>(transform: (S, seq<Byte>) -> S, init: S, store: S -> seq<Byte>, buf: array<char>,
                        parts: seq<seq<Byte>>)
    requires forall s :: |store(s)| == 16
    requires buf.Length >= 33 && forall p | p in parts :: |p| < TWO_TO_THE_32
    modifies buf
    ensures buf[..32] == Hex(store(Digest(transform, init, Md5Padded(Concat(parts))))) && buf[32] == '\0'
    ensures forall k | 32 < k < buf.Length :: buf[k] == old(buf[k])
  {
    hide Digest, Md5Padded, Concat, Hex;
    var digest := DigestOfParts(transform, init, parts);
    Bin2Str(buf, store(digest));
  }

  // ---------- SHA-1 -----------------------------------------------------------------------

  // The guard of SHA1Update adds in 32 bits.  It says whether the block fills
  // exactly when the sum does not wrap; a wrapped sum looks like short data.
  lemma GuardIsRightIff(j: nat, len: UInt32)
    requires j < 64
    ensures ((j + len) % TWO_TO_THE_32 > 63 <==> j + len > 63) <==> j + len < TWO_TO_THE_32
  {
  }

  // With one byte in the block and the longest input the sum wraps to 0, and a
  // block that fills is taken for one that does not.
  lemma GuardWraps()
    ensures (1 + 0xFFFF_FFFF) % TWO_TO_THE_32 == 0 && !((1 + 0xFFFF_FFFF) % TWO_TO_THE_32 > 63 <==> 1 + 0xFFFF_FFFF > 63)
  {
  }

  class Sha1<S> {
    const transform: (S, seq<Byte>) -> S
    const init: S
    const block: array<Byte>        // buffer[64]
    var state: S
    var low: UInt32                 // count[0]
    var high: UInt32                // count[1]

    ghost var msg: seq<Byte>

    ghost predicate Valid()
      reads this, block
    {
      block.Length == 64 && Absorbed(transform, init, msg, state, low, high, block[..])
    }

    constructor (transform: (S, seq<Byte>) -> S, init: S)
      ensures Valid() && msg == [] && this.transform == transform && this.init == init
      ensures fresh(block)
    {
      this.transform, this.init := transform, init;
      AbsorbedNothing(transform, init);
      hide Absorbed, Blocks;
      block := new Byte[64];
      state, low, high := init, 0, 0;
      msg := [];
    }

    method Count(len: UInt32) returns (j: nat)
      requires Valid()
      modifies this`low, this`high
      ensures low + TWO_TO_THE_32 * high == 8 * (|msg| + len) % TWO_TO_THE_64
      ensures j == |msg| % 64
    {
      hide Blocks;
      Buffered(low, high, |msg|);
      CountGrows(low, high, |msg|, len);
      j := low;
      low := (low + 8 * len % TWO_TO_THE_32) % TWO_TO_THE_32;
      if low < j {
        high := (high + 1) % TWO_TO_THE_32;
      }
      high := (high + len / 0x2000_0000) % TWO_TO_THE_32;
      j := j / 8 % 64;
    }

    // Full blocks are taken from the data where they are.
    method FullBlocks(data: seq<Byte>, from: nat) returns (i: nat)
      requires |msg| % 64 + |data| < TWO_TO_THE_32 && from <= |data|
      requires Folded(transform, init, msg + data, state, |msg| + from)
      modifies this`state
      ensures i <= |data| < i + 64 && Folded(transform, init, msg + data, state, |msg| + i)
    {
      hide Blocks;
      i := from;
      NoWrap(|msg|, |data|, i);
      while (i + 63) % TWO_TO_THE_32 < |data|
        invariant i <= |data| && i + 63 < TWO_TO_THE_32
        invariant Folded(transform, init, msg + data, state, |msg| + i)
        decreases |data| - i
      {
        Behind(msg, data, i);
        OneBlock(transform, init, msg + data, state, |msg| + i, data[i..i + 64]);
        state := transform(state, data[i..i + 64]);
        i := i + 64;
        NoWrap(|msg|, |data|, i);
      }
    }

    // The data fills the block, which goes into the state.
    method FillBlock(data: seq<Byte>, j: nat, ghost l: UInt32, ghost h: UInt32)
      requires block.Length == 64 && Absorbed(transform, init, msg, state, l, h, block[..])
      requires j == |msg| % 64 && 64 <= j + |data| < TWO_TO_THE_32
      requires low + TWO_TO_THE_32 * high == 8 * |msg + data| % TWO_TO_THE_64
      modifies this`state, block
      ensures Absorbed(transform, init, msg + data, state, low, high, block[..])
    {
      hide Blocks, Folded, Absorbed;
      ghost var s, b := state, block[..];
      BlockSize(transform, init, msg, s, l, h, b);
      Copy(block, j, data[..64 - j]);
      BlockFilled(transform, init, msg, data, s, l, h, b, block[..]);
      state := transform(state, block[..]);
      var i := FullBlocks(data, 64 - j);
      Copy(block, 0, data[i..]);
      RestKept(transform, init, msg, data, i, state, low, high, block[..]);
    }

    method KeepShort(data: seq<Byte>, j: nat, ghost l: UInt32, ghost h: UInt32)
      requires block.Length == 64 && Absorbed(transform, init, msg, state, l, h, block[..])
      requires j == |msg| % 64 && j + |data| < 64
      requires low + TWO_TO_THE_32 * high == 8 * |msg + data| % TWO_TO_THE_64
      modifies block
      ensures Absorbed(transform, init, msg + data, state, low, high, block[..])
    {
      hide Blocks, Absorbed;
      ghost var b := block[..];
      Copy(block, j, data);
      ShortData(transform, init, msg, data, state, l, h, b, low, high, block[..]);
    }

    method Update(data: seq<Byte>)
      requires Valid() && |msg| % 64 + |data| < TWO_TO_THE_32
      modifies this, block
      ensures Valid() && msg == old(msg) + data
    {
      hide Absorbed;
      ghost var l, h := low, high;
      var j := Count(|data|);
      if (j + |data|) % TWO_TO_THE_32 > 63 {
        FillBlock(data, j, l, h);
      } else {
        KeepShort(data, j, l, h);
      }
      msg := msg + data;
    }

    lemma CountedBits()
      requires Valid()
      ensures BigEndian(high, 4) + BigEndian(low, 4) == BigEndian(8 * |msg| % TWO_TO_THE_64, 8)
    {
      hide BigEndian, Blocks;
      WordsInARow(low, high);
    }

    method LengthBytes() returns (finalcount: array<Byte>)
      requires Valid()
      ensures fresh(finalcount) && finalcount[..] == BigEndian(8 * |msg| % TWO_TO_THE_64, 8)
    {
      CountedBits();
      hide *;
      finalcount := new Byte[8];
      ghost var words := BigEndian(high, 4) + BigEndian(low, 4);
      for i := 0 to 8
        invariant finalcount[..i] == words[..i]
      {
        finalcount[i] := Shift(if i >= 4 then low else high, 3 - i % 4) % 256;
        ByteOfTwoWords(low, high, i);
      }
      assert words[..8] == words && finalcount[..8] == finalcount[..];
    }

    // One byte at a time, until 56 bytes of the last block are full.
    method Pad()
      requires Valid()
      modifies this, block
      ensures Valid() && msg == old(msg) + [0x80] + Fill(Zeros(|old(msg)|))
    {
      hide Absorbed, Blocks, Digest, Fill, Zeros;
      ghost var m := msg;
      Update([0x80]);
      ghost var k := 0;
      FillStep(m + [0x80], 0);
      Position();
      while low / 8 % 64 != 56
        invariant Valid() && low / 8 % 64 == |msg| % 64
        invariant 0 <= k <= Zeros(|m|) && msg == m + [0x80] + Fill(k)
        decreases Zeros(|m|) - k
      {
        ZerosReached(|m|, k);
        Update([0]);
        FillStep(m + [0x80], k);
        k := k + 1;
        Position();
      }
      ZerosReached(|m|, k);
    }

    method Final() returns (digest: S)
      requires Valid()
      modifies this, block
      ensures digest == Digest(transform, init, Sha1Padded(old(msg)))
    {
      hide Absorbed, Blocks, Fill, BigEndian, Zeros;
      var finalcount := LengthBytes();
      Pad();
      Update(finalcount[..]);
      digest := state;
      Position();
    }

    lemma Position()
      requires Valid()
      ensures low / 8 % 64 == |msg| % 64 && state == Blocks(transform, init, msg, |msg| / 64)
    {
      Buffered(low, high, |msg|);
    }
  }

  lemma FillStep(head: seq<Byte>, k: nat)
    ensures head + Fill(k) + [0] == head + Fill(k + 1)
    ensures k == 0 ==> head + Fill(k) == head
  {
  }

  lemma ZerosReached(len: nat, k: nat)
    requires k <= Zeros(len)
    ensures (len + 1 + k) % 64 == 56 <==> k == Zeros(len)
  {
  }

  lemma NoWrap(had: nat, len: nat, i: nat)
    requires had % 64 + len < TWO_TO_THE_32 && i <= len && (had + i) % 64 == 0
    ensures i + 63 < TWO_TO_THE_32
  {
    assert (had % 64 + i) % 64 == 0;
  }

  function Shift(x: UInt32, bytes: nat): (r: UInt32)
    requires bytes < 4
  {
    if bytes == 0 then x else if bytes == 1 then x / 0x100
    else if bytes == 2 then x / 0x1_0000 else x / 0x100_0000
  }

  lemma WordBytes(x: UInt32)
    ensures forall i | 0 <= i < 4 :: BigEndian(x, 4)[i] == Shift(x, 3 - i) % 256
  {
    assert BigEndian(x, 4) == BigEndian(x / 256, 3) + [x % 256];
    assert BigEndian(x / 256, 3) == BigEndian(x / 256 / 256, 2) + [x / 256 % 256];
    assert BigEndian(x / 256 / 256, 2) == BigEndian(x / 256 / 256 / 256, 1) + [x / 256 / 256 % 256];
  }

  lemma ByteOfTwoWords(low: UInt32, high: UInt32, i: nat)
    requires i < 8
    ensures (BigEndian(high, 4) + BigEndian(low, 4))[i] == Shift(if i >= 4 then low else high, 3 - i % 4) % 256
  {
    WordBytes(low);
    WordBytes(high);
    hide BigEndian, Shift;
  }

  lemma WordsInARow(low: UInt32, high: UInt32)
    ensures BigEndian(high, 4) + BigEndian(low, 4) == BigEndian(low + TWO_TO_THE_32 * high, 8)
  {
    assert Pow256(4) == TWO_TO_THE_32;
    TwoNumbersInARow(low, high, 4, 4);
  }

  lemma {:induction false} TwoNumbersInARow(low: nat, high: nat, k: nat, n: nat)
    requires low < Pow256(k)
    ensures BigEndian(low + Pow256(k) * high, k + n) == BigEndian(high, n) + BigEndian(low, k)
  {
    if k > 0 {
      LowByte(low, high, k);
      TwoNumbersInARow(low / 256, high, k - 1, n);
    }
  }
}
