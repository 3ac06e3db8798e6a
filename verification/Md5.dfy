/**
 The streaming part of md5.c: buffering, the bit counter and the padding. The compression function
 is a parameter.
 */
module Md5 {

  const WORD := 0x1_0000_0000

  type Byte = b: int | 0 <= b < 256 witness 0

  type Word = w: int | 0 <= w < WORD witness 0

  /** The four words of the digest buffer. */
  type Chain = s: seq<Word> | |s| == 4 witness [0, 0, 0, 0]

  type Compress = (Chain, seq<Byte>) -> Chain

  // ---------- the digest of a message ----------

  const INITIAL: Chain := [0x67452301, 0xefcdab89, 0x98badcfe, 0x10325476]

  /** Compressing the blocks of a message of whole blocks. */
  function Fold(compress: Compress, s: seq<Byte>): Chain
    decreases |s|
  {
    if |s| < 64 then INITIAL
    else compress(Fold(compress, s[..|s| - 64]), s[|s| - 64..])
  }

  /** The `k` low-order bytes of `n`, lowest first. */
  function LittleEndian(n: nat, k: nat): (s: seq<Byte>)
    ensures |s| == k
    decreases k
  {
    if k == 0 then [] else [n % 256] + LittleEndian(n / 256, k - 1)
  }

  function Zeros(n: nat): (s: seq<Byte>)
    ensures |s| == n
  {
    if n == 0 then [] else [0] + Zeros(n - 1)
  }

  /** The number of padding bytes: at least one, up to 56 modulo 64. */
  function PadLength(n: nat): (p: int)
    ensures 1 <= p <= 64
  {
    (55 - n) % 64 + 1
  }

  /** The padded message of sections 3.1 and 3.2 of RFC 1321. */
  function Padded(m: seq<Byte>): seq<Byte> {
    m + ([0x80] + Zeros(PadLength(|m|) - 1)) + LittleEndian(8 * |m| % (WORD * WORD), 8)
  }

  lemma ModIs(a: int, q: int, r: int)
    requires a == 64 * q + r && 0 <= r < 64
    ensures a % 64 == r && a / 64 == q
  {
  }

  lemma PadLengthIs(n: nat)
    ensures PadLength(n) == if n % 64 <= 55 then 56 - n % 64 else 120 - n % 64
  {
    var q, r := n / 64, n % 64;
    if r <= 55 {
      ModIs(55 - n, -q, 55 - r);
    } else {
      ModIs(55 - n, -q - 1, 119 - r);
    }
  }

  /** Padding ends on a block boundary. */
  lemma PaddedWhole(m: seq<Byte>)
    ensures (|m| + PadLength(|m|)) % 64 == 56 && |Padded(m)| % 64 == 0
  {
    var n := |m|;
    PadLengthIs(n);
    var q := if n % 64 <= 55 then n / 64 else n / 64 + 1;
    ModIs(n + PadLength(n), q, 56);
    ModIs(|Padded(m)|, q + 1, 0);
  }

  lemma {:induction false} ZerosAre(n: nat)
    ensures forall i :: 0 <= i < n ==> Zeros(n)[i] == 0
  {
    if n > 0 {
      ZerosAre(n - 1);
    }
  }

  /**
   The padded message byte by byte: the message, a byte with the top bit set, zeros, and eight bytes
   for the length in bits modulo 2^64, lowest first. No shorter run of zeros fills the last block.
   */
  lemma PaddedBytes(m: seq<Byte>)
    ensures var p, n := Padded(m), |m|;
            && |p| % 64 == 0 && n + 9 <= |p| <= n + 72
            && p[..n] == m && p[n] == 0x80
            && (forall i :: n < i < |p| - 8 ==> p[i] == 0)
            && Value(p[|p| - 8..]) == 8 * n % 0x1_0000_0000_0000_0000
  {
    hide LittleEndian, Zeros, PadLength, Value;
    var n, z := |m|, PadLength(|m|) - 1;
    var zeros, count := Zeros(z), LittleEndian(8 * n % (WORD * WORD), 8);
    ZerosAre(z);
    PaddedWhole(m);
    EightPower();
    ValueOf(8 * n % (WORD * WORD), 8);
    var p := Padded(m);
    assert p == m + [0x80] + zeros + count;
    assert p[|p| - 8..] == count;
    assert forall i :: n < i < |p| - 8 ==> p[i] == zeros[i - n - 1];
  }

  lemma EightPower()
    ensures Power(8) == WORD * WORD
  {
    FourPower();
    assert Power(5) == 256 * Power(4) && Power(6) == 256 * Power(5) && Power(7) == 256 * Power(6);
  }

  /** Each word of the digest is printed lowest byte first. */
  lemma ChainBytesAre(c: Chain, i: nat)
    requires i < 4
    ensures |ChainBytes(c)| == 16 && Value(ChainBytes(c)[4 * i..4 * i + 4]) == c[i]
  {
    hide Value, LittleEndian;
    FourPower();
    ValueOf(c[i], 4);
    assert ChainBytes(c)[4 * i..4 * i + 4] == LittleEndian(c[i], 4);
  }

  lemma WordBytes(a: Byte, b: Byte, c: Byte, d: Byte)
    ensures LittleEndian(a + 0x100 * b + 0x1_0000 * c + 0x100_0000 * d, 4) == [a, b, c, d]
  {
    hide LittleEndian;
    LowByte(a, b + 0x100 * c + 0x1_0000 * d, 4);
    LowByte(b, c + 0x100 * d, 3);
    LowByte(c, d, 2);
    LowByte(d, 0, 1);
    NoBytes(0);
  }

  lemma LowByte(a: Byte, n: nat, k: nat)
    requires k > 0
    ensures LittleEndian(a + 0x100 * n, k) == [a] + LittleEndian(n, k - 1)
  {
    hide LittleEndian;
    LittleEndianStep(a + 0x100 * n, k);
    assert (a + 0x100 * n) % 0x100 == a && (a + 0x100 * n) / 0x100 == n;
  }

  lemma LittleEndianStep(n: nat, k: nat)
    requires k > 0
    ensures LittleEndian(n, k) == [n % 256] + LittleEndian(n / 256, k - 1)
  {
  }

  lemma NoBytes(n: nat)
    ensures LittleEndian(n, 0) == []
  {
  }

  /** The digest buffer starts with the bytes of section 3.3 of RFC 1321. */
  lemma InitialBytes()
    ensures ChainBytes(INITIAL) == [0x01, 0x23, 0x45, 0x67] + [0x89, 0xab, 0xcd, 0xef]
                                   + [0xfe, 0xdc, 0xba, 0x98] + [0x76, 0x54, 0x32, 0x10]
  {
    hide LittleEndian;
    WordBytes(0x01, 0x23, 0x45, 0x67);
    WordBytes(0x89, 0xab, 0xcd, 0xef);
    WordBytes(0xfe, 0xdc, 0xba, 0x98);
    WordBytes(0x76, 0x54, 0x32, 0x10);
  }

  function Digest(compress: Compress, m: seq<Byte>): seq<Byte> {
    ChainBytes(Fold(compress, Padded(m)))
  }

  function ChainBytes(c: Chain): seq<Byte> {
    LittleEndian(c[0], 4) + LittleEndian(c[1], 4) + LittleEndian(c[2], 4) + LittleEndian(c[3], 4)
  }

  // ---------- bytes of words ----------

  function Shifted(w: nat, i: nat): nat {
    if i == 0 then w else Shifted(w / 256, i - 1)
  }

  lemma {:induction false} LittleEndianAt(w: nat, k: nat, i: nat)
    requires i < k
    ensures LittleEndian(w, k)[i] == Shifted(w, i) % 256
    decreases k
  {
    if i > 0 {
      LittleEndianAt(w / 256, k - 1, i - 1);
    }
  }

  function Value(s: seq<Byte>): nat {
    if s == [] then 0 else s[0] + 256 * Value(s[1..])
  }

  function Power(k: nat): (p: nat)
    ensures p > 0
  {
    if k == 0 then 1 else 256 * Power(k - 1)
  }

  /** Reading the bytes back gives the number, up to its low-order bytes. */
  lemma {:induction false} ValueOf(n: nat, k: nat)
    requires n < Power(k)
    ensures Value(LittleEndian(n, k)) == n
    decreases k
  {
    if k > 0 {
      ValueOf(n / 256, k - 1);
      assert LittleEndian(n, k)[1..] == LittleEndian(n / 256, k - 1);
    }
  }

  /** Two words side by side are one number of twice the width. */
  lemma {:induction false} TwoWords(lo: nat, hi: nat, k: nat)
    requires lo < Power(k)
    ensures LittleEndian(lo + Power(k) * hi, k + 4) == LittleEndian(lo, k) + LittleEndian(hi, 4)
    decreases k
  {
    if k == 0 {
      assert LittleEndian(lo, 0) == [];
    } else {
      var n, q := lo + Power(k) * hi, Power(k - 1) * hi;
      assert Power(k) * hi == 256 * q;
      assert n / 256 == lo / 256 + q && n % 256 == lo % 256;
      TwoWords(lo / 256, hi, k - 1);
    }
  }

  // ---------- the counter ----------

  /** The count of bits after `n` bytes, as one number of 64 bits. */
  function Bits(n: nat): nat {
    8 * n % (WORD * WORD)
  }

  /** The update of the two counter words: the carry out of the low word goes into the high one. */
  function Advanced(lo: Word, hi: Word, n: nat): (r: (Word, Word))
    requires n < 0x1000_0000
  {
    var lo' := (lo + 8 * n) % WORD;
    (lo', if lo' < 8 * n then (hi + 1) % WORD else hi)
  }

  lemma AdvancedCounts(lo: Word, hi: Word, n: nat)
    requires n < 0x1000_0000
    ensures var r := Advanced(lo, hi, n); r.0 + WORD * r.1 == (lo + WORD * hi + 8 * n) % (WORD * WORD)
  {
    var r, t := Advanced(lo, hi, n), lo + WORD * hi + 8 * n;
    if lo + 8 * n < WORD {
      assert r == (lo + 8 * n, hi);
    } else {
      assert r.0 == lo + 8 * n - WORD;
      if hi == WORD - 1 {
        assert t - WORD * WORD == r.0;
      }
    }
  }

  lemma BitsAdvance(m: nat, n: nat)
    ensures Bits(m + n) == (Bits(m) + 8 * n) % (WORD * WORD)
  {
    var w := WORD * WORD;
    var q := 8 * m / w;
    assert 8 * m == w * q + Bits(m);
    AddMultiple(Bits(m) + 8 * n, w, q);
  }

  lemma AddMultiple(a: nat, w: nat, q: nat)
    requires w > 0
    ensures (a + w * q) % w == a % w
  {
    var b := a / w;
    assert a == w * b + a % w;
    assert a + w * q == w * (b + q) + a % w;
    Remainder(a + w * q, w, b + q, a % w);
  }

  lemma Remainder(a: nat, w: nat, q: nat, r: nat)
    requires w > 0 && a == w * q + r && r < w
    ensures a % w == r
  {
    var d := a / w - q;
    assert a == w * (a / w) + a % w;
    assert w * d == r - a % w;
    Multiple(w, d);
  }

  lemma Multiple(w: int, d: int)
    requires w >= 0
    ensures d > 0 ==> w * d >= w
    ensures d < 0 ==> w * d <= -w
  {
  }

  /** The low counter word tells how full the buffer is. */
  lemma OffsetIs(lo: nat, hi: nat, n: nat)
    requires lo < WORD && lo + WORD * hi == Bits(n)
    ensures lo / 8 % 64 == n % 64
  {
    var w := WORD * WORD;
    var q := 8 * n / w;
    assert 8 * n == w * q + lo + WORD * hi;
    var k := WORD * q + hi;
    assert 8 * n == WORD * k + lo;
    assert WORD * k == 8 * (0x2000_0000 * k);
    assert lo == 8 * (n - 0x2000_0000 * k);
    assert lo / 8 == n - 64 * (0x80_0000 * k);
    ModIs(lo / 8, n / 64 - 0x80_0000 * k, n % 64);
  }

  // ---------- the streaming state ----------

  /** Appending a block to whole blocks compresses it, and nothing is compressed before the first block. */
  lemma FoldBlock(compress: Compress, s: seq<Byte>, block: seq<Byte>)
    requires |block| == 64
    ensures Fold(compress, s + block) == compress(Fold(compress, s), block) && Fold(compress, []) == INITIAL
  {
    var t := s + block;
    assert t[..|t| - 64] == s && t[|t| - 64..] == block;
  }

  /** The states of the digest buffer between the blocks, from the constants of RFC 1321 on. */
  lemma {:induction false} FoldStates(compress: Compress, s: seq<Byte>, b: nat) returns (cs: seq<Chain>)
    requires |s| == 64 * b
    ensures |cs| == b + 1 && cs[0] == [0x67452301, 0xefcdab89, 0x98badcfe, 0x10325476] && cs[b] == Fold(compress, s)
    ensures forall i :: 0 <= i < b ==> cs[i + 1] == compress(cs[i], s[64 * i..64 * i + 64])
  {
    if b == 0 {
      cs := [INITIAL];
    } else {
      var f := s[..|s| - 64];
      var before := FoldStates(compress, f, b - 1);
      cs := before + [Fold(compress, s)];
      assert s == f + s[|s| - 64..];
      FoldBlock(compress, f, s[|s| - 64..]);
      forall i | 0 <= i < b ensures cs[i + 1] == compress(cs[i], s[64 * i..64 * i + 64]) {
        if i < b - 1 {
          assert f[64 * i..64 * i + 64] == s[64 * i..64 * i + 64];
          assert cs[i + 1] == before[i + 1] && cs[i] == before[i];
        } else {
          assert s[64 * i..64 * i + 64] == s[|s| - 64..];
          assert cs[i] == before[b - 1];
        }
      }
    }
  }

  lemma CounterByte(lo: Word, hi: Word, i: nat)
    requires i < 8
    ensures (LittleEndian(lo, 4) + LittleEndian(hi, 4))[i] == Shifted(if i < 4 then lo else hi, i % 4) % 256
  {
    hide LittleEndian, Shifted;
    LittleEndianAt(if i < 4 then lo else hi, 4, i % 4);
  }

  /** The bytes of the two counter words, lowest first. */
  method CounterBytes(lo: Word, hi: Word) returns (data: seq<Byte>)
    ensures data == LittleEndian(lo, 4) + LittleEndian(hi, 4)
  {
    hide LittleEndian, Shifted;
    data := [];
    ghost var all := LittleEndian(lo, 4) + LittleEndian(hi, 4);
    for i := 0 to 8
      invariant data == all[..i]
    {
      CounterByte(lo, hi, i);
      data := data + [Shifted(if i < 4 then lo else hi, i % 4) % 256];
    }
  }

  class State {
    const compress: Compress
    var lo: Word
    var hi: Word
    var abcd: Chain
    const buf: array<Byte>
    ghost var done: seq<Byte>
    ghost var tail: seq<Byte>

    /** The blocks of `done` are compressed, the bytes of `tail` are buffered. */
    ghost predicate Buffered()
      reads this, buf
    {
      && buf.Length == 64 && |done| % 64 == 0 && |tail| < 64
      && abcd == Fold(compress, done) && buf[..|tail|] == tail
    }

    /** The message so far is `done + tail`, and the counter holds its length in bits. */
    ghost predicate Valid()
      reads this, buf
    {
      Buffered() && lo + WORD * hi == Bits(|done| + |tail|)
    }

    ghost function Message(): seq<Byte>
      reads this
    {
      done + tail
    }

    /** `md5_init`. */
    constructor (compress: Compress)
      ensures Valid() && Message() == [] && fresh(buf) && this.compress == compress
    {
      this.compress := compress;
      lo, hi, abcd := 0, 0, INITIAL;
      buf := new Byte[64](i => 0);
      done, tail := [], [];
    }

    method CopyIn(at: nat, data: seq<Byte>)
      requires buf.Length == 64 && at + |data| <= 64
      modifies buf
      ensures buf[..at + |data|] == old(buf[..at]) + data
    {
      forall i | 0 <= i < |data| {
        buf[at + i] := data[i];
      }
      assert forall i :: 0 <= i < at ==> buf[i] == old(buf[i]);
      assert forall i :: 0 <= i < |data| ==> buf[at + i] == data[i];
    }

    /** The initial partial block of `md5_append`: how many bytes went into it, and whether it is still open. */
    method Top(offset: nat, data: seq<Byte>) returns (copy: nat, open: bool)
      requires Buffered() && offset == |tail| > 0
      modifies this`abcd, this`done, this`tail, buf
      ensures Buffered() && copy <= |data| && Message() == old(Message()) + data[..copy]
      ensures if open then copy == |data| else tail == []
    {
      hide Fold;
      copy := if offset + |data| > 64 then 64 - offset else |data|;
      CopyIn(offset, data[..copy]);
      ghost var m := done + tail;
      tail := tail + data[..copy];
      assert done + tail == m + data[..copy];
      open := offset + copy < 64;
      if !open {
        FoldBlock(compress, done, tail);
        assert buf[..] == tail;
        abcd := compress(abcd, buf[..]);
        done, tail := done + tail, [];
      }
    }

    /** One full block of `md5_append`. */
    method Block(block: seq<Byte>)
      requires Buffered() && tail == [] && |block| == 64
      modifies this`abcd, this`done
      ensures Buffered() && done == old(done) + block
    {
      hide Fold;
      FoldBlock(compress, done, block);
      abcd := compress(abcd, block);
      done := done + block;
    }

    /** The full blocks of `md5_append`, straight from the data. */
    method Blocks(data: seq<Byte>, start: nat) returns (p: nat)
      requires Buffered() && tail == [] && start <= |data|
      modifies this`abcd, this`done
      ensures Buffered() && start <= p <= |data| < p + 64 && done == old(done) + data[start..p]
    {
      hide Fold;
      p := start;
      while |data| - p >= 64
        invariant start <= p <= |data| && Buffered() && done == old(done) + data[start..p]
      {
        assert data[start..p] + data[p..p + 64] == data[start..p + 64];
        Block(data[p..p + 64]);
        p := p + 64;
      }
    }

    /** The part of `md5_append` after the counter update. */
    method Absorb(offset: nat, data: seq<Byte>)
      requires Buffered() && offset == |tail|
      modifies this`abcd, this`done, this`tail, buf
      ensures Buffered() && Message() == old(Message()) + data
    {
      hide Fold;
      var p := 0;
      if offset != 0 {
        var open;
        p, open := Top(offset, data);
        if open {
          assert data[..p] == data;
          return;
        }
      }
      assert done == old(Message()) + data[..p];
      assert data == data[..p] + data[p..];
      Rest(data, p);
    }

    /** What remains once the buffer is empty: full blocks, then a partial one. */
    method Rest(data: seq<Byte>, start: nat)
      requires Buffered() && tail == [] && start <= |data|
      modifies this`abcd, this`done, this`tail, buf
      ensures Buffered() && Message() == old(done) + data[start..]
    {
      hide Fold;
      ghost var m := done;
      var p := Blocks(data, start);
      var rest := data[p..];
      assert m + data[start..] == m + data[start..p] + rest;
      CopyIn(0, rest);
      assert buf[..|rest|] == rest;
      tail := rest;
    }

    /** The counter update of `md5_append`. */
    method Advance(n: nat, ghost m: nat)
      requires n < 0x1000_0000 && lo + WORD * hi == Bits(m)
      modifies this`lo, this`hi
      ensures lo + WORD * hi == Bits(m + n)
    {
      hide Bits, Advanced;
      AdvancedCounts(lo, hi, n);
      BitsAdvance(m, n);
      var r := Advanced(lo, hi, n);
      lo, hi := r.0, r.1;
    }

    /** `md5_append`: the message grows by the data, however it was cut up before. */
    method Append(data: seq<Byte>)
      requires Valid() && |data| < 0x1000_0000
      modifies this`lo, this`hi, this`abcd, this`done, this`tail, buf
      ensures Valid() && Message() == old(Message()) + data
    {
      hide Fold, Bits;
      OffsetIs(lo, hi, |done| + |tail|);
      TailLength(|done|, |tail|);
      var offset := lo / 8 % 64;
      if |data| == 0 {
        assert Message() + data == Message();
        return;
      }
      ghost var n := |Message()|;
      Advance(|data|, n);
      Absorb(offset, data);
      assert |done| + |tail| == |Message()| == n + |data|;
    }

    /** The eight bytes of the counter. */
    method LengthBytes() returns (data: seq<Byte>)
      requires Valid()
      ensures data == LittleEndian(Bits(|Message()|), 8)
    {
      hide Fold, LittleEndian, Power, Bits;
      FourPower();
      TwoWords(lo, hi, 4);
      data := CounterBytes(lo, hi);
    }

    /** `md5_finish`: the digest of the padded message. */
    method Finish() returns (digest: seq<Byte>)
      requires Valid()
      modifies this`lo, this`hi, this`abcd, this`done, this`tail, buf
      ensures Valid() && Message() == Padded(old(Message())) && tail == []
      ensures digest == Digest(compress, old(Message()))
    {
      hide Fold, LittleEndian, Zeros, PadLength;
      ghost var m := Message();
      var data := LengthBytes();
      OffsetIs(lo, hi, |done| + |tail|);
      PadLengthMod(lo / 8, |m|);
      var pad := [0x80] + Zeros((55 - lo / 8) % 64);
      Append(pad);
      Append(data);
      assert Message() == Padded(m);
      PaddedWhole(m);
      TailLength(|done|, |tail|);
      assert Message() == done;
      digest := ChainBytes(abcd);
    }
  }

  lemma TailLength(done: nat, tail: nat)
    requires done % 64 == 0 && tail < 64
    ensures (done + tail) % 64 == tail
  {
    ModIs(done + tail, done / 64, tail);
  }

  lemma FourPower()
    ensures Power(4) == WORD
  {
    assert Power(1) == 256 && Power(2) == 0x1_0000 && Power(3) == 0x100_0000;
  }

  /** The pad length depends on the length modulo 64 only. */
  lemma PadLengthMod(a: nat, n: nat)
    requires a % 64 == n % 64
    ensures (55 - a) % 64 + 1 == PadLength(n) == PadLength(a)
  {
    PadLengthIs(a);
    PadLengthIs(n);
  }

  function Concat(chunks: seq<seq<Byte>>): seq<Byte> {
    if chunks == [] then [] else Concat(chunks[..|chunks| - 1]) + chunks[|chunks| - 1]
  }

  /** The digest does not depend on how a message is cut into chunks. */
  method DigestOf(compress: Compress, chunks: seq<seq<Byte>>) returns (digest: seq<Byte>)
    requires forall c <- chunks :: |c| < 0x1000_0000
    ensures digest == Digest(compress, Concat(chunks))
  {
    var s := new State(compress);
    for i := 0 to |chunks|
      invariant fresh(s) && fresh(s.buf) && s.compress == compress && s.Valid() && s.Message() == Concat(chunks[..i])
    {
      assert chunks[..i + 1][..i] == chunks[..i];
      assert chunks[i] in chunks;
      s.Append(chunks[i]);
    }
    assert chunks[..|chunks|] == chunks;
    digest := s.Finish();
  }
}
