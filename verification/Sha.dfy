/** Merkle-Damgard hashing: the one-shot definition and the pieces both streaming contexts share. */
module Sha {
  import opened Words

  /** The eight chaining words. */
  type State = seq<nat>

  /** Folding the compression function over the whole blocks of m, each bs bytes. */
  ghost function Blocks(compress: (State, seq<byte>) -> State, bs: nat, s: State, m: seq<byte>): State
    requires bs > 0 && |m| % bs == 0
    decreases |m|
  {
    if m == [] then s
    else
      assert |m| >= bs && (|m| - bs) % bs == 0 by { OneBlockLess(|m|, bs); }
      Blocks(compress, bs, compress(s, m[..bs]), m[bs..])
  }

  lemma OneBlockLess(n: nat, bs: nat)
    requires bs > 0 && n > 0 && n % bs == 0
    ensures n >= bs && (n - bs) % bs == 0
  {
    var q := n / bs;
    assert n == q * bs;
    MulGrows(q, bs);
    assert n - bs == (q - 1) * bs;
    DivUnique(n - bs, bs, q - 1, 0);
  }

  /** Big-endian bytes of v, as the length field and the digest use them. */
  function BE(v: nat, n: nat): (s: seq<byte>)
    ensures |s| == n
  {
    if n == 0 then [] else BE(v / 256, n - 1) + [v % 256]
  }

  function Zeros(n: nat): (s: seq<byte>)
    ensures |s| == n
  {
    seq(n, i => 0)
  }

  /** The padding of section 5.1 of FIPS 180-4: 0x80, the fewest zeros that fit, and the bit length in lf bytes. */
  ghost function Padding(len: nat, bs: nat, lf: nat): seq<byte>
    requires bs > lf
  {
    [0x80] + Zeros((bs - lf - 1 - len) % bs) + BE(8 * len, lf)
  }

  ghost function Padded(m: seq<byte>, bs: nat, lf: nat): seq<byte>
    requires bs > lf
  {
    m + Padding(|m|, bs, lf)
  }

  /** The chaining words written out big-endian, wb bytes each. */
  function WordBytes(s: State, wb: nat): seq<byte> {
    if s == [] then [] else BE(s[0], wb) + WordBytes(s[1..], wb)
  }

  /** The hash of m in one shot: fold the compression function over the padded message. */
  ghost function OneShot(compress: (State, seq<byte>) -> State, iv: State, bs: nat, lf: nat, wb: nat, m: seq<byte>)
    : seq<byte>
    requires bs > lf
  {
    PaddedIsWhole(m, bs, lf);
    WordBytes(Blocks(compress, bs, iv, Padded(m, bs, lf)), wb)
  }

  /** Byte j of the written words is a byte of word j / wb, the most significant first. */
  lemma {:induction false} WordBytesAt(s: State, wb: nat, j: nat)
    requires wb > 0 && j < |WordBytes(s, wb)|
    ensures j / wb < |s| && WordBytes(s, wb)[j] == s[j / wb] / Pow2(8 * (wb - 1 - j % wb)) % 256
  {
    hide BE, Pow2, WordBytes;
    WordBytesSplit(s, wb, j);
    if j < wb {
      DivUnique(j, wb, 0, j);
      BEByte(s[0], wb, j);
    } else {
      WordBytesAt(s[1..], wb, j - wb);
      NextWord(j, wb);
    }
  }

  lemma WordBytesSplit(s: State, wb: nat, j: nat)
    requires j < |WordBytes(s, wb)|
    ensures s != [] && WordBytes(s, wb) == BE(s[0], wb) + WordBytes(s[1..], wb)
    ensures WordBytes(s, wb)[j] == if j < wb then BE(s[0], wb)[j] else WordBytes(s[1..], wb)[j - wb]
  {
    hide BE;
  }

  lemma NextWord(j: nat, wb: nat)
    requires j >= wb > 0
    ensures j / wb == (j - wb) / wb + 1 && j % wb == (j - wb) % wb
  {
    var q, r := (j - wb) / wb, (j - wb) % wb;
    assert j - wb == q * wb + r;
    DivUnique(j, wb, q + 1, r);
  }

  lemma {:induction false} WordBytesLength(s: State, wb: nat)
    ensures |WordBytes(s, wb)| == |s| * wb
  {
    if s != [] {
      WordBytesLength(s[1..], wb);
    }
  }

  lemma {:induction false} BEByte(v: nat, n: nat, i: nat)
    requires i < n
    ensures BE(v, n)[i] == v / Pow2(8 * (n - 1 - i)) % 256
  {
    hide Pow2;
    if i == n - 1 {
      PowZero();
    } else {
      BEByte(v / 256, n - 1, i);
      Pow2Literals();
      SplitAt(v, 8, 8 * (n - 2 - i));
    }
  }

  /** The digest byte by byte: the final chaining words in order, each with its most significant byte first. */
  lemma OneShotBytes(compress: (State, seq<byte>) -> State, iv: State, bs: nat, lf: nat, wb: nat, m: seq<byte>)
    requires bs > lf && wb > 0
    ensures |Padded(m, bs, lf)| % bs == 0
    ensures var digest, t := OneShot(compress, iv, bs, lf, wb, m), Blocks(compress, bs, iv, Padded(m, bs, lf));
      && |digest| == |t| * wb
      && forall j :: 0 <= j < |digest| ==>
           j / wb < |t| && digest[j] == t[j / wb] / Pow2(8 * (wb - 1 - j % wb)) % 256
  {
    hide Blocks, Padded, WordBytes, Pow2;
    PaddedIsWhole(m, bs, lf);
    var digest, t := OneShot(compress, iv, bs, lf, wb, m), Blocks(compress, bs, iv, Padded(m, bs, lf));
    WordBytesLength(t, wb);
    forall j | 0 <= j < |digest|
      ensures j / wb < |t| && digest[j] == t[j / wb] / Pow2(8 * (wb - 1 - j % wb)) % 256
    {
      WordBytesAt(t, wb, j);
    }
  }

  /**
   * The padded message, position by position: the message, the byte 0x80, zeros, and the bit length big-endian in
   * the last lf bytes of a whole number of blocks, with less than a block between.
   */
  lemma PaddedForm(m: seq<byte>, bs: nat, lf: nat)
    requires bs > lf
    ensures var p := Padded(m, bs, lf);
      && |p| % bs == 0 && |m| + 1 + lf <= |p| < |m| + 1 + lf + bs
      && p[..|m|] == m && p[|m|] == 0x80
      && (forall j :: |m| < j < |p| - lf ==> p[j] == 0)
      && (forall j :: |p| - lf <= j < |p| ==> p[j] == 8 * |m| / Pow2(8 * (|p| - 1 - j)) % 256)
  {
    hide Pow2, BE;
    PaddedIsWhole(m, bs, lf);
    var p := Padded(m, bs, lf);
    forall j | |p| - lf <= j < |p|
      ensures p[j] == 8 * |m| / Pow2(8 * (|p| - 1 - j)) % 256
    {
      BEByte(8 * |m|, lf, j - (|p| - lf));
    }
  }

  lemma PaddedIsWhole(m: seq<byte>, bs: nat, lf: nat)
    requires bs > lf
    ensures |Padded(m, bs, lf)| % bs == 0
  {
    var d := bs - lf - 1 - |m|;
    var k := d % bs;
    assert |Padded(m, bs, lf)| == |m| + 1 + k + lf == bs - d + k;
    assert d == d / bs * bs + k;
    assert bs - d + k == (1 - d / bs) * bs;
    DivUnique(bs - d + k, bs, 1 - d / bs, 0);
  }

  lemma {:induction false} BlocksAppend(compress: (State, seq<byte>) -> State, bs: nat, s: State,
                                        m: seq<byte>, n: seq<byte>)
    requires bs > 0 && |m| % bs == 0 && |n| % bs == 0
    ensures |m + n| % bs == 0
    ensures Blocks(compress, bs, s, m + n) == Blocks(compress, bs, Blocks(compress, bs, s, m), n)
    decreases |m|
  {
    WholeSum(|m|, |n|, bs);
    if m == [] {
      assert m + n == n;
    } else {
      OneBlockLess(|m|, bs);
      OneBlockLess(|m + n|, bs);
      BlocksAppend(compress, bs, compress(s, m[..bs]), m[bs..], n);
      assert (m + n)[..bs] == m[..bs] && (m + n)[bs..] == m[bs..] + n;
    }
  }

  lemma WholeSum(a: nat, b: nat, bs: nat)
    requires bs > 0 && a % bs == 0 && b % bs == 0
    ensures (a + b) % bs == 0
  {
    assert a == a / bs * bs && b == b / bs * bs;
    assert a + b == (a / bs + b / bs) * bs;
    DivUnique(a + b, bs, a / bs + b / bs, 0);
  }

  lemma OneBlock(compress: (State, seq<byte>) -> State, bs: nat, s: State, m: seq<byte>)
    requires bs > 0 && |m| == bs
    ensures |m| % bs == 0 && Blocks(compress, bs, s, m) == compress(s, m)
  {
    DivUnique(bs, bs, 1, 0);
    assert m[..bs] == m && m[bs..] == [];
    assert Blocks(compress, bs, compress(s, m[..bs]), []) == compress(s, m);
  }

  /** One more whole block. */
  lemma Absorb(compress: (State, seq<byte>) -> State, bs: nat, s: State, m: seq<byte>, block: seq<byte>)
    requires bs > 0 && |m| % bs == 0 && |block| == bs
    ensures |m + block| % bs == 0
    ensures Blocks(compress, bs, s, m + block) == compress(Blocks(compress, bs, s, m), block)
  {
    OneBlock(compress, bs, Blocks(compress, bs, s, m), block);
    BlocksAppend(compress, bs, s, m, block);
  }

  /** memcpy into the block buffer. */
  method Copy(buf: array<byte>, at: nat, data: seq<byte>, from: nat, n: nat)
    requires at + n <= buf.Length && from + n <= |data|
    modifies buf
    ensures buf[..at + n] == old(buf[..at]) + data[from..from + n] && buf[at + n..] == old(buf[at + n..])
  {
    for i := 0 to n
      invariant buf[..at + i] == old(buf[..at]) + data[from..from + i] && buf[at + i..] == old(buf[at + i..])
    {
      buf[at + i] := data[from + i];
      assert data[from..from + i + 1] == data[from..from + i] + [data[from + i]];
      assert buf[..at + i + 1] == buf[..at + i] + [data[from + i]];
    }
  }

  /** memset to zero. */
  method Clear(buf: array<byte>, at: nat, n: nat)
    requires at + n <= buf.Length
    modifies buf
    ensures buf[..at + n] == old(buf[..at]) + Zeros(n) && buf[at + n..] == old(buf[at + n..])
  {
    for i := 0 to n
      invariant buf[..at + i] == old(buf[..at]) + Zeros(i) && buf[at + i..] == old(buf[at + i..])
    {
      buf[at + i] := 0;
      assert buf[..at + i + 1] == buf[..at + i] + [0];
      assert Zeros(i + 1) == Zeros(i) + [0];
    }
  }

  /** The loop that compresses whole blocks straight from the input. */
  method WholeBlocks(compress: (State, seq<byte>) -> State, bs: nat, s: State, data: seq<byte>)
    returns (t: State, p: nat)
    requires bs > 0
    ensures p <= |data| && |data| - p < bs && p % bs == 0
    ensures t == Blocks(compress, bs, s, data[..p])
  {
    t, p := s, 0;
    DivUnique(0, bs, 0, 0);
    while |data| - p >= bs
      invariant p <= |data| && p % bs == 0 && t == Blocks(compress, bs, s, data[..p])
    {
      Absorb(compress, bs, s, data[..p], data[p..p + bs]);
      assert data[..p] + data[p..p + bs] == data[..p + bs];
      t := compress(t, data[p..p + bs]);
      p := p + bs;
    }
  }
}
