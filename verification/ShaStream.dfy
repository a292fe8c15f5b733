/** The streaming contexts of cookbook_sha256.c (64-byte blocks) and of section 1 of cookbook_ed25519.c (128-byte). */
module ShaStream {
  import opened Words
  import opened Sha

  /** Block size, length-field size and word size: 64, 8, 4 for SHA-256 and 128, 16, 8 for SHA-512. */
  datatype Shape = Shape(bs: nat, lf: nat, wb: nat)

  const SHA256: Shape := Shape(64, 8, 4)
  const SHA512: Shape := Shape(128, 16, 8)

  const IV256: State := [0x6a09e667, 0xbb67ae85, 0x3c6ef372, 0xa54ff53a, 0x510e527f, 0x9b05688c, 0x1f83d9ab, 0x5be0cd19]
  const IV512: State := [0x6a09e667f3bcc908, 0xbb67ae8584caa73b, 0x3c6ef372fe94f82b, 0xa54ff53a5f1d36f1,
                         0x510e527fade682d1, 0x9b05688c2b3e6c1f, 0x1f83d9abfb41bd6b, 0x5be0cd19137e2179]

  /** From here on the 64-bit bit count would wrap. */
  const LIMIT: nat := 0x2000_0000_0000_0000

  class Ctx {
    const shape: Shape
    const iv: State
    const compress: (State, seq<byte>) -> State
    const buf: array<byte>
    var state: State
    var count: nat
    /** Everything hashed so far. */
    ghost var msg: seq<byte>

    ghost predicate Valid()
      reads this, buf
    {
      && (shape == SHA256 || shape == SHA512)
      && buf.Length == shape.bs && count == |msg| < LIMIT
      && Holds(msg)
    }

    /** The whole blocks of m are in the state and the rest is at the front of the buffer. */
    ghost predicate Holds(m: seq<byte>)
      requires buf.Length == shape.bs > 0
      reads this, buf
    {
      state == Blocks(compress, shape.bs, iv, Full(m, shape.bs)) && buf[..|m| % shape.bs] == Tail(m, shape.bs)
    }

    constructor (shape: Shape, iv: State, compress: (State, seq<byte>) -> State)
      requires shape == SHA256 || shape == SHA512
      ensures Valid() && msg == [] && fresh(buf)
      ensures this.compress == compress && this.shape == shape && this.iv == iv
    {
      this.shape := shape;
      this.iv := iv;
      this.compress := compress;
      buf := new byte[shape.bs];
      state := iv;
      count := 0;
      msg := [];
    }

    /** The update of either context: whatever way the data is split over calls, the message is the concatenation. */
    method Update(data: seq<byte>)
      requires Valid() && |msg| + |data| < LIMIT
      modifies this, buf
      ensures Valid() && msg == old(msg) + data
    {
      hide Blocks, Full, Tail;
      var idx := count % shape.bs;
      var fill := shape.bs - idx;
      if idx == 0 {
        Aligned();
        Drain(msg, data);
      } else if |data| < fill {
        Keep(data);
      } else {
        TopUp(data[..fill]);
        Drain(msg + data[..fill], data[fill..]);
        assert msg + data[..fill] + data[fill..] == msg + data;
      }
      count := count + |data|;
      msg := msg + data;
    }

    lemma Aligned()
      requires Valid() && |msg| % shape.bs == 0
      ensures state == Blocks(compress, shape.bs, iv, msg)
    {
      hide Blocks, Full, Tail;
      NothingBuffered(msg, shape.bs);
    }

    /** Data that does not fill the buffer is only copied. */
    method Keep(data: seq<byte>)
      requires Valid() && |msg| % shape.bs + |data| < shape.bs
      modifies buf
      ensures Holds(msg + data)
    {
      hide Blocks, Full, Tail;
      Buffered(msg, data, shape.bs);
      Copy(buf, count % shape.bs, data, 0, |data|);
    }

    /** Completes the buffered block and compresses it. */
    method TopUp(head: seq<byte>)
      requires Valid() && |msg| % shape.bs + |head| == shape.bs
      modifies this`state, buf
      ensures |msg + head| % shape.bs == 0 && state == Blocks(compress, shape.bs, iv, msg + head)
    {
      hide Blocks, Full, Tail;
      var idx := count % shape.bs;
      Filled(compress, iv, msg, head, shape.bs);
      Copy(buf, idx, head, 0, |head|);
      assert buf[..] == buf[..shape.bs] == Tail(msg, shape.bs) + head;
      state := compress(state, buf[..]);
    }

    /** With m compressed and nothing buffered, compresses the whole blocks of rest and buffers what is left. */
    method Drain(ghost m: seq<byte>, rest: seq<byte>)
      requires buf.Length == shape.bs > 0 && |m| % shape.bs == 0 && state == Blocks(compress, shape.bs, iv, m)
      modifies this`state, buf
      ensures Holds(m + rest)
    {
      hide Blocks, Full, Tail;
      var p;
      state, p := WholeBlocks(compress, shape.bs, state, rest);
      Drained(compress, iv, m, rest, p, shape.bs);
      if p < |rest| {
        Copy(buf, 0, rest, p, |rest| - p);
      }
    }

    /**
     * The final of either context: the digest is the one-shot hash of the message, whatever the updates were, and
     * its bytes are those of the chaining words after the padded message, each word big-endian.
     */
    method Final() returns (digest: seq<byte>)
      requires Valid()
      modifies this, buf
      ensures digest == OneShot(compress, iv, shape.bs, shape.lf, shape.wb, old(msg))
      ensures |Padded(old(msg), shape.bs, shape.lf)| % shape.bs == 0
      ensures var t, wb := Blocks(compress, shape.bs, iv, Padded(old(msg), shape.bs, shape.lf)), shape.wb;
        && |digest| == |t| * wb
        && forall j :: 0 <= j < |digest| ==>
             j / wb < |t| && digest[j] == t[j / wb] / Pow2(8 * (wb - 1 - j % wb)) % 256
    {
      hide Blocks, Full, Tail, OneShot, WordBytes, BE, Padded, Pow2;
      OneShotBytes(compress, iv, shape.bs, shape.lf, shape.wb, msg);
      digest := Finish();
    }

    /** Padding, the last blocks, and the words written out. */
    method Finish() returns (digest: seq<byte>)
      requires Valid()
      modifies this, buf
      ensures digest == OneShot(compress, iv, shape.bs, shape.lf, shape.wb, old(msg))
    {
      hide Blocks, Full, Tail, OneShot, WordBytes, BE;
      var bits: nat := count * 8;
      if |Tail(msg, shape.bs)| + 1 <= shape.bs - shape.lf {
        PadOne(compress, iv, msg, shape);
      } else {
        PadTwo(compress, iv, msg, shape);
      }
      var idx := MarkEnd();
      assert [] + Zeros(shape.bs - shape.lf) == Zeros(shape.bs - shape.lf);
      LastBlock(idx, bits);
      digest := WordBytes(state, shape.wb);
    }

    /** Zero-fills up to the length field, writes the length and compresses the last block. */
    method LastBlock(idx: nat, bits: nat)
      requires shape == SHA256 || shape == SHA512
      requires buf.Length == shape.bs && bits < 0x1_0000_0000_0000_0000 && idx <= shape.bs - shape.lf
      modifies this`state, buf
      ensures state == compress(old(state), old(buf[..idx]) + Zeros(shape.bs - shape.lf - idx) + BE(bits, shape.lf))
    {
      hide BE;
      Clear(buf, idx, shape.bs - shape.lf - idx);
      WriteLength(bits);
      state := compress(state, buf[..]);
    }

    /** Appends 0x80 and, when the length no longer fits, zero-fills and compresses the block. */
    method MarkEnd() returns (idx: nat)
      requires Valid()
      modifies this`state, buf
      ensures var t := Tail(msg, shape.bs) + [0x80];
              if |t| <= shape.bs - shape.lf then idx == |t| && buf[..idx] == t && state == old(state)
              else idx == 0 && state == compress(old(state), t + Zeros(shape.bs - |t|))
    {
      hide Blocks, Full, Tail;
      ghost var t := Tail(msg, shape.bs) + [0x80];
      idx := count % shape.bs;
      buf[idx] := 0x80;
      idx := idx + 1;
      assert buf[..idx] == t;
      if idx > shape.bs - shape.lf {
        Clear(buf, idx, shape.bs - idx);
        assert buf[..] == buf[..shape.bs];
        state := compress(state, buf[..]);
        idx := 0;
      }
    }

    /** The big-endian bit count at the end of the block; SHA-512 clears the upper eight bytes of its field. */
    method WriteLength(bits: nat)
      requires shape == SHA256 || shape == SHA512
      requires buf.Length == shape.bs && bits < 0x1_0000_0000_0000_0000
      modifies buf
      ensures buf[..] == old(buf[..shape.bs - shape.lf]) + BE(bits, shape.lf)
    {
      hide BE, Pow2, Zeros;
      var at := shape.bs - 8;
      ghost var head := buf[..shape.bs - shape.lf];
      Clear(buf, shape.bs - shape.lf, shape.lf - 8);
      assert buf[..at] == head + Zeros(shape.lf - 8);
      StoreLength(at, bits);
      LengthField(head, bits, shape.lf);
      assert buf[..] == buf[..at] + buf[at..];
    }

    method StoreLength(at: nat, bits: nat)
      requires buf.Length == at + 8 && bits < 0x1_0000_0000_0000_0000
      modifies buf
      ensures buf[..at] == old(buf[..at]) && buf[at..] == BE(bits, 8)
    {
      hide BE, Pow2;
      ghost var front := buf[..at];
      for i := 0 to 8
        invariant buf[..at] == front && buf[at..at + i] == BE(bits, 8)[..i]
      {
        BEByte(bits, 8, i);
        buf[at + i] := bits / Pow2(56 - 8 * i) % 256;
        assert buf[at..at + i + 1] == buf[at..at + i] + [buf[at + i]];
        assert BE(bits, 8)[..i + 1] == BE(bits, 8)[..i] + [BE(bits, 8)[i]];
      }
      assert buf[at..] == buf[at..at + 8] && BE(bits, 8)[..8] == BE(bits, 8);
    }
  }

  /** The cleared upper half and the eight bytes of the count make up the field. */
  lemma LengthField(head: seq<byte>, v: nat, lf: nat)
    requires (lf == 8 || lf == 16) && v < 0x1_0000_0000_0000_0000
    ensures head + Zeros(lf - 8) + BE(v, 8) == head + BE(v, lf)
  {
    hide BE, Zeros;
    LongLength(v);
    assert head + Zeros(lf - 8) + BE(v, 8) == head + (Zeros(lf - 8) + BE(v, 8));
  }

  /** A 64-bit count fills a 16-byte field from the right. */
  lemma LongLength(v: nat)
    requires v < 0x1_0000_0000_0000_0000
    ensures BE(v, 16) == Zeros(8) + BE(v, 8) && Zeros(0) + BE(v, 8) == BE(v, 8)
  {
    hide BE, Pow2;
    Pow2Literals();
    BEShort(v, 8, 8);
    assert Zeros(0) == [];
  }

  lemma {:induction false} BEShort(v: nat, n: nat, k: nat)
    requires v < Pow2(8 * n)
    ensures BE(v, k + n) == Zeros(k) + BE(v, n)
  {
    if n == 0 {
      BEZero(k);
      assert Zeros(k) + BE(v, 0) == Zeros(k);
    } else {
      Pow2Bytes(n);
      BEShort(v / 256, n - 1, k);
    }
  }

  lemma {:induction false} BEZero(n: nat)
    ensures BE(0, n) == Zeros(n)
  {
    if n > 0 {
      BEZero(n - 1);
    }
  }

  lemma ZerosAdd(a: nat, b: nat)
    ensures Zeros(a) + Zeros(b) == Zeros(a + b)
  {
  }

  lemma ZeroCount(len: nat, bs: nat, lf: nat)
    requires bs > lf
    ensures var r := len % bs;
            (bs - lf - 1 - len) % bs == if r + 1 <= bs - lf then bs - lf - 1 - r else 2 * bs - lf - 1 - r
  {
    var q, r := len / bs, len % bs;
    assert len == q * bs + r;
    if r + 1 <= bs - lf {
      assert bs - lf - 1 - len == -q * bs + (bs - lf - 1 - r);
      DivUnique(bs - lf - 1 - len, bs, -q, bs - lf - 1 - r);
    } else {
      assert bs - lf - 1 - len == (-q - 1) * bs + (2 * bs - lf - 1 - r);
      DivUnique(bs - lf - 1 - len, bs, -q - 1, 2 * bs - lf - 1 - r);
    }
  }

  /** The padding fits behind the tail: one last block. */
  lemma PadOne(compress: (State, seq<byte>) -> State, iv: State, m: seq<byte>, sh: Shape)
    requires sh == SHA256 || sh == SHA512
    requires |m| % sh.bs + 1 <= sh.bs - sh.lf
    ensures var last := Tail(m, sh.bs) + [0x80] + Zeros(sh.bs - sh.lf - |m| % sh.bs - 1) + BE(8 * |m|, sh.lf);
            OneShot(compress, iv, sh.bs, sh.lf, sh.wb, m)
            == WordBytes(compress(Blocks(compress, sh.bs, iv, Full(m, sh.bs)), last), sh.wb)
  {
    hide Full, Tail, Blocks, WordBytes, Zeros, BE;
    var bs, lf := sh.bs, sh.lf;
    var z := Zeros(bs - lf - |m| % bs - 1);
    var last := Tail(m, bs) + [0x80] + z + BE(8 * |m|, lf);
    ZeroCount(|m|, bs, lf);
    PaddedIsWhole(m, bs, lf);
    Absorb(compress, bs, iv, Full(m, bs), last);
    Together(Full(m, bs), Tail(m, bs), z, BE(8 * |m|, lf));
    assert Padded(m, bs, lf) == Full(m, bs) + last;
  }

  lemma Together(full: seq<byte>, tail: seq<byte>, z: seq<byte>, b: seq<byte>)
    ensures full + tail + ([0x80] + z + b) == full + (tail + [0x80] + z + b)
  {
  }

  /** The padding spills over: the tail's block and one more. */
  lemma PadTwo(compress: (State, seq<byte>) -> State, iv: State, m: seq<byte>, sh: Shape)
    requires sh == SHA256 || sh == SHA512
    requires |m| % sh.bs + 1 > sh.bs - sh.lf
    ensures var first := Tail(m, sh.bs) + [0x80] + Zeros(sh.bs - |m| % sh.bs - 1);
            var last := Zeros(sh.bs - sh.lf) + BE(8 * |m|, sh.lf);
            OneShot(compress, iv, sh.bs, sh.lf, sh.wb, m)
            == WordBytes(compress(compress(Blocks(compress, sh.bs, iv, Full(m, sh.bs)), first), last), sh.wb)
  {
    hide Full, Tail, Blocks, WordBytes, Zeros, BE;
    var bs, lf := sh.bs, sh.lf;
    var z, y := Zeros(bs - |m| % bs - 1), Zeros(bs - lf);
    var first := Tail(m, bs) + [0x80] + z;
    var last := y + BE(8 * |m|, lf);
    ZeroCount(|m|, bs, lf);
    ZerosAdd(bs - |m| % bs - 1, bs - lf);
    PaddedIsWhole(m, bs, lf);
    Absorb(compress, bs, iv, Full(m, bs), first);
    Absorb(compress, bs, iv, Full(m, bs) + first, last);
    Regroup(Full(m, bs), Tail(m, bs), z, y, BE(8 * |m|, lf));
    assert Padded(m, bs, lf) == Full(m, bs) + first + last;
  }

  lemma Regroup(full: seq<byte>, tail: seq<byte>, z: seq<byte>, y: seq<byte>, b: seq<byte>)
    ensures full + tail + ([0x80] + (z + y) + b) == full + (tail + [0x80] + z) + (y + b)
  {
  }

  ghost function Full(m: seq<byte>, bs: nat): (f: seq<byte>)
    requires bs > 0
    ensures |f| % bs == 0 && |f| <= |m|
  {
    assert |m| - |m| % bs == |m| / bs * bs;
    DivUnique(|m| - |m| % bs, bs, |m| / bs, 0);
    m[..|m| - |m| % bs]
  }

  ghost function Tail(m: seq<byte>, bs: nat): (t: seq<byte>)
    requires bs > 0
    ensures |t| == |m| % bs && Full(m, bs) + t == m
  {
    assert |m| - |m| % bs == |m| / bs * bs;
    m[|m| - |m| % bs..]
  }

  lemma NothingBuffered(m: seq<byte>, bs: nat)
    requires bs > 0 && |m| % bs == 0
    ensures Full(m, bs) == m
  {
    assert m[..|m|] == m;
  }

  /** A message made of whole blocks and a short rest splits just there. */
  lemma SplitHere(f: seq<byte>, t: seq<byte>, bs: nat)
    requires bs > 0 && |f| % bs == 0 && |t| < bs
    ensures |f + t| % bs == |t| && Full(f + t, bs) == f && Tail(f + t, bs) == t
  {
    assert |f| == |f| / bs * bs;
    DivUnique(|f + t|, bs, |f| / bs, |t|);
  }

  /** The tail still fits: no block is completed. */
  lemma Buffered(m: seq<byte>, data: seq<byte>, bs: nat)
    requires bs > 0 && |m| % bs + |data| < bs
    ensures |m + data| % bs == |m| % bs + |data|
    ensures Full(m + data, bs) == Full(m, bs) && Tail(m + data, bs) == Tail(m, bs) + data
  {
    hide Full, Tail;
    SplitHere(Full(m, bs), Tail(m, bs) + data, bs);
    assert Full(m, bs) + (Tail(m, bs) + data) == m + data;
  }

  /** The buffered tail and the first bytes of the data make one block. */
  lemma Filled(compress: (State, seq<byte>) -> State, iv: State, m: seq<byte>, head: seq<byte>, bs: nat)
    requires bs > 0 && |m| % bs + |head| == bs
    ensures |m + head| % bs == 0
    ensures Blocks(compress, bs, iv, m + head) == compress(Blocks(compress, bs, iv, Full(m, bs)), Tail(m, bs) + head)
  {
    hide Full, Tail, Blocks;
    Absorb(compress, bs, iv, Full(m, bs), Tail(m, bs) + head);
    assert Full(m, bs) + (Tail(m, bs) + head) == m + head;
  }

  /** After the whole blocks of the rest, less than a block remains. */
  lemma Drained(compress: (State, seq<byte>) -> State, iv: State, m: seq<byte>, rest: seq<byte>, p: nat, bs: nat)
    requires bs > 0 && |m| % bs == 0 && p <= |rest| && |rest| - p < bs && p % bs == 0
    ensures |m + rest| % bs == |rest| - p && Tail(m + rest, bs) == rest[p..]
    ensures Blocks(compress, bs, iv, Full(m + rest, bs)) == Blocks(compress, bs, Blocks(compress, bs, iv, m), rest[..p])
  {
    hide Full, Tail, Blocks;
    BlocksAppend(compress, bs, iv, m, rest[..p]);
    assert m + rest[..p] + rest[p..] == m + rest;
    SplitHere(m + rest[..p], rest[p..], bs);
  }

  /**
   * Hashing a message in any pieces is hashing it in one: big-endian, the chaining words that folding the transform
   * over the padded concatenation ends with.
   */
  method HashParts(shape: Shape, iv: State, compress: (State, seq<byte>) -> State, parts: seq<seq<byte>>)
    returns (digest: seq<byte>)
    requires shape == SHA256 || shape == SHA512
    requires forall k :: 0 <= k <= |parts| ==> |Concat(parts[..k])| < LIMIT
    ensures digest == OneShot(compress, iv, shape.bs, shape.lf, shape.wb, Concat(parts))
    ensures |Padded(Concat(parts), shape.bs, shape.lf)| % shape.bs == 0
    ensures var t, wb := Blocks(compress, shape.bs, iv, Padded(Concat(parts), shape.bs, shape.lf)), shape.wb;
      && |digest| == |t| * wb
      && forall j :: 0 <= j < |digest| ==>
           j / wb < |t| && digest[j] == t[j / wb] / Pow2(8 * (wb - 1 - j % wb)) % 256
  {
    hide Blocks, OneShot, Padded, Pow2;
    var ctx := new Ctx(shape, iv, compress);
    for k := 0 to |parts|
      invariant ctx.Valid() && fresh(ctx) && fresh(ctx.buf) && ctx.msg == Concat(parts[..k])
    {
      assert parts[..k + 1][..k] == parts[..k] && |Concat(parts[..k + 1])| < LIMIT;
      ctx.Update(parts[k]);
    }
    assert parts[..|parts|] == parts;
    digest := ctx.Final();
  }

  /** cookbook_sha256_init, the updates and cookbook_sha256_final: eight words of four bytes, most significant first. */
  method Sha256Parts(compress: (State, seq<byte>) -> State, parts: seq<seq<byte>>) returns (digest: seq<byte>)
    requires forall k :: 0 <= k <= |parts| ==> |Concat(parts[..k])| < LIMIT
    ensures |Padded(Concat(parts), 64, 8)| % 64 == 0
    ensures var t := Blocks(compress, 64, IV256, Padded(Concat(parts), 64, 8));
      && |digest| == 4 * |t|
      && forall j :: 0 <= j < |digest| ==> j / 4 < |t| && digest[j] == t[j / 4] / Pow2(8 * (3 - j % 4)) % 256
  {
    hide OneShot, Blocks, Padded, Pow2;
    digest := HashParts(SHA256, IV256, compress, parts);
  }

  // ---- the initial values ----

  const PRIMES: seq<nat> := [2, 3, 5, 7, 11, 13, 17, 19]

  /** The whole parts of their square roots. */
  const WHOLE: seq<nat> := [1, 1, 2, 2, 3, 3, 4, 4]

  /** x, in units, is the square root of n cut off. */
  predicate IsRoot(x: nat, n: nat, unit: nat) {
    x * x <= n * unit * unit < (x + 1) * (x + 1)
  }

  /** The fractional parts of the square roots of the first eight primes (sections 5.3.3 and 5.3.5 of FIPS 180-4). */
  lemma InitialValues()
    ensures |IV256| == |IV512| == 8
    ensures forall i :: 0 <= i < 8 ==>
      IV256[i] < 0x1_0000_0000 && IsRoot(WHOLE[i] * 0x1_0000_0000 + IV256[i], PRIMES[i], 0x1_0000_0000)
    ensures forall i :: 0 <= i < 8 ==>
      && IV512[i] < 0x1_0000_0000_0000_0000
      && IsRoot(WHOLE[i] * 0x1_0000_0000_0000_0000 + IV512[i], PRIMES[i], 0x1_0000_0000_0000_0000)
  {
  }
}
