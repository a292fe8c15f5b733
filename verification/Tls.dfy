/** The TLS 1.3 record layer of cookbook_tls.c, with the AEAD left open. */
module Tls {
  import opened Wrappers
  import opened Words

  type Key = seq<byte>

  /** Sealing appends a 16-byte tag; opening undoes sealing. */
  datatype Aead = Aead(seal: (Key, seq<byte>, seq<byte>, seq<byte>) -> seq<byte>,
                       open: (Key, seq<byte>, seq<byte>, seq<byte>) -> Option<seq<byte>>)

  ghost predicate IsAead(c: Aead) {
    forall k: Key, n: seq<byte>, a: seq<byte>, p: seq<byte> ::
      |c.seal(k, n, a, p)| == |p| + 16 && c.open(k, n, a, c.seal(k, n, a, p)) == Some(p)
  }

  const RECORD_MAX: nat := 16384
  const APPLICATION_DATA: byte := 23
  const ALERT: byte := 21
  const U64: nat := 0x1_0000_0000_0000_0000

  // ---- nonces ----

  /** build_nonce: the IV with the big-endian sequence number exclusive-ored into its last eight bytes. */
  function Nonce(iv: seq<byte>, s: nat): (n: seq<byte>)
    requires |iv| == 12
    ensures |n| == 12
  {
    seq(12, j requires 0 <= j < 12 => if j < 4 then iv[j] else NonceByte(iv[j], s, 11 - j))
  }

  function NonceByte(b: byte, s: nat, i: nat): byte {
    Pow2Literals();
    XorBound(b, s / Pow2(8 * i) % 256, 8);
    Xor(b, s / Pow2(8 * i) % 256)
  }

  /** Two sequence numbers below 2^64 never give the same nonce under one IV. */
  lemma NonceInjective(iv: seq<byte>, s: nat, t: nat)
    requires |iv| == 12 && s < U64 && t < U64 && Nonce(iv, s) == Nonce(iv, t)
    ensures s == t
  {
    hide Xor, Pow2;
    forall i | 0 <= i < 8
      ensures s / Pow2(8 * i) % 256 == t / Pow2(8 * i) % 256
    {
      assert Nonce(iv, s)[11 - i] == Nonce(iv, t)[11 - i];
      XorCancels(iv[11 - i], s / Pow2(8 * i) % 256);
      XorCancels(iv[11 - i], t / Pow2(8 * i) % 256);
    }
    SameBytes(s, t, 8);
    Pow2Literals();
  }

  lemma {:induction false} SameBytes(s: nat, t: nat, n: nat)
    requires forall i :: 0 <= i < n ==> s / Pow2(8 * i) % 256 == t / Pow2(8 * i) % 256
    ensures s % Pow2(8 * n) == t % Pow2(8 * n)
  {
    hide Pow2;
    if n == 0 {
      PowZero();
    } else {
      SameBytes(s, t, n - 1);
      Pow2Literals();
      SplitAt(s, 8 * (n - 1), 8);
      SplitAt(t, 8 * (n - 1), 8);
    }
  }

  /**
   * Section 5.3 of RFC 8446: the first four bytes are those of the IV, and what is exclusive-ored into the last eight
   * is, read from the last byte on, the sequence number with its least significant byte first.
   */
  lemma NonceForm(iv: seq<byte>, s: nat) returns (b: seq<byte>)
    requires |iv| == 12
    ensures Nonce(iv, s)[..4] == iv[..4]
    ensures |b| == 8 && LE(b) == s % U64
    ensures forall j :: 0 <= j < 8 ==> b[j] == Xor(iv[11 - j], Nonce(iv, s)[11 - j])
  {
    hide LE, Xor, Pow2;
    b := ToLE(s, 8);
    LEOfToLE(s, 8);
    Pow2Literals();
    forall j | 0 <= j < 8
      ensures b[j] == Xor(iv[11 - j], Nonce(iv, s)[11 - j])
    {
      XorCancels(iv[11 - j], s / Pow2(8 * j) % 256);
      ToLEByte(s, 8, j);
    }
  }

  lemma {:induction false} ToLEByte(v: nat, n: nat, i: nat)
    requires i < n
    ensures ToLE(v, n)[i] == v / Pow2(8 * i) % 256
  {
    hide Pow2;
    if i == 0 {
      PowZero();
    } else {
      ToLEByte(v / 256, n - 1, i - 1);
      Pow2Bytes(i);
      DivDiv(v, 256, Pow2(8 * (i - 1)), Pow2(8 * i));
    }
  }

  method BuildNonce(iv: seq<byte>, s: nat) returns (n: seq<byte>)
    requires |iv| == 12
    ensures n == Nonce(iv, s)
    ensures |n| == 12 && n[..4] == iv[..4]
    ensures exists b: seq<byte> ::
      |b| == 8 && LE(b) == s % U64 && forall j :: 0 <= j < 8 ==> b[j] == Xor(iv[11 - j], n[11 - j])
  {
    hide LE, Xor, Pow2;
    ghost var _ := NonceForm(iv, s);
    n := iv;
    for i := 0 to 8
      invariant |n| == 12
      invariant forall j :: 0 <= j < 12 ==> n[j] == if j < 12 - i then iv[j] else Nonce(iv, s)[j]
    {
      n := n[11 - i := NonceByte(n[11 - i], s, i)];
    }
  }

  // ---- records ----

  /** The five header bytes, also the additional data: type 23, legacy version 0x0303, 16-bit length. */
  function Header(len: nat): (h: seq<byte>)
    ensures |h| == 5
  {
    [APPLICATION_DATA, 3, 3, len % 0x1_0000 / 256, len % 256]
  }

  /** The bytes of an encrypted record. */
  function Record(c: Aead, key: Key, iv: seq<byte>, s: nat, kind: byte, data: seq<byte>): seq<byte>
    requires |iv| == 12
  {
    Header(|data| + 17) + c.seal(key, Nonce(iv, s), Header(|data| + 17), data + [kind])
  }

  /** Trailing zero padding removed. */
  function Strip(p: seq<byte>): (q: seq<byte>)
    ensures |q| <= |p|
  {
    if p != [] && p[|p| - 1] == 0 then Strip(p[..|p| - 1]) else p
  }

  datatype Opened = Broken | Got(kind: byte, data: seq<byte>)

  /** What a receiver makes of the bytes w: the record, how many bytes it took, and whether its number moved. */
  function Open(c: Aead, key: Key, iv: seq<byte>, s: nat, w: seq<byte>): (r: (Opened, nat, bool))
    requires |iv| == 12
    ensures r.1 <= |w|
  {
    if |w| < 5 then (Broken, |w|, false)
    else
      var n: int := w[3] as int * 256 + w[4];
      if n > RECORD_MAX + 256 then (Broken, 5, false)
      else if |w| < 5 + n then (Broken, |w|, false)
      else if w[0] != APPLICATION_DATA then (Got(w[0], w[5..5 + n]), 5 + n, false)
      else if n < 17 then (Broken, 5 + n, false)
      else
        match c.open(key, Nonce(iv, s), w[..5], w[5..5 + n])
        case None => (Broken, 5 + n, true)
        case Some(p) =>
          var q := Strip(p);
          if q == [] then (Broken, 5 + n, true) else (Got(q[|q| - 1], q[..|q| - 1]), 5 + n, true)
  }

  /** Opening what was sealed under the same key, IV and sequence number. */
  lemma OpenRecord(c: Aead, key: Key, iv: seq<byte>, s: nat, kind: byte, data: seq<byte>, rest: seq<byte>)
    requires IsAead(c) && |iv| == 12 && kind != 0 && |data| + 17 <= RECORD_MAX + 256
    ensures var w := Record(c, key, iv, s, kind, data);
            |w| == |data| + 22 && Open(c, key, iv, s, w + rest) == (Got(kind, data), |w|, true)
  {
    hide Nonce, Open, Header;
    var p, h := data + [kind], Header(|data| + 17);
    var sealed := c.seal(key, Nonce(iv, s), h, p);
    assert |sealed| == |p| + 16 && c.open(key, Nonce(iv, s), h, sealed) == Some(p);
    hide IsAead;
    OpenFramed(c, key, iv, s, sealed, rest, p);
    assert p[..|p| - 1] == data;
  }

  /** Opening a framed body that decrypts to an unpadded plaintext. */
  lemma OpenFramed(c: Aead, key: Key, iv: seq<byte>, s: nat, body: seq<byte>, rest: seq<byte>, p: seq<byte>)
    requires |iv| == 12 && 17 <= |body| <= RECORD_MAX + 256 && p != [] && p[|p| - 1] != 0
    requires c.open(key, Nonce(iv, s), Header(|body|), body) == Some(p)
    ensures Open(c, key, iv, s, Header(|body|) + body + rest) == (Got(p[|p| - 1], p[..|p| - 1]), |body| + 5, true)
  {
    hide Nonce, Header, Strip;
    var h, n := Header(|body|), |body|;
    var w := h + body + rest;
    HeaderFields(n);
    StripKeeps(p);
    assert w[..5] == h && w[5..5 + n] == body;
    assert w[3] == h[3] && w[4] == h[4] && w[0] == h[0];
  }

  lemma HeaderFields(n: nat)
    requires n < 0x1_0000
    ensures var h := Header(n); h[0] == APPLICATION_DATA && h[3] as int * 256 + h[4] == n
  {
  }

  lemma StripKeeps(p: seq<byte>)
    requires p != [] && p[|p| - 1] != 0
    ensures Strip(p) == p
  {
  }

  /** What a receiver makes of anything else: by its length, by its type, by what decryption says. */
  lemma OpenOther(c: Aead, key: Key, iv: seq<byte>, s: nat, w: seq<byte>, n: nat)
    requires |iv| == 12 && |w| >= 5 && n == 256 * w[3] as int + w[4]
    ensures var o := Open(c, key, iv, s, w);
      && (n > 16640 ==> o == (Broken, 5, false))
      && (n <= 16640 && |w| < 5 + n ==> o == (Broken, |w|, false))
      && (n <= 16640 && |w| >= 5 + n ==>
        var body := w[5..5 + n];
        && o.1 == 5 + n
        && (w[0] != 23 ==> o.0 == Got(w[0], body) && !o.2)
        && (w[0] == 23 && n < 17 ==> o.0 == Broken && !o.2)
        && (w[0] == 23 && n >= 17 ==> o.2)
        && (w[0] == 23 && n >= 17 && c.open(key, Nonce(iv, s), w[..5], body).None? ==> o.0 == Broken))
  {
    hide Nonce, Strip;
  }

  /** Of what decryption gives, the zeros at the end are padding and the last byte before them is the type. */
  lemma OpenPadded(c: Aead, key: Key, iv: seq<byte>, s: nat, w: seq<byte>, n: nat, kind: byte, data: seq<byte>, z: nat)
    requires |iv| == 12 && |w| >= 5 && n == 256 * w[3] as int + w[4] && 17 <= n <= 16640 && |w| >= 5 + n && w[0] == 23
    requires c.open(key, Nonce(iv, s), w[..5], w[5..5 + n]) == Some(data + [kind] + seq(z, _ => 0 as byte))
    ensures kind != 0 ==> Open(c, key, iv, s, w).0 == Got(kind, data)
  {
    hide Nonce, Strip;
    if kind != 0 {
      StripZeros(data + [kind], z);
    }
  }

  lemma {:induction false} StripZeros(p: seq<byte>, z: nat)
    requires p != [] && p[|p| - 1] != 0
    ensures Strip(p + seq(z, _ => 0 as byte)) == p
  {
    var q := p + seq(z, _ => 0 as byte);
    if z == 0 {
      assert q == p;
    } else {
      StripZeros(p, z - 1);
      assert q[..|q| - 1] == p + seq(z - 1, _ => 0 as byte);
    }
  }

  /** An in-order byte transport. */
  class Wire {
    var bytes: seq<byte>

    constructor ()
      ensures bytes == []
    {
      bytes := [];
    }
  }

  /** One endpoint: traffic keys, sequence numbers and the buffer of plaintext not yet handed out. */
  class Endpoint {
    const aead: Aead
    var sendKey: Key
    var recvKey: Key
    var sendIv: seq<byte>
    var recvIv: seq<byte>
    var sendSeq: nat
    var recvSeq: nat
    const recvBuf: array<byte>
    var recvLen: nat
    var recvPos: nat
    /** Every nonce given to the cipher under the sending key. */
    ghost var nonces: seq<seq<byte>>

    ghost predicate Valid()
      reads this
    {
      && |sendIv| == |recvIv| == 12 && sendSeq < U64 && recvSeq < U64
      && recvBuf.Length == RECORD_MAX + 256 && recvPos <= recvLen <= recvBuf.Length
    }

    /** Decrypted bytes not yet returned to the caller. */
    ghost function Pending(): seq<byte>
      requires Valid()
      reads this, recvBuf
    {
      recvBuf[recvPos..recvLen]
    }

    /** The application keys are installed with both sequence numbers at zero. */
    constructor (aead: Aead, sendKey: Key, sendIv: seq<byte>, recvKey: Key, recvIv: seq<byte>)
      requires |sendIv| == |recvIv| == 12
      ensures Valid() && Pending() == [] && sendSeq == recvSeq == 0 && nonces == [] && fresh(recvBuf)
      ensures this.aead == aead && this.sendKey == sendKey && this.sendIv == sendIv
      ensures this.recvKey == recvKey && this.recvIv == recvIv
    {
      this.aead, this.sendKey, this.sendIv, this.recvKey, this.recvIv := aead, sendKey, sendIv, recvKey, recvIv;
      sendSeq, recvSeq, recvLen, recvPos, nonces := 0, 0, 0, 0, [];
      recvBuf := new byte[RECORD_MAX + 256];
    }

    /** tls_send_record on an encrypted connection. */
    method SendRecord(wire: Wire, kind: byte, data: seq<byte>)
      requires Valid()
      modifies this`sendSeq, this`nonces, wire
      ensures wire.bytes == old(wire.bytes) + Record(aead, sendKey, sendIv, old(sendSeq), kind, data)
      ensures sendSeq == (old(sendSeq) + 1) % U64 && nonces == old(nonces) + [Nonce(sendIv, old(sendSeq))]
      ensures var header: seq<byte> := [23, 3, 3, (|data| + 17) % 0x1_0000 / 256, (|data| + 17) % 256];
        wire.bytes == old(wire.bytes) + header
                      + aead.seal(sendKey, Nonce(sendIv, old(sendSeq)), header, data + [kind])
    {
      hide Nonce;
      var plain := data + [kind];
      var aad := Header(|plain| + 16);
      var nonce := BuildNonce(sendIv, sendSeq);
      sendSeq := (sendSeq + 1) % U64;
      nonces := nonces + [nonce];
      var sealed := aead.seal(sendKey, nonce, aad, plain);
      wire.bytes := wire.bytes + aad;
      wire.bytes := wire.bytes + sealed;
    }

    /** cookbook_tls_send. */
    method Send(wire: Wire, data: seq<byte>) returns (rc: int)
      requires Valid()
      modifies this`sendSeq, this`nonces, wire
      ensures data == [] ==>
        rc == -1 && wire.bytes == old(wire.bytes) && sendSeq == old(sendSeq) && nonces == old(nonces)
      ensures data != [] ==> rc == 0 && sendSeq == (old(sendSeq) + 1) % U64
      ensures data != [] ==> nonces == old(nonces) + [Nonce(sendIv, old(sendSeq))]
      ensures data != [] ==>
                wire.bytes == old(wire.bytes) + Record(aead, sendKey, sendIv, old(sendSeq), APPLICATION_DATA, data)
    {
      if |data| == 0 {
        return -1;
      }
      SendRecord(wire, APPLICATION_DATA, data);
      rc := 0;
    }

    /** cookbook_sock_recv: exactly n bytes, or failure once the transport has no more. */
    method Take(wire: Wire, n: nat) returns (ok: bool, b: seq<byte>)
      modifies wire
      ensures ok <==> n <= |old(wire.bytes)|
      ensures if ok then b == old(wire.bytes)[..n] && wire.bytes == old(wire.bytes)[n..] else wire.bytes == []
    {
      if n <= |wire.bytes| {
        ok, b := true, wire.bytes[..n];
        wire.bytes := wire.bytes[n..];
      } else {
        ok, b := false, [];
        wire.bytes := [];
      }
    }

    /** tls_recv_record on an encrypted connection. */
    method RecvRecord(wire: Wire) returns (r: Opened)
      requires Valid()
      modifies this`recvSeq, wire
      ensures var o := Open(aead, recvKey, recvIv, old(recvSeq), old(wire.bytes));
              r == o.0 && wire.bytes == old(wire.bytes)[o.1..]
              && recvSeq == if o.2 then (old(recvSeq) + 1) % U64 else old(recvSeq)
    {
      hide Strip, Nonce;
      ghost var w := wire.bytes;
      var ok, header := Take(wire, 5);
      if !ok { return Broken; }
      var n: int := header[3] as int * 256 + header[4];
      if n > RECORD_MAX + 256 { return Broken; }
      var rec;
      ok, rec := Take(wire, n);
      if !ok { return Broken; }
      assert rec == w[5..5 + n] && wire.bytes == w[5 + n..];
      if header[0] != APPLICATION_DATA { return Got(header[0], rec); }
      if n < 17 { return Broken; }
      var nonce := BuildNonce(recvIv, recvSeq);
      recvSeq := (recvSeq + 1) % U64;
      var plain := aead.open(recvKey, nonce, header, rec);
      if plain.None? { return Broken; }
      r := StripRecord(plain.value);
    }

    /** The inner content type is the last nonzero byte. */
    method StripRecord(plain: seq<byte>) returns (r: Opened)
      ensures var q := Strip(plain); r == if q == [] then Broken else Got(q[|q| - 1], q[..|q| - 1])
    {
      var len: nat := |plain|;
      assert plain[..len] == plain;
      while len > 0 && plain[len - 1] == 0
        invariant len <= |plain| && Strip(plain[..len]) == Strip(plain)
      {
        assert plain[..len][..len - 1] == plain[..len - 1];
        len := len - 1;
      }
      if len == 0 { return Broken; }
      assert plain[..len][..len - 1] == plain[..len - 1];
      r := Got(plain[len - 1], plain[..len - 1]);
    }

    method Fill(data: seq<byte>, n: nat)
      requires n <= recvBuf.Length && n <= |data|
      modifies recvBuf
      ensures recvBuf[..n] == data[..n]
    {
      for i := 0 to n
        invariant recvBuf[..i] == data[..i]
      {
        recvBuf[i] := data[i];
      }
    }

    /** cookbook_tls_recv: returns buffered plaintext first, and reads one record when there is none. */
    method Recv(wire: Wire, len: nat) returns (rc: int, out: seq<byte>)
      requires Valid()
      modifies this`recvSeq, this`recvLen, this`recvPos, recvBuf, wire
      ensures Valid()
      ensures Received(Open(aead, recvKey, recvIv, old(recvSeq), old(wire.bytes)), len,
                       old(recvSeq), recvSeq, old(wire.bytes), wire.bytes, old(Pending()), Pending(), rc, out)
      ensures len == 0 ==> rc == -1 && out == []
      ensures len > 0 && old(Pending()) != [] ==> rc == |out| == Least(|old(Pending())|, len)
      ensures len > 0 && old(Pending()) == [] ==>
        var o := Open(aead, recvKey, recvIv, old(recvSeq), old(wire.bytes)).0;
        && (o.Broken? ==> rc == -1)
        && (o.Got? && o.kind == 21 ==> rc == 0 && out == [])
        && (o.Got? && o.kind != 21 && (o.kind != 23 || o.data == []) ==> rc == -1 && out == [])
        && (o.Got? && o.kind == 23 && 0 < |o.data| <= 16640 ==>
              rc == |out| == Least(|o.data|, len) && out + Pending() == o.data)
    {
      if len == 0 {
        return -1, [];
      }
      if recvPos < recvLen {
        var avail := recvLen - recvPos;
        var n := Least(avail, len);
        out := recvBuf[recvPos..recvPos + n];
        recvPos := recvPos + n;
        return n, out;
      }
      var r := RecvRecord(wire);
      hide Open;
      if r.Broken? {
        return -1, [];
      }
      if r.kind == ALERT {
        return 0, [];
      }
      if r.kind != APPLICATION_DATA || r.data == [] {
        return -1, [];
      }
      rc, out := Deliver(r.data, len);
    }

    /** The end of cookbook_tls_recv: a fresh record goes to the buffer, and as much as asked for to the caller. */
    method Deliver(data: seq<byte>, len: nat) returns (rc: int, out: seq<byte>)
      requires Valid() && data != [] && len > 0
      modifies this`recvLen, this`recvPos, recvBuf
      ensures Valid()
      ensures out + Pending() == data[..Least(|data|, RECORD_MAX + 256)]
      ensures rc == |out| == Least(Least(|data|, RECORD_MAX + 256), len)
    {
      var copy := Least(|data|, recvBuf.Length);
      Fill(data, copy);
      recvLen, recvPos := copy, 0;
      var n := Least(copy, len);
      out := recvBuf[..n];
      recvPos := n;
      rc := n;
      assert out + recvBuf[n..copy] == recvBuf[..copy];
    }
  }

  function Least(a: nat, b: nat): nat {
    if a < b then a else b
  }

  /** One receive of up to len bytes, between the state before and after; o is the record next on the wire. */
  ghost predicate Received(o: (Opened, nat, bool), len: nat, s: nat, s': nat, w: seq<byte>, w': seq<byte>,
                           pending: seq<byte>, pending': seq<byte>, rc: int, out: seq<byte>)
  {
    if len == 0 then
      rc == -1 && out == [] && pending' == pending && w' == w && s' == s
    else if pending != [] then
      rc == |out| == Least(|pending|, len) && out + pending' == pending && w' == w && s' == s
    else
      && o.1 <= |w| && w' == w[o.1..] && s' == (if o.2 then (s + 1) % U64 else s)
      && if o.0.Got? && o.0.kind == APPLICATION_DATA && o.0.data != [] then
           && out + pending' == o.0.data[..Least(|o.0.data|, RECORD_MAX + 256)]
           && rc == |out| == Least(Least(|o.0.data|, RECORD_MAX + 256), len)
         else
           out == [] && pending' == [] && rc == if o.0.Got? && o.0.kind == ALERT then 0 else -1
  }

  // ---- a session ----

  /** The records of parts, the first sent under sequence number s. */
  ghost function Records(c: Aead, key: Key, iv: seq<byte>, s: nat, parts: seq<seq<byte>>): seq<byte>
    requires |iv| == 12
    decreases parts
  {
    if parts == [] then []
    else Record(c, key, iv, s, APPLICATION_DATA, parts[0]) + Records(c, key, iv, s + 1, parts[1..])
  }

  lemma {:induction false} RecordsAppend(c: Aead, key: Key, iv: seq<byte>, s: nat, parts: seq<seq<byte>>, p: seq<byte>)
    requires |iv| == 12
    ensures Records(c, key, iv, s, parts + [p])
         == Records(c, key, iv, s, parts) + Record(c, key, iv, s + |parts|, APPLICATION_DATA, p)
    decreases parts
  {
    hide Record;
    if parts == [] {
      assert parts + [p] == [p] && [p][1..] == [];
      assert Records(c, key, iv, s + 1, [p][1..]) == [];
    } else {
      RecordsAppend(c, key, iv, s + 1, parts[1..], p);
      assert (parts + [p])[1..] == parts[1..] + [p] && (parts + [p])[0] == parts[0];
    }
  }

  /** What one record can carry: with type and tag it stays within what a receiver accepts. */
  ghost predicate Payload(p: seq<byte>) {
    1 <= |p| && |p| + 17 <= RECORD_MAX + 256
  }

  /**
   * The bound is exact: a record comes back exactly when it has a type and is within what a receiver accepts.
   * The receiver leaves a longer one before its end, refused by its length or, where the 16 bits of the header
   * have wrapped, cut at that length, and goes on in the middle of it.
   */
  lemma ComesBackIff(c: Aead, key: Key, iv: seq<byte>, s: nat, kind: byte, data: seq<byte>, rest: seq<byte>)
    requires IsAead(c) && |iv| == 12
    ensures var w := Record(c, key, iv, s, kind, data); var o := Open(c, key, iv, s, w + rest);
      && (o == (Got(kind, data), |w|, true) <==> kind != 0 && |data| + 17 <= RECORD_MAX + 256)
      && (|data| + 17 > RECORD_MAX + 256 ==> o.1 < |w|)
  {
    if |data| + 17 > RECORD_MAX + 256 {
      LeftEarly(c, key, iv, s, kind, data, rest);
    } else if kind != 0 {
      OpenRecord(c, key, iv, s, kind, data, rest);
    } else {
      NoTypeZero(c, key, iv, s, Record(c, key, iv, s, kind, data) + rest);
    }
  }

  lemma LeftEarly(c: Aead, key: Key, iv: seq<byte>, s: nat, kind: byte, data: seq<byte>, rest: seq<byte>)
    requires IsAead(c) && |iv| == 12 && |data| + 17 > RECORD_MAX + 256
    ensures var w := Record(c, key, iv, s, kind, data); Open(c, key, iv, s, w + rest).1 < |w|
  {
    hide Nonce, Strip, Open, Header;
    var m := |data| + 17;
    var h, body := Header(m), c.seal(key, Nonce(iv, s), Header(m), data + [kind]);
    assert |body| == m;
    hide IsAead;
    WrappedLength(m);
    assert (h + body + rest)[3] == h[3] && (h + body + rest)[4] == h[4];
    TakenByLength(c, key, iv, s, h + body + rest, m % 0x1_0000);
  }

  lemma WrappedLength(m: nat)
    ensures var h := Header(m); h[3] as int * 256 + h[4] == m % 0x1_0000
  {
  }

  /** Whatever the contents, no more is taken than the header and the length in it. */
  lemma TakenByLength(c: Aead, key: Key, iv: seq<byte>, s: nat, w: seq<byte>, n: nat)
    requires |iv| == 12 && |w| >= 5 && n == w[3] as int * 256 + w[4] && 5 + n <= |w|
    ensures Open(c, key, iv, s, w).1 == if n > RECORD_MAX + 256 then 5 else 5 + n
  {
    hide Nonce, Strip;
  }

  /** A decrypted record never has type 0, which is padding. */
  lemma NoTypeZero(c: Aead, key: Key, iv: seq<byte>, s: nat, w: seq<byte>)
    requires |iv| == 12
    ensures var o := Open(c, key, iv, s, w); o.0.Got? && o.2 ==> o.0.kind != 0
  {
    hide Nonce;
    StripEnds();
  }

  lemma StripEnds()
    ensures forall p :: Strip(p) != [] ==> Strip(p)[|Strip(p)| - 1] != 0
  {
    forall p | Strip(p) != []
      ensures Strip(p)[|Strip(p)| - 1] != 0
    {
      StripEnd(p);
    }
  }

  lemma {:induction false} StripEnd(p: seq<byte>)
    ensures Strip(p) != [] ==> Strip(p)[|Strip(p)| - 1] != 0
  {
    if p != [] && p[|p| - 1] == 0 {
      StripEnd(p[..|p| - 1]);
    }
  }

  /** The nonces of a run of records under one IV, in order. */
  ghost predicate NoncesOf(nonces: seq<seq<byte>>, iv: seq<byte>)
    requires |iv| == 12
  {
    forall k :: 0 <= k < |nonces| ==> nonces[k] == Nonce(iv, k)
  }

  /** No two of them are equal before 2^64 records. */
  lemma NoncesDistinct(nonces: seq<seq<byte>>, iv: seq<byte>)
    requires |iv| == 12 && NoncesOf(nonces, iv) && |nonces| <= U64
    ensures forall j, k :: 0 <= j < k < |nonces| ==> nonces[j] != nonces[k]
  {
    hide Nonce;
    forall j, k | 0 <= j < k < |nonces|
      ensures nonces[j] != nonces[k]
    {
      if nonces[j] == nonces[k] {
        NonceInjective(iv, j, k);
      }
    }
  }

  /** A sending and a receiving endpoint joined by a wire, with the history of what went in and came out. */
  class Session {
    const sender: Endpoint
    const receiver: Endpoint
    const wire: Wire
    /** The payloads sent, how many of them have been read off the wire, and the bytes returned so far. */
    ghost var sent: seq<seq<byte>>
    ghost var taken: nat
    ghost var returned: seq<byte>

    ghost predicate Valid()
      reads this, sender, receiver, receiver.recvBuf, wire
    {
      && sender != receiver && sender.Valid() && receiver.Valid() && sender.recvBuf != receiver.recvBuf
      && sender.aead == receiver.aead && IsAead(sender.aead)
      && sender.sendKey == receiver.recvKey && sender.sendIv == receiver.recvIv
      && taken <= |sent| < U64 && (forall k :: 0 <= k < |sent| ==> Payload(sent[k]))
      && sender.sendSeq == |sent| == |sender.nonces| && receiver.recvSeq == taken
      && NoncesOf(sender.nonces, sender.sendIv)
      && wire.bytes == Records(sender.aead, sender.sendKey, sender.sendIv, taken, sent[taken..])
      && returned + receiver.Pending() == Concat(sent[..taken])
    }

    constructor (aead: Aead, key: Key, iv: seq<byte>, key': Key, iv': seq<byte>)
      requires IsAead(aead) && |iv| == |iv'| == 12
      ensures Valid() && sent == [] && returned == []
      ensures fresh(sender) && fresh(receiver) && fresh(wire) && fresh(sender.recvBuf) && fresh(receiver.recvBuf)
    {
      var s := new Endpoint(aead, key, iv, key', iv');
      var r := new Endpoint(aead, key', iv', key, iv);
      var w := new Wire();
      sender, receiver, wire := s, r, w;
      sent, taken, returned := [], 0, [];
    }

    method Send(data: seq<byte>)
      requires Valid() && Payload(data) && |sent| + 1 < U64
      modifies this, sender, wire
      ensures Valid() && sent == old(sent) + [data] && returned == old(returned) && taken == old(taken)
    {
      hide Record, Records, IsAead, Concat, Nonce;
      RecordsAppend(sender.aead, sender.sendKey, sender.sendIv, taken, sent[taken..], data);
      var rc := sender.Send(wire, data);
      assert (sent + [data])[taken..] == sent[taken..] + [data] && (sent + [data])[..taken] == sent[..taken];
      sent := sent + [data];
    }

    /** Over the whole session no nonce has been used twice. */
    lemma NoNonceTwice()
      requires Valid()
      ensures |sender.nonces| == |sent|
      ensures forall j, k :: 0 <= j < k < |sender.nonces| ==> sender.nonces[j] != sender.nonces[k]
    {
      hide Record, Records, IsAead, Concat, Nonce;
      NoncesDistinct(sender.nonces, sender.sendIv);
    }

    /** Every byte returned is the next byte sent, and a receive makes progress while any sent byte is outstanding. */
    method Recv(len: nat) returns (rc: int, out: seq<byte>)
      requires Valid()
      modifies this, receiver, receiver.recvBuf, wire
      ensures Valid() && sent == old(sent) && returned == old(returned) + out
      ensures returned <= Concat(sent)
      ensures len > 0 && old(returned) != Concat(sent) ==> rc == |out| > 0 && |out| <= len
    {
      hide Record, Records, IsAead, Concat, Open, Payload, Received;
      ghost var before, w := receiver.Pending(), wire.bytes;
      rc, out := receiver.Recv(wire, len);
      taken := ReceiveStep(sender.aead, sender.sendKey, sender.sendIv, sent, taken, returned, len, receiver.recvSeq,
                           w, wire.bytes, before, receiver.Pending(), rc, out);
      returned := returned + out;
    }
  }

  /** One receive against an in-order wire: the accounting moves on by at most one record. */
  lemma ReceiveStep(c: Aead, key: Key, iv: seq<byte>, sent: seq<seq<byte>>, k: nat, returned: seq<byte>, len: nat,
                    s': nat, w: seq<byte>, w': seq<byte>, pending: seq<byte>, pending': seq<byte>,
                    rc: int, out: seq<byte>)
    returns (k': nat)
    requires IsAead(c) && |iv| == 12 && k <= |sent| < U64 && forall j :: 0 <= j < |sent| ==> Payload(sent[j])
    requires w == Records(c, key, iv, k, sent[k..]) && returned + pending == Concat(sent[..k])
    requires Received(Open(c, key, iv, k, w), len, k, s', w, w', pending, pending', rc, out)
    ensures k <= k' <= |sent| && s' == k' && w' == Records(c, key, iv, k', sent[k'..])
    ensures returned + out + pending' == Concat(sent[..k']) && returned + out <= Concat(sent)
    ensures len > 0 && returned != Concat(sent) ==> rc == |out| > 0 && |out| <= len
  {
    hide Record, Records, IsAead, Concat, Open, Payload;
    k' := k;
    PrefixOfFlat(sent, k);
    if k < |sent| {
      NextRecord(c, key, iv, k, sent);
      PayloadFits(sent[k]);
      if len > 0 && pending == [] {
        k' := k + 1;
        TakeOne(sent, k);
        PrefixOfFlat(sent, k + 1);
      }
    } else {
      NoRecord(c, key, iv, k, sent);
      assert sent[..k] == sent;
    }
    Account(returned, pending, out, pending', Concat(sent[..k]), Concat(sent[..k']), if k' > k then sent[k] else []);
  }

  lemma PayloadFits(p: seq<byte>)
    requires Payload(p)
    ensures 0 < |p| < RECORD_MAX + 256
  {
  }

  /** The bytes returned and still pending account for what has been taken off the wire. */
  lemma Account(returned: seq<byte>, before: seq<byte>, out: seq<byte>, after: seq<byte>,
                flat: seq<byte>, flat': seq<byte>, next: seq<byte>)
    requires returned + before == flat && flat' == flat + next && out + after == before + next
    ensures returned + out + after == flat' && returned + out <= flat'
  {
    assert returned + out + after == returned + (out + after) == returned + before + next;
    assert (returned + out + after)[..|returned + out|] == returned + out;
  }

  /** The first record on the wire opens to the next payload. */
  lemma NextRecord(c: Aead, key: Key, iv: seq<byte>, k: nat, sent: seq<seq<byte>>)
    requires IsAead(c) && |iv| == 12 && k < |sent| && Payload(sent[k])
    ensures var w := Records(c, key, iv, k, sent[k..]);
            var o := Open(c, key, iv, k, w);
            o.0 == Got(APPLICATION_DATA, sent[k]) && o.2 && w[o.1..] == Records(c, key, iv, k + 1, sent[k + 1..])
  {
    hide Open, Record, IsAead;
    var rest := Records(c, key, iv, k + 1, sent[k + 1..]);
    OpenRecord(c, key, iv, k, APPLICATION_DATA, sent[k], rest);
    assert sent[k..][1..] == sent[k + 1..] && sent[k..][0] == sent[k];
  }

  lemma NoRecord(c: Aead, key: Key, iv: seq<byte>, k: nat, sent: seq<seq<byte>>)
    requires |iv| == 12 && k == |sent|
    ensures Records(c, key, iv, k, sent[k..]) == [] && Open(c, key, iv, k, []) == (Broken, 0, false)
  {
  }

  lemma TakeOne(sent: seq<seq<byte>>, k: nat)
    requires k < |sent|
    ensures Concat(sent[..k + 1]) == Concat(sent[..k]) + sent[k]
  {
    assert sent[..k + 1][..k] == sent[..k];
  }

  lemma {:induction false} PrefixOfFlat(sent: seq<seq<byte>>, k: nat)
    requires k <= |sent|
    ensures Concat(sent[..k]) <= Concat(sent)
    ensures (forall j :: 0 <= j < |sent| ==> Payload(sent[j])) && k < |sent| ==> Concat(sent[..k]) != Concat(sent)
    decreases |sent| - k
  {
    if k == |sent| {
      assert sent[..k] == sent;
    } else {
      TakeOne(sent, k);
      PrefixOfFlat(sent, k + 1);
    }
  }
}
