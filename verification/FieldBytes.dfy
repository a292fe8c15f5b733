/** Field elements as 32-byte strings, and the tests that read the canonical bytes. */
module FieldBytes {
  import opened Words
  import opened Field

  lemma LimbFields(v: nat)
    ensures v == Bits(v, 0, 51) + R * (Bits(v, 51, 51) + R * (Bits(v, 102, 51) + R * (Bits(v, 153, 51)
                 + R * (Bits(v, 204, 51) + R * (v / Pow2(255))))))
  {
    Pow2Literals();
    assert Pow2(0) == 1;
    hide Pow2, Bits;
    BitsStep(v, 0, 51);
    BitsStep(v, 51, 51);
    BitsStep(v, 102, 51);
    BitsStep(v, 153, 51);
    BitsStep(v, 204, 51);
  }

  /** A masked 64-bit load at byte k, shifted right, is the limb that starts at bit 8k + shift. */
  lemma LoadLimb(s: seq<byte>, k: nat, shift: nat)
    requires |s| == 32 && k + 8 <= 32 && shift + 51 <= 64
    ensures LE(s[k..k + 8]) / Pow2(shift) % R == Bits(LE(s), 8 * k + shift, 51)
  {
    Pow2Literals();
    hide Pow2, Bits, LE;
    LESlice(s, k, 8);
    BitsOfBits(LE(s), 8 * k, 64, shift, 51);
  }

  lemma ShiftPowers()
    ensures Pow2(0) == 1 && Pow2(1) == 2 && Pow2(3) == 8 && Pow2(6) == 64 && Pow2(12) == 4096
  {
  }

  lemma FromBytesLimbs(s: seq<byte>)
    requires |s| == 32
    ensures LE(s[0..8]) % R == Bits(LE(s), 0, 51)
    ensures LE(s[6..14]) / 8 % R == Bits(LE(s), 51, 51)
    ensures LE(s[12..20]) / 64 % R == Bits(LE(s), 102, 51)
    ensures LE(s[19..27]) / 2 % R == Bits(LE(s), 153, 51)
    ensures LE(s[24..32]) / 4096 % R == Bits(LE(s), 204, 51)
  {
    hide Pow2, Bits, LE;
    ShiftPowers();
    LoadLimb(s, 0, 0);
    LoadLimb(s, 6, 3);
    LoadLimb(s, 12, 6);
    LoadLimb(s, 19, 1);
    LoadLimb(s, 24, 12);
  }

  /** Unpacking reads the low 255 bits. */
  method FeFromBytes(s: seq<byte>) returns (h: Fe)
    requires |s| == 32
    ensures Val(h) == LE(s) % (P + 19)
    ensures Below(h, R)
  {
    hide Pow2, Bits, LE;
    h := Fe(LE(s[0..8]) % R, LE(s[6..14]) / 8 % R, LE(s[12..20]) / 64 % R, LE(s[19..27]) / 2 % R,
            LE(s[24..32]) / 4096 % R);
    FromBytesLimbs(s);
    LimbFields(LE(s));
    DivUnique(LE(s), P + 19, LE(s) / Pow2(255), Val(h));
  }

  lemma CarryBit(g: int, t: int, c: int)
    requires 0 <= g < P + 19 && 0 <= t < P + 19 && t + (P + 19) * c == g + 19
    ensures c == if g >= P then 1 else 0
  {
  }

  lemma MaskedSum(g: int, t: int, c: int, h: int, top: int)
    requires 0 <= g < P + 19 && t + (P + 19) * c == g + 19
    requires c == if g >= P then 1 else 0
    requires 0 <= h < P + 19 && h + (P + 19) * top == t + (1 - c) * P
    ensures h == g % P
  {
    if g >= P {
      assert top == 0;
    } else {
      assert top == 1;
    }
  }

  /** The last two passes of fe_tobytes: subtract P exactly when the value has reached it. */
  method Canonical(g: Fe) returns (h: Fe)
    requires Below(g, TIGHT) && Val(g) < P + 19
    ensures Below(h, R) && Val(h) == Val(g) % P
  {
    var g19 := Fe(g.l0 + 19, g.l1, g.l2, g.l3, g.l4);
    var t, c := Ripple(g19);
    CarryBit(Val(g), Val(t), c);
    ghost var top;
    h, top := AddMasked(t, 1 - c);
    MaskedSum(Val(g), Val(t), c, Val(h), top);
  }

  /** Adds the limbs of P under the mask m and carries once more. */
  method AddMasked(t: Fe, m: u64) returns (h: Fe, ghost top: u64)
    requires Below(t, R) && m <= 1
    ensures Below(h, R) && Val(h) + (P + 19) * top == Val(t) + m * P
  {
    var u := Fe(t.l0 + m * (R - 19), t.l1 + m * (R - 1), t.l2 + m * (R - 1), t.l3 + m * (R - 1), t.l4 + m * (R - 1));
    assert Val(u) == Val(t) + m * P;
    var c;
    h, c := Ripple(u);
    top := c;
  }

  /** Packing 51-bit limbs into four 64-bit words; the or-ed halves have no bit in common, so they add. */
  method PackWords(t: Fe) returns (r0: u64, r1: u64, r2: u64, r3: u64)
    requires Below(t, R)
    ensures Val(t) == r0 + 0x1_0000_0000_0000_0000 * (r1 + 0x1_0000_0000_0000_0000
                      * (r2 + 0x1_0000_0000_0000_0000 * r3))
  {
    var s1 := t.l1 * R % 0x1_0000_0000_0000_0000;
    var s2 := t.l2 * 0x40_0000_0000 % 0x1_0000_0000_0000_0000;
    var s3 := t.l3 * 0x200_0000 % 0x1_0000_0000_0000_0000;
    ShiftTruncates(t.l1, R, 0x2000);
    ShiftTruncates(t.l2, 0x40_0000_0000, 0x400_0000);
    ShiftTruncates(t.l3, 0x200_0000, 0x80_0000_0000);
    r0 := t.l0 + s1;
    r1 := t.l1 / 0x2000 + s2;
    r2 := t.l2 / 0x400_0000 + s3;
    r3 := t.l3 / 0x80_0000_0000 + t.l4 * 0x1000;
  }

  lemma WordAppend(w: u64, t: seq<byte>)
    ensures LE(ToLE(w, 8) + t) == w + 0x1_0000_0000_0000_0000 * LE(t)
  {
    Pow2Literals();
    hide LE, ToLE, Pow2;
    LEOfToLE(w, 8);
    LEAppend(ToLE(w, 8), t);
  }

  method StoreWords(r0: u64, r1: u64, r2: u64, r3: u64) returns (s: seq<byte>)
    ensures |s| == 32
    ensures LE(s) == r0 + 0x1_0000_0000_0000_0000 * (r1 + 0x1_0000_0000_0000_0000
                     * (r2 + 0x1_0000_0000_0000_0000 * r3))
  {
    assert LE([]) == 0;
    hide LE, ToLE;
    s := ToLE(r0, 8) + (ToLE(r1, 8) + (ToLE(r2, 8) + (ToLE(r3, 8) + [])));
    WordAppend(r0, ToLE(r1, 8) + (ToLE(r2, 8) + (ToLE(r3, 8) + [])));
    WordAppend(r1, ToLE(r2, 8) + (ToLE(r3, 8) + []));
    WordAppend(r2, ToLE(r3, 8) + []);
    WordAppend(r3, []);
  }

  /** Packing writes the one representative in [0, P) of the limbs' residue class. */
  method FeToBytes(f: Fe) returns (s: seq<byte>)
    requires Carryable(f)
    ensures |s| == 32 && LE(s) == Mod(Val(f))
  {
    hide LE, Val;
    var g, c := CarryPass(f);
    var h, d := CarryPass(g);
    assert Val(f) == Val(h) + P * (c + d);
    ModShift(Val(h), c + d);
    ModIs(Val(h));
    var t := Canonical(h);
    var r0, r1, r2, r3 := PackWords(t);
    s := StoreWords(r0, r1, r2, r3);
  }

  /** Unpacking then packing is reduction mod P of the low 255 bits, and the identity on canonical strings. */
  method Repack(s: seq<byte>) returns (t: seq<byte>)
    requires |s| == 32
    ensures |t| == 32 && LE(t) == LE(s) % (P + 19) % P
    ensures LE(s) < P <==> t == s
  {
    hide LE;
    hide Val, Mod;
    var h := FeFromBytes(s);
    ModIs(Val(h));
    t := FeToBytes(h);
    ResidueIff(LE(s));
    if LE(s) == LE(t) {
      LEInjective(s, t);
    }
  }

  lemma ResidueIff(v: int)
    requires v >= 0
    ensures v % (P + 19) % P == v <==> v < P
  {
  }

  /** Parity of the canonical representative, read off the lowest byte. */
  method FeIsNegative(f: Fe) returns (odd: int)
    requires Carryable(f)
    ensures odd == Mod(Val(f)) % 2
  {
    hide Mod, Val, Below;
    var s := FeToBytes(f);
    odd := s[0] % 2;
    assert LE(s) == s[0] + 256 * LE(s[1..]);
  }

  /** All bytes are zero exactly when the number is. */
  lemma {:induction false} LEZero(s: seq<byte>)
    ensures LE(s) == 0 <==> forall i :: 0 <= i < |s| ==> s[i] == 0
  {
    if s != [] {
      LEZero(s[1..]);
      assert forall i :: 0 < i < |s| ==> s[i] == s[1..][i - 1];
    }
  }

  /** fe_iszero: or all bytes together, subtract one in 32 bits and look at bit 8. */
  method FeIsZero(f: Fe) returns (zero: int)
    requires Carryable(f)
    ensures zero == if Mod(Val(f)) == 0 then 1 else 0
  {
    hide Mod, Val, Below, LE;
    var s := FeToBytes(f);
    var d := OrAll(s);
    LEZero(s);
    zero := (d as int - 1) % 0x1_0000_0000 / 256 % 2;
  }

  method OrAll(s: seq<byte>) returns (r: byte)
    requires |s| == 32
    ensures r == 0 <==> forall j :: 0 <= j < 32 ==> s[j] == 0
  {
    hide OrByte;
    r := 0;
    for i := 0 to 32
      invariant r == 0 <==> forall j :: 0 <= j < i ==> s[j] == 0
    {
      r := OrByte(r, s[i]);
    }
  }

  lemma AndZero(y: nat)
    ensures And(0, y) == 0
  {
  }

  /** One limb of fe_cmov: the mask is -b in 64 bits, so the exclusive-ors either cancel or swap the limb in. */
  function CmovLimb(x: u64, y: u64, b: int): (r: nat)
    requires b == 0 || b == 1
    ensures r == if b == 1 then y else x
  {
    hide Xor, And, Pow2;
    Pow2Literals();
    XorBound(x, y, 64);
    AndOnes(64, Xor(x, y));
    XorCancels(x, y);
    XorZero(x);
    AndZero(Xor(x, y));
    var mask := -b % 0x1_0000_0000_0000_0000;
    Xor(x, And(mask, Xor(x, y)))
  }

  method FeCmov(f: Fe, g: Fe, b: int) returns (h: Fe)
    requires b == 0 || b == 1
    ensures h == if b == 1 then g else f
  {
    var l0 := CmovLimb(f.l0, g.l0, b);
    var l1 := CmovLimb(f.l1, g.l1, b);
    var l2 := CmovLimb(f.l2, g.l2, b);
    var l3 := CmovLimb(f.l3, g.l3, b);
    var l4 := CmovLimb(f.l4, g.l4, b);
    h := Fe(l0, l1, l2, l3, l4);
  }
}
