/**
  The 48-bit AKA sequence number SQN = SEQ | IND of the HLR/AuC gateway, kept
  as six big-endian bytes (Profile 2 of section C.3.2 of 3GPP TS 33.102).
 */
module Sqn {
  import opened Bits
  import opened ByteOrder

  type Sqn6 = s: seq<byte> | |s| == 6 witness [0, 0, 0, 0, 0, 0]

  const SQN_BITS: nat := 48

  /** 2^48, the number of SQN values. */
  const SQN_MOD: nat := 0x1_0000_0000_0000

  /** IND widths for which `1 << ind_len` is a value of a 32-bit int. */
  const MAX_IND_LEN: nat := 30

  lemma SqnBound(s: Sqn6)
    ensures BeValue(s) < SQN_MOD
  {
    BeValueBound(s);
    SqnMod();
  }

  // ---- the two halves, and their increment -----------------------------------

  function Seq(v: nat, indLen: nat): nat { Quotient(v, Pow2(indLen)) }

  function Ind(v: nat, indLen: nat): nat { Remainder(v, Pow2(indLen)) }

  /** How many SEQ values there are for a given IND width. */
  function SeqCount(indLen: nat): nat
    requires indLen <= SQN_BITS
  {
    Pow2(SQN_BITS - indLen)
  }

  /** The SQN whose halves are those of v advanced by n, each in its own ring. */
  function Advance(v: nat, indLen: nat, n: nat): nat
    requires indLen <= SQN_BITS
  {
    Pack((Seq(v, indLen) + n) % SeqCount(indLen), Pow2(indLen), (Ind(v, indLen) + n) % Pow2(indLen))
  }

  // ---- the word accessors ----------------------------------------------------

  function GetBe16(a0: byte, a1: byte): nat { Or(Shl(a0, 8), a1) }

  function GetBe32(a0: byte, a1: byte, a2: byte, a3: byte): nat
  {
    Or(Or(Or(Shl(a0, 24), Shl(a1, 16)), Shl(a2, 8)), a3)
  }

  /** The byte of v that starts at bit k. */
  function ByteAt(v: nat, k: nat): (b: byte)
    ensures b == (v / Pow2(k)) % 256
  {
    AndMask(Shr(v, k), 8);
    And(Shr(v, k), 0xff)
  }

  lemma Powers()
    ensures Pow2(0) == 1 && Pow2(8) == 0x100 && Pow2(16) == 0x10000 && Pow2(24) == 0x1000000
  {
  }

  lemma Get16(a0: nat, a1: nat)
    requires a0 < 256 && a1 < 256
    ensures GetBe16(a0, a1) == a0 * 256 + a1
  {
    Powers();
    OrAligned(Shl(a0, 8), a0, a1, 8, 0x100);
  }

  lemma Get32(a0: nat, a1: nat, a2: nat, a3: nat)
    requires a0 < 256 && a1 < 256 && a2 < 256 && a3 < 256
    ensures GetBe32(a0, a1, a2, a3) == a0 * 0x1000000 + a1 * 0x10000 + a2 * 0x100 + a3
  {
    Powers();
    var x0, x1, x2 := Shl(a0, 24), Shl(a1, 16), Shl(a2, 8);
    assert x0 == a0 * 0x1000000 && x1 == a1 * 0x10000 && x2 == a2 * 0x100;
    OrAligned(x0, a0, x1, 24, 0x1000000);
    OrAligned(x0 + x1, a0 * 0x100 + a1, x2, 16, 0x10000);
    OrAligned(x0 + x1 + x2, (a0 * 0x100 + a1) * 0x100 + a2, a3, 8, 0x100);
  }

  /** The 48-bit value read as a 32-bit word above a 16-bit one. */
  lemma ReadValue(s: Sqn6)
    ensures Or(Shl(GetBe32(s[0], s[1], s[2], s[3]), 16), GetBe16(s[4], s[5])) == BeValue(s)
    ensures BeValue(s) < SQN_MOD
  {
    Powers();
    Get32(s[0], s[1], s[2], s[3]);
    Get16(s[4], s[5]);
    var high, low := GetBe32(s[0], s[1], s[2], s[3]), GetBe16(s[4], s[5]);
    OrAligned(Shl(high, 16), high, low, 16, 0x10000);
    SqnBound(s);
    BeValueUnrolled(s, s[0], s[1], s[2], s[3], s[4], s[5]);
  }

  lemma BeValueUnrolled(s: Sqn6, a0: int, a1: int, a2: int, a3: int, a4: int, a5: int)
    requires s == [a0, a1, a2, a3, a4, a5]
    ensures BeValue(s) == (a0 * 0x1000000 + a1 * 0x10000 + a2 * 0x100 + a3) * 0x10000 + (a4 * 0x100 + a5)
  {
    assert s[..5][..4] == s[..4] && s[..4][..3] == s[..3] && s[..3][..2] == s[..2] && s[..2][..1] == s[..1];
    assert s[..1][..0] == [];
    assert BeValue(s[..1]) == a0;
    assert BeValue(s[..2]) == BeValue(s[..1]) * 256 + a1;
    assert BeValue(s[..3]) == BeValue(s[..2]) * 256 + a2;
    assert BeValue(s[..4]) == BeValue(s[..3]) * 256 + a3;
    assert BeValue(s[..5]) == BeValue(s[..4]) * 256 + a4;
  }

  /**
    Writing the high 32 and low 16 bits of a value stores its 48 low-order bits;
    a carry into bit 48 is dropped.
   */
  lemma WriteValue(v: nat)
    ensures var w := Shr(v, 16);
            [ByteAt(w, 24), ByteAt(w, 16), ByteAt(w, 8), ByteAt(w, 0),
             ByteAt(And(v, 0xffff), 8), ByteAt(And(v, 0xffff), 0)]
            == BeBytes(v, 6)
  {
    AndMask(v, 16);
    Powers();
    var w, low := Shr(v, 16), And(v, 0xffff);
    SixBytes(v, w);
    HighBytes(w);
    LowBytes(low);
  }

  lemma HighBytes(w: nat)
    ensures [ByteAt(w, 24), ByteAt(w, 16), ByteAt(w, 8), ByteAt(w, 0)] == BeBytes(w, 4)
  {
    Powers();
    FourBytes(w);
  }

  lemma LowBytes(low: nat)
    ensures ByteAt(low, 8) == low / 256 % 256 && ByteAt(low, 0) == low % 256
  {
    Powers();
  }

  lemma SixBytes(v: nat, w: nat)
    requires w == v / 65536
    ensures BeBytes(v, 6) == BeBytes(w, 4) + [(v % 65536) / 256 % 256, v % 65536 % 256]
    ensures BeBytes(w, 4) == [w / 0x1000000 % 256, w / 0x10000 % 256, w / 256 % 256, w % 256]
  {
    assert v / 256 / 256 == w;
    assert (v % 65536) / 256 % 256 == v / 256 % 256;
    assert BeBytes(v, 6) == BeBytes(v / 256, 5) + [v % 256];
    assert BeBytes(v / 256, 5) == BeBytes(w, 4) + [v / 256 % 256];
    FourBytes(w);
  }

  lemma FourBytes(w: nat)
    ensures BeBytes(w, 4) == [w / 0x1000000 % 256, w / 0x10000 % 256, w / 256 % 256, w % 256]
  {
    var w1 := w / 256;
    var w2 := w1 / 256;
    var w3 := w2 / 256;
    assert w2 == w / 0x10000 && w3 == w / 0x1000000;
    assert BeBytes(w3, 1) == [w3 % 256];
    assert BeBytes(w2, 2) == BeBytes(w3, 1) + [w2 % 256];
    assert BeBytes(w1, 3) == BeBytes(w2, 2) + [w1 % 256];
  }

  /** Masking v + 1 gives the next IND. */
  lemma IncrementInd(v: nat, k: nat, p: nat)
    requires p == Pow2(k)
    ensures And(v + 1, Shl(1, k) - 1) == (v % p + 1) % p
  {
    AndMask(v + 1, k);
    AddThenMod(v, 1, p);
  }

  lemma PackBits(high: nat, low: nat, k: nat, p: nat)
    requires p == Pow2(k) && low < p
    ensures Or(Shl(high, k), low) == Pack(high, p, low)
  {
    OrAligned(Shl(high, k), high, low, k, p);
  }

  /** The next SEQ above the next IND, cut to 48 bits, is the SQN advanced by one. */
  lemma IncrementIsAdvance(v: nat, k: nat, sq: nat, ind: nat)
    requires k <= MAX_IND_LEN
    requires sq == v / Pow2(k) + 1 && ind == (v % Pow2(k) + 1) % Pow2(k)
    ensures Or(Shl(sq, k), ind) % SQN_MOD == Advance(v, k, 1)
  {
    PackBits(sq, ind, k, Pow2(k));
    SeqTimesInd(k);
    PackMod(sq, ind, Pow2(k), SeqCount(k));
  }

  lemma SeqTimesInd(k: nat)
    requires k <= MAX_IND_LEN
    ensures SeqCount(k) * Pow2(k) == SQN_MOD
  {
    Pow2Add(SQN_BITS - k, k);
    SqnMod();
  }

  lemma SqnMod()
    ensures Pow2(8 * 6) == SQN_MOD
  {
    Powers();
    Pow2Add(24, 24);
  }

  lemma {:induction false} BeBytesMod(v: nat, len: nat)
    ensures BeBytes(v % Pow2(8 * len), len) == BeBytes(v, len)
  {
    if len > 0 {
      var m := Pow2(8 * (len - 1));
      Pow2Add(8 * (len - 1), 8);
      Powers();
      Repacked(v, 256);
      PackMod(v / 256, v % 256, 256, m);
      Unpack((v / 256) % m, 256, v % 256);
      BeBytesMod(v / 256, len - 1);
    }
  }

  /** inc_sqn: both halves of the stored SQN move on by one, in place. */
  method IncSqn(sqn: array<byte>, indLen: nat)
    requires sqn.Length == 6 && indLen <= MAX_IND_LEN
    modifies sqn
    ensures BeValue(sqn[..]) == Advance(BeValue(old(sqn[..])), indLen, 1)
    ensures sqn[..] == NextSqn(old(sqn[..]), indLen)
  {
    ghost var was: Sqn6 := sqn[..];
    var val := Or(Shl(GetBe32(sqn[0], sqn[1], sqn[2], sqn[3]), 16), GetBe16(sqn[4], sqn[5]));
    var sq := Shr(val, indLen) + 1;
    var ind := And(val + 1, Shl(1, indLen) - 1);
    IncrementStored(was, indLen, val, sq, ind);
    val := Or(Shl(sq, indLen), ind);
    WriteValue(val);
    var high := Shr(val, 16);
    sqn[0] := ByteAt(high, 24);
    sqn[1] := ByteAt(high, 16);
    sqn[2] := ByteAt(high, 8);
    sqn[3] := ByteAt(high, 0);
    var low := And(val, 0xffff);
    sqn[4] := ByteAt(low, 8);
    sqn[5] := ByteAt(low, 0);
    assert sqn[..] == BeBytes(val, 6);
    NextSqnValue(was, indLen);
  }

  /** The computed word, cut to six bytes, is the next stored SQN. */
  lemma IncrementStored(was: Sqn6, k: nat, val: nat, sq: nat, ind: nat)
    requires k <= MAX_IND_LEN
    requires val == Or(Shl(GetBe32(was[0], was[1], was[2], was[3]), 16), GetBe16(was[4], was[5]))
    requires sq == Shr(val, k) + 1 && ind == And(val + 1, Shl(1, k) - 1)
    ensures BeBytes(Or(Shl(sq, k), ind), 6) == NextSqn(was, k)
  {
    ReadValue(was);
    IncrementInd(val, k, Pow2(k));
    IncrementIsAdvance(val, k, sq, ind);
    SqnMod();
    BeBytesMod(Or(Shl(sq, k), ind), 6);
  }

  lemma NextSqnValue(s: Sqn6, k: nat)
    requires k <= MAX_IND_LEN
    ensures BeValue(NextSqn(s, k)) == Advance(BeValue(s), k, 1)
  {
    AdvanceBound(BeValue(s), k, 1);
    SqnMod();
    BeValueOfBytes(Advance(BeValue(s), k, 1), 6);
  }

  /** The stored SQN after one increment. */
  function NextSqn(s: Sqn6, indLen: nat): Sqn6
    requires indLen <= MAX_IND_LEN
  {
    BeBytes(Advance(BeValue(s), indLen, 1), 6)
  }

  lemma AdvanceBound(v: nat, indLen: nat, n: nat)
    requires indLen <= MAX_IND_LEN
    ensures Advance(v, indLen, n) < SQN_MOD
  {
    SeqTimesInd(indLen);
    PackBound((Seq(v, indLen) + n) % SeqCount(indLen), Pow2(indLen),
              (Ind(v, indLen) + n) % Pow2(indLen), SeqCount(indLen));
  }
}
