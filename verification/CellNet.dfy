/**
  The 3GPP cellular network information of a BSS: a text list of MCC,MNC pairs
  encoded as BCD triples behind a five-byte header.
 */
module CellNet {
  import opened Bits
  import opened CStrings

  /** One network as the code cuts it out of the text. */
  datatype Plmn = Plmn(mcc: string, mnc: string)

  const MAX_PLMNS: nat := 42

  // ---- the text ----------------------------------------------------------------------

  predicate Allowed(c: char) { IsDigit(c) || c == ';' || c == ',' }

  predicate AllAllowed(s: string) { forall i :: 0 <= i < |s| ==> Allowed(s[i]) }

  /** How many ';' there are from a position on. */
  function Semis(s: string, pos: nat): nat
    requires pos <= |s|
    decreases |s| - pos
  {
    if pos == |s| then 0 else (if s[pos] == ';' then 1 else 0) + Semis(s, pos + 1)
  }

  predicate GoodLengths(p: Plmn) { |p.mcc| == 3 && 2 <= |p.mnc| <= 3 }

  /** The networks the loop takes from a position on; None where it fails. */
  function PlmnsFrom(s: string, pos: nat): Option<seq<Plmn>>
    requires pos <= |s|
    decreases |s| - pos
  {
    if pos == |s| then Some([])
    else
      var c := IndexFrom(s, ',', pos);
      if c == |s| then None
      else
        var e := IndexFrom(s, ';', c + 1);
        var p := Plmn(s[pos..c], s[c + 1..e]);
        if !GoodLengths(p) then None
        else if e == |s| then Some([p])
        else Prepend([p], PlmnsFrom(s, e + 1))
  }

  // ---- bytes ----------------------------------------------------------------------------

  /** The value of a digit character; other characters give other values. */
  function DigitOf(c: char): int { c as int - '0' as int }

  function OrByte(x: byte, y: byte): (b: byte)
  {
    assert Pow2(8) == 256;
    OrBound(x, y, 8);
    Or(x, y)
  }

  /** The byte stored for (hi << 4) | lo. */
  function Nibbles(hi: int, lo: int): (b: byte) { OrByte((16 * hi) % 256, lo % 256) }

  lemma NibblesOfDigits(hi: int, lo: int)
    requires 0 <= hi < 16 && 0 <= lo < 16
    ensures Nibbles(hi, lo) == 16 * hi + lo
  {
    var x: nat := 16 * hi;
    SmallMod(x, 256);
    SmallMod(lo, 256);
    assert Pow2(4) == 16;
    OrAligned(x, hi, lo, 4, 16);
  }

  type Block = s: seq<byte> | |s| == 3 witness [0, 0, 0]

  /** The three bytes of a network. */
  function Bcd(p: Plmn): (r: Block)
  {
    if !GoodLengths(p) then [0, 0, 0]
    else
      [Nibbles(DigitOf(p.mcc[1]), DigitOf(p.mcc[0])),
       Nibbles(if |p.mnc| == 2 then 15 else DigitOf(p.mnc[2]), DigitOf(p.mcc[2])),
       Nibbles(DigitOf(p.mnc[1]), DigitOf(p.mnc[0]))]
  }

  /** How a network is encoded, and how three bytes are decoded. */
  type Encoder = Plmn -> Block
  type Decoder = (byte, byte, byte) -> Option<Plmn>

  function Encoded(enc: Encoder, ps: seq<Plmn>): (r: seq<byte>)
    ensures |r| == 3 * |ps|
  {
    if ps == [] then [] else Encoded(enc, ps[..|ps| - 1]) + enc(ps[|ps| - 1])
  }

  function Header(count: nat): (r: seq<byte>)
    requires count <= MAX_PLMNS
    ensures |r| == 5
  {
    [0, 3 + 3 * count, 0, 1 + 3 * count, count]
  }

  function Zeros(n: nat): (r: seq<byte>)
    ensures |r| == n
  {
    seq(n, _ => 0)
  }

  lemma {:induction false} SemisFrom(s: string, pos: nat, e: nat)
    requires pos <= e <= |s|
    ensures Semis(s, e) <= Semis(s, pos)
    decreases e - pos
  {
    if pos < e {
      SemisFrom(s, pos + 1, e);
    }
  }

  /** The loop never takes more networks than the count made room for. */
  lemma {:induction false} PlmnsFit(s: string, pos: nat)
    requires pos <= |s| && PlmnsFrom(s, pos).Some?
    ensures |PlmnsFrom(s, pos).value| <= 1 + Semis(s, pos)
    decreases |s| - pos
  {
    if pos < |s| {
      var e := IndexFrom(s, ';', IndexFrom(s, ',', pos) + 1);
      if e < |s| {
        PlmnsFit(s, e + 1);
        SemisFrom(s, pos, e);
      }
    }
  }

  /** The buffer holds the header and these networks, and zeros after them. */
  function Element(enc: Encoder, count: nat, ps: seq<Plmn>): (r: seq<byte>)
    requires count <= MAX_PLMNS && |ps| <= count
    ensures |r| == 5 + 3 * count
  {
    Header(count) + Encoded(enc, ps) + Zeros(3 * (count - |ps|))
  }

  /** What parse_3gpp_cell_net makes of a text: the stored element, or None on failure. */
  function CellNetOf(enc: Encoder, s: string): (r: Option<seq<byte>>)
  {
    var count := 1 + Semis(s, 0);
    if !AllAllowed(s) || count > MAX_PLMNS then None
    else
      match PlmnsFrom(s, 0)
      case None => None
      case Some(ps) =>
        PlmnsFit(s, 0);
        Some(Element(enc, count, ps))
  }

  // ---- the C function ---------------------------------------------------------------------

  /** The loop that checks the characters and counts. */
  method CountPlmns(s: string) returns (ok: bool, count: nat)
    ensures ok <==> AllAllowed(s)
    ensures ok ==> count == 1 + Semis(s, 0)
  {
    count := 1;
    var pos := 0;
    while pos < |s|
      invariant 0 <= pos <= |s|
      invariant forall i :: 0 <= i < pos ==> Allowed(s[i])
      invariant count + Semis(s, pos) == 1 + Semis(s, 0)
    {
      if !Allowed(s[pos]) {
        return false, count;
      }
      if s[pos] == ';' {
        count := count + 1;
      }
      pos := pos + 1;
    }
    ok := true;
  }

  lemma EncodedSnoc(enc: Encoder, ps: seq<Plmn>, p: Plmn)
    ensures Encoded(enc, ps + [p]) == Encoded(enc, ps) + enc(p)
  {
    assert (ps + [p])[..|ps|] == ps;
  }

  /** One network, written at the output cursor. */
  method PutPlmn(info: array<byte>, at: nat, p: Plmn)
    requires GoodLengths(p) && at + 3 <= info.Length
    modifies info
    ensures info[..] == old(info[..])[..at] + Bcd(p) + old(info[..])[at + 3..]
  {
    info[at] := Nibbles(DigitOf(p.mcc[1]), DigitOf(p.mcc[0]));
    info[at + 1] := Nibbles(if |p.mnc| == 2 then 15 else DigitOf(p.mnc[2]), DigitOf(p.mcc[2]));
    info[at + 2] := Nibbles(DigitOf(p.mnc[1]), DigitOf(p.mnc[0]));
  }

  lemma ElementNext(enc: Encoder, count: nat, ps: seq<Plmn>, p: Plmn)
    requires count <= MAX_PLMNS && |ps| < count
    ensures var b, at := Element(enc, count, ps), 5 + 3 * |ps|;
            Element(enc, count, ps + [p]) == b[..at] + enc(p) + b[at + 3..]
  {
    EncodedSnoc(enc, ps, p);
    var b, at := Element(enc, count, ps), 5 + 3 * |ps|;
    assert b[..at] == Header(count) + Encoded(enc, ps);
    assert b[at + 3..] == Zeros(3 * (count - |ps| - 1));
  }

  /** The network at a position, if it is well cut, and where the text goes on. */
  method CutNext(s: string, pos: nat) returns (ok: bool, e: nat, p: Plmn)
    requires pos < |s|
    ensures !ok ==> PlmnsFrom(s, pos).None?
    ensures ok ==> pos < e <= |s| && GoodLengths(p)
    ensures ok && e == |s| ==> PlmnsFrom(s, pos) == Some([p])
    ensures ok && e < |s| ==> PlmnsFrom(s, pos) == Prepend([p], PlmnsFrom(s, e + 1))
                              && Semis(s, pos) >= 1 + Semis(s, e + 1)
  {
    var c := IndexFrom(s, ',', pos);
    if c == |s| {
      return false, c, Plmn("", "");
    }
    e := IndexFrom(s, ';', c + 1);
    p := Plmn(s[pos..c], s[c + 1..e]);
    ok := GoodLengths(p);
    SemisFrom(s, pos, e);
  }

  /** The encoder agrees with Bcd, whose bit arithmetic stays hidden in the proofs about `enc`. */
  ghost predicate IsBcd(enc: Encoder) { forall p :: enc(p) == Bcd(p) }

  method StorePlmn(info: array<byte>, ipos: nat, p: Plmn, ghost enc: Encoder, ghost count: nat, ghost done: seq<Plmn>)
    requires IsBcd(enc) && GoodLengths(p) && count <= MAX_PLMNS && |done| < count && ipos == 5 + 3 * |done|
    requires info[..] == Element(enc, count, done)
    modifies info
    ensures info[..] == Element(enc, count, done + [p])
  {
    ElementNext(enc, count, done, p);
    PutPlmn(info, ipos, p);
  }

  /** What is left of the text: the networks still to come, and the ';' among them. */
  datatype Rest = Rest(plmns: Option<seq<Plmn>>, semis: nat)

  ghost function RestAt(s: string, pos: nat): Rest
    requires pos <= |s|
  {
    Rest(PlmnsFrom(s, pos), Semis(s, pos))
  }

  /** One round of the loop: the network at pos, stored behind those already done. */
  method TakePlmn(s: string, pos: nat, info: array<byte>, ipos: nat, ghost enc: Encoder, ghost count: nat,
                  ghost done: seq<Plmn>, ghost rest: Rest)
    returns (ok: bool, e: nat, ghost all: seq<Plmn>, ghost more: Rest)
    requires pos < |s| && rest == RestAt(s, pos) && |done| + 1 + rest.semis <= count <= MAX_PLMNS
    requires ipos == 5 + 3 * |done| && IsBcd(enc) && info[..] == Element(enc, count, done)
    modifies info
    ensures !ok ==> rest.plmns.None?
    ensures ok ==> pos < e <= |s| && |all| == |done| + 1 <= count && info[..] == Element(enc, count, all)
    ensures ok && e == |s| ==> Prepend(done, rest.plmns) == Some(all)
    ensures ok && e < |s| ==> more == RestAt(s, e + 1) && Prepend(done, rest.plmns) == Prepend(all, more.plmns)
                              && |all| + 1 + more.semis <= count
  {
    var p;
    all, more := done, rest;
    ok, e, p := CutNext(s, pos);
    if ok {
      StorePlmn(info, ipos, p, enc, count, done);
      all := done + [p];
      if e < |s| {
        more := RestAt(s, e + 1);
        PrependNext(done, p, more.plmns);
      }
    }
  }

  /** The loop over the networks; the cursor never leaves the buffer. */
  method PutPlmns(s: string, info: array<byte>, count: nat, ghost enc: Encoder) returns (ok: bool)
    requires count == 1 + Semis(s, 0) <= MAX_PLMNS && IsBcd(enc) && info[..] == Element(enc, count, [])
    modifies info
    ensures ok <==> PlmnsFrom(s, 0).Some?
    ensures ok ==> |PlmnsFrom(s, 0).value| <= count && info[..] == Element(enc, count, PlmnsFrom(s, 0).value)
  {
    var pos, ipos := 0, 5;
    ghost var done: seq<Plmn> := [];
    ghost var rest := RestAt(s, 0);
    ghost var whole := rest.plmns;
    PrependNothing(whole);
    while pos < |s|
      invariant 0 <= pos <= |s| && ipos == 5 + 3 * |done| && |done| + 1 + rest.semis <= count
      invariant whole == Prepend(done, rest.plmns) && rest == RestAt(s, pos)
      invariant info[..] == Element(enc, count, done)
      decreases |s| - pos
    {
      var e;
      ok, e, done, rest := TakePlmn(s, pos, info, ipos, enc, count, done, rest);
      if !ok {
        return;
      }
      ipos := ipos + 3;
      if e == |s| {
        return;
      }
      pos := e + 1;
    }
    PrependLast(done);
    return true;
  }

  /** parse_3gpp_cell_net. */
  method ParseCellNet(s: string) returns (r: Option<seq<byte>>)
    ensures r == CellNetOf(Bcd, s)
  {
    var ok, count := CountPlmns(s);
    if !ok || 1 + count * 3 > 0x7f {
      return None;
    }
    var info := new byte[2 + 3 + count * 3](_ => 0);
    info[1] := 3 + count * 3;
    info[3] := 1 + count * 3;
    info[4] := count;
    ghost var enc: Encoder := Bcd;
    assert info[..] == Element(enc, count, []);
    ok := PutPlmns(s, info, count, enc);
    if !ok {
      return None;
    }
    return Some(info[..]);
  }

  // ---- decoding ----------------------------------------------------------------------------

  predicate Bcd9(n: int) { 0 <= n <= 9 }

  function DigitChar(n: int): (c: char)
    requires Bcd9(n)
    ensures IsDigit(c) && DigitOf(c) == n
  {
    ('0' as int + n) as char
  }

  predicate Digits(s: string) { forall i :: 0 <= i < |s| ==> IsDigit(s[i]) }

  predicate WellFormed(p: Plmn) { GoodLengths(p) && Digits(p.mcc) && Digits(p.mnc) }

  ghost predicate AllWellFormed(ps: seq<Plmn>) { forall i :: 0 <= i < |ps| ==> WellFormed(ps[i]) }

  /** A network out of three bytes; 15 in the place of the third MNC digit says there is none. */
  function DecodePlmn(b0: byte, b1: byte, b2: byte): (r: Option<Plmn>)
    ensures r.Some? ==> WellFormed(r.value)
  {
    if !(Bcd9(b0 % 16) && Bcd9(b0 / 16) && Bcd9(b1 % 16) && Bcd9(b2 % 16) && Bcd9(b2 / 16)) then None
    else if !Bcd9(b1 / 16) && b1 / 16 != 15 then None
    else
      var mcc := [DigitChar(b0 % 16), DigitChar(b0 / 16), DigitChar(b1 % 16)];
      var mnc := [DigitChar(b2 % 16), DigitChar(b2 / 16)];
      Some(Plmn(mcc, if b1 / 16 == 15 then mnc else mnc + [DigitChar(b1 / 16)]))
  }

  function DecodePlmns(read: Decoder, b: seq<byte>, n: nat): (r: Option<seq<Plmn>>)
    requires |b| >= 5 + 3 * n
    ensures r.Some? ==> |r.value| == n
  {
    if n == 0 then Some([])
    else
      var at := 2 + 3 * n;
      match (DecodePlmns(read, b, n - 1), read(b[at], b[at + 1], b[at + 2]))
      case (Some(ps), Some(p)) => Some(ps + [p])
      case _ => None
  }

  /** A receiver of the element: all length fields must agree. */
  function Decode(read: Decoder, b: seq<byte>): Option<seq<Plmn>>
  {
    if |b| < 5 || b[0] != 0 || b[2] != 0 then None
    else
      var n: int := b[4];
      if |b| != 5 + 3 * n || b[1] as int != |b| - 2 || b[3] as int != |b| - 4 then None
      else DecodePlmns(read, b, n)
  }

  lemma CharOfDigit(c: char)
    requires IsDigit(c)
    ensures Bcd9(DigitOf(c)) && DigitChar(DigitOf(c)) == c
  {
  }

  lemma NibblesSplit(hi: int, lo: int)
    requires 0 <= hi < 16 && 0 <= lo < 16
    ensures Nibbles(hi, lo) / 16 == hi && Nibbles(hi, lo) % 16 == lo
  {
    NibblesOfDigits(hi, lo);
  }

  ghost predicate Undoes(enc: Encoder, read: Decoder, p: Plmn)
  {
    var b := enc(p);
    read(b[0], b[1], b[2]) == Some(p)
  }

  /** Two- and three-digit network codes both come back as they were. */
  lemma DecodeBcd(p: Plmn)
    requires WellFormed(p)
    ensures Undoes(Bcd, DecodePlmn, p)
  {
    var c, n := p.mcc, p.mnc;
    CharOfDigit(c[0]);
    CharOfDigit(c[1]);
    CharOfDigit(c[2]);
    CharOfDigit(n[0]);
    CharOfDigit(n[1]);
    NibblesSplit(DigitOf(c[1]), DigitOf(c[0]));
    NibblesSplit(DigitOf(n[1]), DigitOf(n[0]));
    assert c == [c[0], c[1], c[2]];
    if |n| == 2 {
      NibblesSplit(15, DigitOf(c[2]));
      assert n == [n[0], n[1]];
    } else {
      CharOfDigit(n[2]);
      NibblesSplit(DigitOf(n[2]), DigitOf(c[2]));
      assert n == [n[0], n[1]] + [n[2]];
    }
  }

  lemma {:induction false} DecodeEach(read: Decoder, b: seq<byte>, ps: seq<Plmn>)
    requires |b| >= 5 + 3 * |ps|
    requires forall i :: 0 <= i < |ps| ==> read(b[5 + 3 * i], b[6 + 3 * i], b[7 + 3 * i]) == Some(ps[i])
    ensures DecodePlmns(read, b, |ps|) == Some(ps)
    decreases |ps|
  {
    if ps != [] {
      var k := |ps| - 1;
      DecodeEach(read, b, ps[..k]);
      assert read(b[5 + 3 * k], b[6 + 3 * k], b[7 + 3 * k]) == Some(ps[k]);
      assert ps == ps[..k] + [ps[k]];
    }
  }

  lemma {:induction false} EncodedAt(enc: Encoder, ps: seq<Plmn>, i: nat)
    requires i < |ps|
    ensures Encoded(enc, ps)[3 * i..3 * i + 3] == enc(ps[i])
    decreases |ps|
  {
    var k := |ps| - 1;
    Concat3(Encoded(enc, ps[..k]), enc(ps[k]), 3 * i);
    if i < k {
      EncodedAt(enc, ps[..k], i);
    }
  }

  lemma Concat3(s: seq<byte>, t: seq<byte>, j: nat)
    requires |t| == 3
    ensures j == |s| ==> (s + t)[j..j + 3] == t
    ensures j + 3 <= |s| ==> (s + t)[j..j + 3] == s[j..j + 3]
  {
  }

  lemma ElementAt(h: seq<byte>, m: seq<byte>, z: seq<byte>, j: nat)
    requires |h| == 5 && j + 3 <= |m|
    ensures var b, c := h + m + z, m[j..j + 3]; b[5 + j] == c[0] && b[6 + j] == c[1] && b[7 + j] == c[2]
  {
  }

  /** A decoder that undoes the encoder finds the networks in a full element. */
  lemma DecodeElement(enc: Encoder, read: Decoder, ps: seq<Plmn>)
    requires |ps| <= MAX_PLMNS
    requires forall i :: 0 <= i < |ps| ==> Undoes(enc, read, ps[i])
    ensures Decode(read, Element(enc, |ps|, ps)) == Some(ps)
  {
    var b := Element(enc, |ps|, ps);
    forall i | 0 <= i < |ps|
      ensures read(b[5 + 3 * i], b[6 + 3 * i], b[7 + 3 * i]) == Some(ps[i])
    {
      EncodedAt(enc, ps, i);
      ElementAt(Header(|ps|), Encoded(enc, ps), Zeros(0), 3 * i);
      assert Undoes(enc, read, ps[i]);
    }
    DecodeEach(read, b, ps);
  }

  lemma {:induction false} DecodedWellFormed(read: Decoder, b: seq<byte>, n: nat)
    requires |b| >= 5 + 3 * n && DecodePlmns(read, b, n).Some?
    requires forall x, y, z :: read(x, y, z).Some? ==> WellFormed(read(x, y, z).value)
    ensures AllWellFormed(DecodePlmns(read, b, n).value)
  {
    if n > 0 {
      DecodedWellFormed(read, b, n - 1);
    }
  }

  // ---- spelling ------------------------------------------------------------------------------

  function SpellOne(p: Plmn): string { p.mcc + [','] + p.mnc }

  /** The documented text form: <MCC1,MNC1>[;<MCC2,MNC2>][;...]. */
  function Spell(ps: seq<Plmn>): string
  {
    if ps == [] then "" else if |ps| == 1 then SpellOne(ps[0]) else SpellOne(ps[0]) + [';'] + Spell(ps[1..])
  }

  /** The separators alternate, beginning and ending with ','. */
  predicate TidyFrom(s: string, pos: nat, wantComma: bool)
    requires pos <= |s|
    decreases |s| - pos
  {
    if pos == |s| then !wantComma
    else if s[pos] == ',' then wantComma && TidyFrom(s, pos + 1, false)
    else if s[pos] == ';' then !wantComma && TidyFrom(s, pos + 1, true)
    else TidyFrom(s, pos + 1, wantComma)
  }

  predicate Tidy(s: string) { TidyFrom(s, 0, true) }

  /** No separators between two positions. */
  ghost predicate Plain(s: string, pos: nat, e: nat)
    requires pos <= e <= |s|
  {
    forall i :: pos <= i < e ==> s[i] != ',' && s[i] != ';'
  }

  lemma {:induction false} SkipPlain(s: string, pos: nat, e: nat, want: bool)
    requires pos <= e <= |s| && Plain(s, pos, e)
    ensures TidyFrom(s, pos, want) == TidyFrom(s, e, want)
    ensures Semis(s, pos) == Semis(s, e)
    ensures IndexFrom(s, ',', pos) == IndexFrom(s, ',', e) && IndexFrom(s, ';', pos) == IndexFrom(s, ';', e)
    decreases e - pos
  {
    if pos < e {
      SkipPlain(s, pos + 1, e, want);
    }
  }

  lemma {:induction false} TidyToComma(s: string, pos: nat)
    requires pos <= |s| && TidyFrom(s, pos, true)
    ensures var c := IndexFrom(s, ',', pos); c < |s| && Plain(s, pos, c) && TidyFrom(s, c + 1, false)
    decreases |s| - pos
  {
    if s[pos] != ',' {
      TidyToComma(s, pos + 1);
    }
  }

  lemma {:induction false} TidyToSemi(s: string, pos: nat)
    requires pos <= |s| && TidyFrom(s, pos, false)
    ensures var e := IndexFrom(s, ';', pos); Plain(s, pos, e) && (e < |s| ==> TidyFrom(s, e + 1, true))
    decreases |s| - pos
  {
    if pos < |s| && s[pos] != ';' {
      TidyToSemi(s, pos + 1);
    }
  }

  lemma PlainDigits(s: string, pos: nat, e: nat)
    requires pos <= e <= |s| && Plain(s, pos, e) && AllAllowed(s)
    ensures Digits(s[pos..e])
  {
    forall i | 0 <= i < e - pos
      ensures IsDigit(s[pos..e][i])
    {
      assert Allowed(s[pos + i]);
    }
  }

  /** A network at a position, cut by its separators. */
  ghost predicate PlmnAt(s: string, pos: nat, c: nat, e: nat)
  {
    pos <= c < e <= |s| && s[c] == ',' && (e < |s| ==> s[e] == ';') && Plain(s, pos, c) && Plain(s, c + 1, e)
  }

  lemma TakenAt(s: string, pos: nat, c: nat, e: nat, p: Plmn)
    requires PlmnAt(s, pos, c, e) && p == Plmn(s[pos..c], s[c + 1..e])
    ensures IndexFrom(s, ',', pos) == c && IndexFrom(s, ';', c + 1) == e
    ensures TidyFrom(s, pos, true) <==> e == |s| || TidyFrom(s, e + 1, true)
    ensures Semis(s, pos) == if e == |s| then 0 else 1 + Semis(s, e + 1)
    ensures PlmnsFrom(s, pos)
            == if !GoodLengths(p) then None
               else if e == |s| then Some([p]) else Prepend([p], PlmnsFrom(s, e + 1))
  {
    SkipPlain(s, pos, c, true);
    SkipPlain(s, c + 1, e, false);
  }

  /** From a position on, the text is tidy and gives these networks, as many as it announces. */
  ghost predicate ReadsAs(s: string, pos: nat, ps: seq<Plmn>)
    requires pos <= |s|
  {
    TidyFrom(s, pos, true) && PlmnsFrom(s, pos) == Some(ps) && 1 + Semis(s, pos) == |ps|
  }

  lemma ReadsLast(s: string, pos: nat, c: nat, e: nat, p: Plmn)
    requires PlmnAt(s, pos, c, e) && p == Plmn(s[pos..c], s[c + 1..e]) && GoodLengths(p) && e == |s|
    ensures ReadsAs(s, pos, [p])
  {
    TakenAt(s, pos, c, e, p);
  }

  lemma ReadsMore(s: string, pos: nat, c: nat, e: nat, p: Plmn, rest: seq<Plmn>)
    requires PlmnAt(s, pos, c, e) && p == Plmn(s[pos..c], s[c + 1..e]) && GoodLengths(p) && e < |s|
    requires ReadsAs(s, e + 1, rest)
    ensures ReadsAs(s, pos, [p] + rest)
  {
    TakenAt(s, pos, c, e, p);
  }

  /** The networks taken from a tidy text are the text, and fill the count. */
  lemma {:induction false} TidyIsSpelling(s: string, pos: nat) returns (ps: seq<Plmn>)
    requires pos <= |s| && TidyFrom(s, pos, true) && PlmnsFrom(s, pos).Some?
    ensures ReadsAs(s, pos, ps) && ps != [] && Spell(ps) == s[pos..]
    decreases |s| - pos
  {
    var c, e := TidyPlmn(s, pos);
    var p := Plmn(s[pos..c], s[c + 1..e]);
    StillTidy(s, pos, c, e, p);
    if e == |s| {
      ReadsLast(s, pos, c, e, p);
      CutPlmn(s, pos, c, e);
      ps := [p];
    } else {
      var rest := TidyIsSpelling(s, e + 1);
      ReadsMore(s, pos, c, e, p, rest);
      SpellMore(s, pos, c, e, p, rest);
      ps := [p] + rest;
    }
  }

  lemma {:induction false} TidyWellFormed(s: string, pos: nat, ps: seq<Plmn>)
    requires pos <= |s| && TidyFrom(s, pos, true) && PlmnsFrom(s, pos) == Some(ps) && AllAllowed(s)
    ensures AllWellFormed(ps)
    decreases |s| - pos
  {
    var p, e := TidyStep(s, pos, ps);
    if e < |s| {
      TidyWellFormed(s, e + 1, PlmnsFrom(s, e + 1).value);
    }
  }

  lemma TidyStep(s: string, pos: nat, ps: seq<Plmn>) returns (p: Plmn, e: nat)
    requires pos <= |s| && TidyFrom(s, pos, true) && PlmnsFrom(s, pos) == Some(ps) && AllAllowed(s)
    ensures WellFormed(p) && pos < e <= |s| && (e == |s| ==> ps == [p])
    ensures e < |s| ==> TidyFrom(s, e + 1, true) && PlmnsFrom(s, e + 1).Some? && ps == [p] + PlmnsFrom(s, e + 1).value
  {
    var c;
    c, e := TidyPlmn(s, pos);
    p := Plmn(s[pos..c], s[c + 1..e]);
    TakenAt(s, pos, c, e, p);
    DigitsPlmn(s, pos, c, e, p);
  }

  lemma DigitsPlmn(s: string, pos: nat, c: nat, e: nat, p: Plmn)
    requires PlmnAt(s, pos, c, e) && p == Plmn(s[pos..c], s[c + 1..e]) && GoodLengths(p) && AllAllowed(s)
    ensures WellFormed(p)
  {
    PlainDigits(s, pos, c);
    PlainDigits(s, c + 1, e);
  }

  lemma StillTidy(s: string, pos: nat, c: nat, e: nat, p: Plmn)
    requires PlmnAt(s, pos, c, e) && p == Plmn(s[pos..c], s[c + 1..e])
    requires TidyFrom(s, pos, true) && PlmnsFrom(s, pos).Some?
    ensures GoodLengths(p) && (e < |s| ==> TidyFrom(s, e + 1, true) && PlmnsFrom(s, e + 1).Some?)
  {
    TakenAt(s, pos, c, e, p);
  }

  lemma TidyPlmn(s: string, pos: nat) returns (c: nat, e: nat)
    requires pos <= |s| && TidyFrom(s, pos, true)
    ensures PlmnAt(s, pos, c, e)
  {
    c := IndexFrom(s, ',', pos);
    TidyToComma(s, pos);
    e := IndexFrom(s, ';', c + 1);
    TidyToSemi(s, c + 1);
  }

  lemma SpellMore(s: string, pos: nat, c: nat, e: nat, p: Plmn, rest: seq<Plmn>)
    requires PlmnAt(s, pos, c, e) && p == Plmn(s[pos..c], s[c + 1..e]) && e < |s|
    requires rest != [] && Spell(rest) == s[e + 1..]
    ensures Spell([p] + rest) == s[pos..]
  {
    CutPlmn(s, pos, c, e);
    assert ([p] + rest)[1..] == rest;
  }

  lemma CutPlmn(s: string, pos: nat, c: nat, e: nat)
    requires pos <= c < e <= |s| && s[c] == ',' && (e < |s| ==> s[e] == ';')
    ensures var t := SpellOne(Plmn(s[pos..c], s[c + 1..e]));
            s[pos..] == if e == |s| then t else t + [';'] + s[e + 1..]
  {
  }

  // ---- round trip ------------------------------------------------------------------------------

  ghost predicate RoundTrips(read: Decoder, s: string, b: seq<byte>)
  {
    Decode(read, b).Some? && Spell(Decode(read, b).value) == s
  }

  lemma SpellOneAt(s: string, pos: nat, p: Plmn, rest: string)
    requires WellFormed(p) && pos <= |s| && s[pos..] == SpellOne(p) + rest
    ensures var c, e := pos + 3, pos + |SpellOne(p)|;
            && e <= |s| && s[c] == ',' && s[pos..c] == p.mcc && s[c + 1..e] == p.mnc && s[e..] == rest
            && Plain(s, pos, c) && Plain(s, c + 1, e)
  {
    var t, c, e := s[pos..], pos + 3, pos + |SpellOne(p)|;
    assert t[3] == ',' && t[..3] == p.mcc && t[4..|SpellOne(p)|] == p.mnc && t[|SpellOne(p)|..] == rest;
    assert s[pos..c] == t[..3] && s[c + 1..e] == t[4..|SpellOne(p)|] && s[e..] == t[|SpellOne(p)|..];
    forall i | pos <= i < c
      ensures s[i] != ',' && s[i] != ';'
    {
      assert s[i] == p.mcc[i - pos];
    }
    forall i | c < i < e
      ensures s[i] != ',' && s[i] != ';'
    {
      assert s[i] == p.mnc[i - c - 1];
    }
  }

  lemma SpellingHead(s: string, pos: nat, ps: seq<Plmn>) returns (c: nat, e: nat)
    requires ps != [] && pos <= |s| && s[pos..] == Spell(ps) && WellFormed(ps[0])
    ensures PlmnAt(s, pos, c, e) && ps[0] == Plmn(s[pos..c], s[c + 1..e])
    ensures if |ps| == 1 then e == |s| else e < |s| && s[e + 1..] == Spell(ps[1..])
  {
    var p := ps[0];
    var rest := if |ps| == 1 then "" else [';'] + Spell(ps[1..]);
    assert s[pos..] == SpellOne(p) + rest;
    SpellOneAt(s, pos, p, rest);
    c, e := pos + 3, pos + |SpellOne(p)|;
    if |ps| > 1 {
      assert s[e] == s[e..][0] == ';';
      assert s[e + 1..] == s[e..][1..] == Spell(ps[1..]);
    }
  }

  lemma SpellingStep(s: string, pos: nat, ps: seq<Plmn>) returns (e: nat)
    requires ps != [] && pos <= |s| && s[pos..] == Spell(ps) && WellFormed(ps[0])
    ensures |ps| == 1 ==> ReadsAs(s, pos, ps)
    ensures |ps| > 1 ==> e < |s| && s[e + 1..] == Spell(ps[1..])
    ensures |ps| > 1 && ReadsAs(s, e + 1, ps[1..]) ==> ReadsAs(s, pos, ps)
  {
    var c;
    c, e := SpellingHead(s, pos, ps);
    TakenAt(s, pos, c, e, ps[0]);
    assert ps == [ps[0]] + ps[1..];
    assert |ps| == 1 ==> ps == [ps[0]];
  }

  /** Every well-formed list is read back from its spelling, which is tidy. */
  lemma {:induction false} SpellingRead(s: string, pos: nat, ps: seq<Plmn>)
    requires ps != [] && pos <= |s| && s[pos..] == Spell(ps)
    requires AllWellFormed(ps)
    ensures ReadsAs(s, pos, ps)
    decreases |ps|
  {
    var e := SpellingStep(s, pos, ps);
    if |ps| > 1 {
      SpellingRead(s, e + 1, ps[1..]);
    }
  }

  lemma {:induction false} SpellingAllowed(ps: seq<Plmn>)
    requires AllWellFormed(ps)
    ensures AllAllowed(Spell(ps))
    decreases |ps|
  {
    if ps != [] {
      SpellingAllowed(ps[1..]);
    }
  }

  lemma CellNetFrom(enc: Encoder, s: string, ps: seq<Plmn>)
    requires ReadsAs(s, 0, ps) && AllAllowed(s)
    ensures CellNetOf(enc, s) == if |ps| <= MAX_PLMNS then Some(Element(enc, |ps|, ps)) else None
  {
  }

  lemma EncodeSpelling(enc: Encoder, s: string, ps: seq<Plmn>)
    requires 1 <= |ps| && AllWellFormed(ps) && s == Spell(ps)
    ensures CellNetOf(enc, s) == if |ps| <= MAX_PLMNS then Some(Element(enc, |ps|, ps)) else None
  {
    assert s[0..] == s;
    SpellingRead(s, 0, ps);
    SpellingAllowed(ps);
    CellNetFrom(enc, s, ps);
  }

  lemma DecodeAllBcd(ps: seq<Plmn>)
    requires |ps| <= MAX_PLMNS && AllWellFormed(ps)
    ensures Decode(DecodePlmn, Element(Bcd, |ps|, ps)) == Some(ps)
  {
    forall i | 0 <= i < |ps|
      ensures Undoes(Bcd, DecodePlmn, ps[i])
    {
      DecodeBcd(ps[i]);
    }
    DecodeElement(Bcd, DecodePlmn, ps);
  }

  /**
    Every well-formed list of 1 to 42 networks is encoded into 5 + 3n bytes that
    decode to it; a longer list is refused.
   */
  lemma EncodeDecode(ps: seq<Plmn>)
    requires 1 <= |ps| && AllWellFormed(ps)
    ensures var r := CellNetOf(Bcd, Spell(ps));
            && (r.Some? <==> |ps| <= MAX_PLMNS)
            && (r.Some? ==> |r.value| == 5 + 3 * |ps| && Decode(DecodePlmn, r.value) == Some(ps))
  {
    EncodeSpelling(Bcd, Spell(ps), ps);
    if |ps| <= MAX_PLMNS {
      DecodeAllBcd(ps);
    }
  }

  lemma TidyElement(enc: Encoder, s: string) returns (ps: seq<Plmn>)
    requires CellNetOf(enc, s).Some? && Tidy(s)
    ensures |ps| <= MAX_PLMNS && CellNetOf(enc, s) == Some(Element(enc, |ps|, ps))
    ensures Spell(ps) == s && AllWellFormed(ps)
  {
    ps := TidyIsSpelling(s, 0);
    TidyWellFormed(s, 0, ps);
    assert s[0..] == s;
  }

  lemma DecodedIsTidy(read: Decoder, s: string, b: seq<byte>)
    requires RoundTrips(read, s, b) && |b| >= 8
    requires forall x, y, z :: read(x, y, z).Some? ==> WellFormed(read(x, y, z).value)
    ensures Tidy(s)
  {
    DecodedWellFormed(read, b, b[4]);
    assert s[0..] == s;
    SpellingRead(s, 0, Decode(read, b).value);
  }

  /** An accepted text is what the stored element says exactly when it is tidy. */
  lemma AcceptedRoundTripsIffTidy(s: string)
    requires CellNetOf(Bcd, s).Some?
    ensures RoundTrips(DecodePlmn, s, CellNetOf(Bcd, s).value) <==> Tidy(s)
  {
    if Tidy(s) {
      var ps := TidyElement(Bcd, s);
      DecodeAllBcd(ps);
    }
    if RoundTrips(DecodePlmn, s, CellNetOf(Bcd, s).value) {
      DecodedIsTidy(DecodePlmn, s, CellNetOf(Bcd, s).value);
    }
  }

  /** An accepted text that is not tidy: the empty one stores a network nobody named. */
  lemma UntidyAccepted()
    ensures CellNetOf(Bcd, "") == Some([0, 6, 0, 4, 1, 0, 0, 0])
    ensures Decode(DecodePlmn, [0, 6, 0, 4, 1, 0, 0, 0]) == Some([Plmn(['0', '0', '0'], ['0', '0', '0'])])
    ensures !Tidy("")
  {
    assert Element(Bcd, 1, []) == [0, 6, 0, 4, 1, 0, 0, 0];
    var b: seq<byte> := [0, 6, 0, 4, 1, 0, 0, 0];
    assert DecodePlmns(DecodePlmn, b, 0) == Some([]);
    assert DigitChar(0) == '0';
    var zero := Plmn(['0', '0', '0'], ['0', '0'] + ['0']);
    assert DecodePlmn(0, 0, 0) == Some(zero);
    assert DecodePlmns(DecodePlmn, b, 1) == Some([] + [zero]);
    assert zero.mnc == ['0', '0', '0'] && [] + [zero] == [zero];
    assert Decode(DecodePlmn, b) == DecodePlmns(DecodePlmn, b, 1);
  }
}
