/**
  Milenage authentication vectors, AUTS validation and the check a USIM makes,
  over arbitrary functions f1 and f2345 (3GPP TS 35.206; each can fail).
 */
module Milenage {
  import opened Bits
  import opened ByteOrder
  import opened CStrings
  import opened Sqn

  type Block16 = s: seq<byte> | |s| == 16 witness seq(16, _ => 0)
  type Block8 = s: seq<byte> | |s| == 8 witness seq(8, _ => 0)
  type Amf = s: seq<byte> | |s| == 2 witness [0, 0]
  type Auts = s: seq<byte> | |s| == 14 witness seq(14, _ => 0)

  datatype Macs = Macs(macA: Block8, macS: Block8)
  datatype Keys = Keys(res: Block8, ck: Block16, ik: Block16, ak: Sqn6, akStar: Sqn6)

  /** f1 takes OPc, K, RAND, SQN, AMF; f2345 takes OPc, K, RAND. */
  datatype Algorithms = Algorithms(
    f1: (Block16, Block16, Block16, Sqn6, Amf) -> Option<Macs>,
    f2345: (Block16, Block16, Block16) -> Option<Keys>)

  datatype Vector = Vector(autn: Block16, ik: Block16, ck: Block16, res: Block8)

  const RESYNC_AMF: Amf := [0, 0]

  function XorBytes(a: seq<byte>, b: seq<byte>): (r: seq<byte>)
    requires |a| == |b|
    ensures |r| == |a|
  {
    if a == [] then []
    else
      XorBound(a[0], b[0], 8);
      [Xor(a[0], b[0])] + XorBytes(a[1..], b[1..])
  }

  lemma {:induction false} XorBytesCancel(a: seq<byte>, b: seq<byte>)
    requires |a| == |b|
    ensures XorBytes(XorBytes(a, b), b) == a
  {
    if a != [] {
      XorCancel(a[0], b[0]);
      XorBytesCancel(a[1..], b[1..]);
      assert XorBytes(a, b)[1..] == XorBytes(a[1..], b[1..]);
      assert a == [a[0]] + a[1..];
    }
  }

  /** milenage_generate: AUTN = (SQN ^ AK) | AMF | MAC-A. */
  function Generate(alg: Algorithms, opc: Block16, amf: Amf, k: Block16, sqn: Sqn6, rand: Block16): Option<Vector>
  {
    match (alg.f1(opc, k, rand, sqn, amf), alg.f2345(opc, k, rand))
    case (Some(m), Some(f)) => Some(Vector(XorBytes(sqn, f.ak) + amf + m.macA, f.ik, f.ck, f.res))
    case _ => None
  }

  /** milenage_auts: the SQN a correct AUTS carries. */
  function ValidateAuts(alg: Algorithms, opc: Block16, k: Block16, rand: Block16, auts: Auts): Option<Sqn6>
  {
    match alg.f2345(opc, k, rand)
    case None => None
    case Some(f) =>
      var sqn: Sqn6 := XorBytes(auts[..6], f.akStar);
      match alg.f1(opc, k, rand, sqn, RESYNC_AMF)
      case None => None
      case Some(m) => if m.macS == auts[6..] then Some(sqn) else None
  }

  datatype GsmAuth = GsmAuth(kc: seq<byte>, sres: seq<byte>)

  /** gsm_milenage: Kc folds CK and IK, SRES folds RES. */
  function GsmMilenage(alg: Algorithms, opc: Block16, k: Block16, rand: Block16): Option<GsmAuth>
  {
    match alg.f2345(opc, k, rand)
    case None => None
    case Some(f) =>
      var kc := XorBytes(XorBytes(XorBytes(f.ck[..8], f.ck[8..]), f.ik[..8]), f.ik[8..]);
      Some(GsmAuth(kc, XorBytes(f.res[..4], f.res[4..])))
  }

  datatype CheckResult = Accepted(ik: Block16, ck: Block16, res: Block8) | SyncFailure(auts: Auts) | Rejected

  /** milenage_check: the peer's verdict on a challenge, given its stored SQN. */
  function Check(alg: Algorithms, opc: Block16, k: Block16, sqn: Sqn6, rand: Block16, autn: Block16): CheckResult
  {
    match alg.f2345(opc, k, rand)
    case None => Rejected
    case Some(f) =>
      var rxSqn: Sqn6 := XorBytes(autn[..6], f.ak);
      if Memcmp(rxSqn, sqn) <= 0 then
        match alg.f1(opc, k, rand, sqn, RESYNC_AMF)
        case None => Rejected
        case Some(m) => SyncFailure(XorBytes(sqn, f.akStar) + m.macS)
      else
        match alg.f1(opc, k, rand, rxSqn, autn[6..8])
        case None => Rejected
        case Some(m) => if m.macA == autn[8..] then Accepted(f.ik, f.ck, f.res) else Rejected
  }

  /** A generated vector is accepted, with the same keys, iff its SQN is newer. */
  lemma CheckOfGenerated(alg: Algorithms, opc: Block16, amf: Amf, k: Block16, sqn: Sqn6, rand: Block16, peer: Sqn6)
    requires Generate(alg, opc, amf, k, sqn, rand).Some?
    ensures var v := Generate(alg, opc, amf, k, sqn, rand).value;
            Check(alg, opc, k, peer, rand, v.autn) == Accepted(v.ik, v.ck, v.res) <==> BeValue(peer) < BeValue(sqn)
    ensures var v := Generate(alg, opc, amf, k, sqn, rand).value;
            BeValue(sqn) <= BeValue(peer) ==>
              Check(alg, opc, k, peer, rand, v.autn).SyncFailure? || alg.f1(opc, k, rand, peer, RESYNC_AMF).None?
  {
    var v := Generate(alg, opc, amf, k, sqn, rand).value;
    var f := alg.f2345(opc, k, rand).value;
    assert v.autn[..6] == XorBytes(sqn, f.ak);
    assert v.autn[6..8] == amf;
    XorBytesCancel(sqn, f.ak);
    MemcmpComparesValues(sqn, peer);
  }

  /** The AUTS a peer answers with is valid and carries exactly the peer's SQN. */
  lemma AutsOfSyncFailure(alg: Algorithms, opc: Block16, k: Block16, peer: Sqn6, rand: Block16, autn: Block16)
    requires Check(alg, opc, k, peer, rand, autn).SyncFailure?
    ensures ValidateAuts(alg, opc, k, rand, Check(alg, opc, k, peer, rand, autn).auts) == Some(peer)
  {
    var auts := Check(alg, opc, k, peer, rand, autn).auts;
    var f := alg.f2345(opc, k, rand).value;
    XorBytesCancel(peer, f.akStar);
    assert auts[..6] == XorBytes(peer, f.akStar);
    assert auts[6..] == alg.f1(opc, k, rand, peer, RESYNC_AMF).value.macS;
  }
}
