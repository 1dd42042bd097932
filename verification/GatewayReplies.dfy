/**
  What the gateway answers, told from the text of the command and the contents of
  the subscriber entry: which challenges a SIM or GSM request gets and what they
  carry, what an AUTS must look like to be believed, and which requests fail.
 */
module GatewayReplies {
  import opened Bits
  import opened CStrings
  import opened Spelling
  import opened Sqn
  import opened Milenage
  import opened TripletCursor
  import opened Gateway
  import opened GatewayRuns

  // ---- GSM triplets from Milenage --------------------------------------------------------

  /** Kc and SRES as TS 55.205 derives them, byte by byte. */
  ghost predicate Derived(f: Keys, a: GsmAuth)
  {
    && |a.kc| == 8 && |a.sres| == 4
    && (forall b :: 0 <= b < 8 ==> a.kc[b] == Xor(Xor(Xor(f.ck[b], f.ck[b + 8]), f.ik[b]), f.ik[b + 8]))
    && (forall b :: 0 <= b < 4 ==> a.sres[b] == Xor(f.res[b], f.res[b + 4]))
  }

  /** The challenge for a RAND with the keys of a subscriber. */
  ghost predicate ChallengeOf(alg: Algorithms, m: Subscriber, rand: Block16, c: GsmChallenge)
  {
    && c.rand == rand
    && match alg.f2345(m.opc, m.ki, rand)
       case None => c.auth == None
       case Some(f) => c.auth.Some? && Derived(f, c.auth.value)
  }

  lemma {:induction false} XorBytesAt(a: seq<byte>, b: seq<byte>, i: nat)
    requires |a| == |b| && i < |a|
    ensures XorBytes(a, b)[i] == Xor(a[i], b[i])
  {
    if i > 0 {
      XorBytesAt(a[1..], b[1..], i - 1);
    }
  }

  lemma FoldedKc(ck: Block16, ik: Block16, i: nat)
    requires i < 8
    ensures XorBytes(XorBytes(XorBytes(ck[..8], ck[8..]), ik[..8]), ik[8..])[i]
            == Xor(Xor(Xor(ck[i], ck[i + 8]), ik[i]), ik[i + 8])
  {
    var x := XorBytes(ck[..8], ck[8..]);
    var y := XorBytes(x, ik[..8]);
    XorBytesAt(ck[..8], ck[8..], i);
    XorBytesAt(x, ik[..8], i);
    XorBytesAt(y, ik[8..], i);
  }

  lemma ChallengeIsDerived(cfg: Config, m: Subscriber, rand: Block16)
    ensures ChallengeOf(cfg.alg, m, rand, GsmChallengeFor(cfg, m, rand))
  {
    match cfg.alg.f2345(m.opc, m.ki, rand)
    case None =>
    case Some(f) =>
      forall b | 0 <= b < 8
        ensures GsmChallengeFor(cfg, m, rand).auth.value.kc[b]
                == Xor(Xor(Xor(f.ck[b], f.ck[b + 8]), f.ik[b]), f.ik[b + 8])
      {
        FoldedKc(f.ck, f.ik, b);
      }
      forall b | 0 <= b < 4
        ensures GsmChallengeFor(cfg, m, rand).auth.value.sres[b] == Xor(f.res[b], f.res[b + 4])
      {
        XorBytesAt(f.res[..4], f.res[4..], b);
      }
  }

  // ---- SIM requests -------------------------------------------------------------------------

  /** A text that is no number, or a negative one. */
  predicate NoCount(t: string) { t == "" || t[0] == '-' || (!IsSpace(t[0]) && t[0] != '+' && !IsDigit(t[0])) }

  /**
    The command asks for n challenges: 1, 2 or 3 as written behind the IMSI, and 3
    when nothing, another number or no number is written there.
   */
  ghost predicate SimRequest(cmd: string, imsi: string, n: nat)
  {
    var head := "SIM-REQ-AUTH " + imsi;
    ' ' !in imsi
    && ((cmd == head && n == 3)
        || (exists t: string {:trigger NoCount(t)} :: NoCount(t) && cmd == head + " " + t && n == 3)
        || (exists d: string, v: nat, t: string {:trigger SpellsDecimal(d, v), EndsNumber(t)} ::
              && SpellsDecimal(d, v) && EndsNumber(t) && cmd == head + " " + (d + t)
              && n == if v == 1 || v == 2 || v == 3 then v else 3))
  }

  lemma NoCountIsNotPositive(t: string)
    requires NoCount(t)
    ensures Atoi(t) <= 0
  {
  }

  /** The argument of a command that is an IMSI alone. */
  lemma BareImsi(imsi: string)
    requires ' ' !in imsi
    ensures imsi[..IndexOf(imsi, ' ')] == imsi && MaxChal(imsi) == 3
  {
    IndexOfIs(imsi, ' ', |imsi|);
    assert imsi[..|imsi|] == imsi;
  }

  lemma ImsiThen(imsi: string, t: string)
    requires ' ' !in imsi
    ensures var arg := imsi + " " + t;
            && IndexOf(arg, ' ') == |imsi| && arg[..|imsi|] == imsi && arg[|imsi| + 1..] == t
            && MaxChal(arg) == (if 1 <= Atoi(t) <= 3 then Atoi(t) else 3)
  {
    var arg := imsi + " " + t;
    IndexOfIs(arg, ' ', |imsi|);
    assert arg[..|imsi|] == imsi && arg[|imsi| + 1..] == t;
  }

  /** The command is understood as a request of this IMSI for n challenges. */
  ghost predicate ParsesAs(cmd: string, imsi: string, n: nat)
  {
    SIM_REQ <= cmd && cmd[13..][..IndexOf(cmd[13..], ' ')] == imsi && MaxChal(cmd[13..]) == n
  }

  lemma BareRequestParses(imsi: string)
    requires ' ' !in imsi
    ensures ParsesAs("SIM-REQ-AUTH " + imsi, imsi, 3)
  {
    var cmd := "SIM-REQ-AUTH " + imsi;
    assert SIM_REQ <= cmd && cmd[13..] == imsi;
    BareImsi(imsi);
  }

  lemma CountedRequestParses(imsi: string, t: string)
    requires ' ' !in imsi
    ensures ParsesAs("SIM-REQ-AUTH " + imsi + " " + t, imsi, if 1 <= Atoi(t) <= 3 then Atoi(t) else 3)
  {
    var cmd := "SIM-REQ-AUTH " + imsi + " " + t;
    assert SIM_REQ <= cmd && cmd[13..] == imsi + " " + t;
    ImsiThen(imsi, t);
  }

  lemma SimRequestParses(cmd: string, imsi: string, n: nat)
    requires SimRequest(cmd, imsi, n)
    ensures ParsesAs(cmd, imsi, n)
  {
    var head := "SIM-REQ-AUTH " + imsi;
    if cmd == head && n == 3 {
      BareRequestParses(imsi);
    } else if t: string :| NoCount(t) && cmd == head + " " + t && n == 3 {
      CountedRequestParses(imsi, t);
      NoCountIsNotPositive(t);
    } else {
      var d: string, v: nat, t: string :| SpellsDecimal(d, v) && EndsNumber(t) && cmd == head + " " + (d + t)
        && n == if v == 1 || v == 2 || v == 3 then v else 3;
      CountedRequestParses(imsi, d + t);
      AtoiReads(d, v, t);
    }
  }

  /** The challenge for what was drawn, if anything was. */
  ghost predicate DrawnAs(alg: Algorithms, m: Subscriber, drawn: Option<Block16>, c: GsmChallenge)
  {
    drawn.Some? && ChallengeOf(alg, m, drawn.value, c)
  }

  /** Challenges with the RANDs of the draws from number `at` on. */
  ghost predicate Drawn(alg: Algorithms, m: Subscriber, draw: Randomness, at: nat, auths: seq<GsmChallenge>)
  {
    forall t :: 0 <= t < |auths| ==> DrawnAs(alg, m, draw(at + t), auths[t])
  }

  lemma DrawnNext(alg: Algorithms, m: Subscriber, draw: Randomness, at: nat, c: GsmChallenge, rest: seq<GsmChallenge>)
    requires DrawnAs(alg, m, draw(at), c) && Drawn(alg, m, draw, at + 1, rest)
    ensures Drawn(alg, m, draw, at, [c] + rest)
  {
    var all := [c] + rest;
    forall t | 0 <= t < |all|
      ensures DrawnAs(alg, m, draw(at + t), all[t])
    {
      if t > 0 {
        assert DrawnAs(alg, m, draw(at + 1 + (t - 1)), rest[t - 1]);
        assert at + 1 + (t - 1) == at + t;
      }
    }
  }

  lemma {:induction false} DrawnChallenges(cfg: Config, m: Subscriber, draw: Randomness, at: nat, left: nat)
    ensures var r := DrawChallenges(cfg, m, draw, at, left);
            && (r == None <==> exists t: nat :: at <= t < at + left && draw(t) == None)
            && (r.Some? ==> |r.value| == left && Drawn(cfg.alg, m, draw, at, r.value))
    decreases left
  {
    if left > 0 && draw(at).None? {
      assert at <= at < at + left;
    } else if left > 0 {
      DrawnChallenges(cfg, m, draw, at + 1, left - 1);
      ChallengeIsDerived(cfg, m, draw(at).value);
      var rest := DrawChallenges(cfg, m, draw, at + 1, left - 1);
      if rest.Some? {
        DrawnNext(cfg.alg, m, draw, at, GsmChallengeFor(cfg, m, draw(at).value), rest.value);
      } else {
        var t: nat :| at + 1 <= t < at + 1 + (left - 1) && draw(t) == None;
        assert at <= t < at + left;
      }
    }
  }

  lemma SimStepKnown(cfg: Config, st: Hlr, cmd: string, imsi: string, n: nat, draw: Randomness, i: nat)
    requires cfg.Valid() && st.Valid() && SimRequest(cmd, imsi, n) && 14 + |imsi| < 1000
    requires i == FindSubscriber(st.subs, imsi) < |st.subs|
    ensures var r := DrawChallenges(cfg, st.subs[i], draw, 0, n);
            Step(cfg, st, cmd, draw) == (st, if r.None? then Error else SimAuths(imsi, r.value))
  {
    SimRequestParses(cmd, imsi, n);
  }

  /** An error exactly when one of n draws fails; otherwise n challenges, number t for draw t. */
  ghost predicate SimAnswer(alg: Algorithms, m: Subscriber, imsi: string, n: nat, draw: Randomness, reply: Reply)
  {
    && (reply == Error <==> exists t: nat :: t < n && draw(t) == None)
    && (reply != Error ==>
          reply.SimAuths? && reply.imsi == imsi && |reply.auths| == n && Drawn(alg, m, draw, 0, reply.auths))
  }

  lemma DrawnAnswer(cfg: Config, m: Subscriber, imsi: string, n: nat, draw: Randomness, reply: Reply)
    requires var r := DrawChallenges(cfg, m, draw, 0, n); reply == if r.None? then Error else SimAuths(imsi, r.value)
    ensures SimAnswer(cfg.alg, m, imsi, n, draw, reply)
  {
    DrawnChallenges(cfg, m, draw, 0, n);
  }

  /**
    A SIM request for a known IMSI fails exactly when one of the draws it needs
    fails. Otherwise it gets as many challenges as it asks for, number t with the
    RAND of draw t and Kc and SRES of that RAND. Nothing in the gateway changes.
   */
  lemma SimRequestAnswered(cfg: Config, st: Hlr, cmd: string, imsi: string, n: nat, draw: Randomness)
    requires cfg.Valid() && st.Valid() && SimRequest(cmd, imsi, n) && 14 + |imsi| < 1000
    requires FindSubscriber(st.subs, imsi) < |st.subs|
    ensures var m := st.subs[FindSubscriber(st.subs, imsi)];
            var (st', reply) := Step(cfg, st, cmd, draw);
            st' == st && SimAnswer(cfg.alg, m, imsi, n, draw, reply)
  {
    var i := FindSubscriber(st.subs, imsi);
    SimStepKnown(cfg, st, cmd, imsi, n, draw, i);
    DrawnAnswer(cfg, st.subs[i], imsi, n, draw, Step(cfg, st, cmd, draw).1);
  }

  /**
    A SIM request for an IMSI that has k triplets and no Milenage entry gets
    exactly the requested number, in cyclic order from the cursor, all different
    when k suffices; without any triplet it fails, if there is room to say so. The
    subscriber list is kept.
   */
  lemma SimRequestServed(cfg: Config, st: Hlr, cmd: string, imsi: string, n: nat, draw: Randomness)
    requires cfg.Valid() && st.Valid() && SimRequest(cmd, imsi, n) && |imsi| < 986
    requires FindSubscriber(st.subs, imsi) == |st.subs|
    ensures var c := Cycle(st.triplets, imsi, st.pos);
            var (st', reply) := Step(cfg, st, cmd, draw);
            && st'.subs == st.subs && st'.triplets == st.triplets
            && (c == [] ==> reply == if |imsi| < 978 then SimFailure(imsi) else Error)
            && (c != [] ==>
                  && reply.SimTriplets? && reply.imsi == imsi && |reply.which| == n
                  && WalksCycle(reply.which, c)
                  && (n <= |c| ==> forall t, u :: 0 <= t < u < n ==> reply.which[t] != reply.which[u]))
  {
    SimRequestParses(cmd, imsi, n);
    LookupsWalkTheCycle(st.triplets, imsi, st.pos, n);
    if n <= |Cycle(st.triplets, imsi, st.pos)| {
      LookupsDistinct(st.triplets, imsi, st.pos, n);
    }
  }

  // ---- GSM requests -------------------------------------------------------------------------

  /** The RANDs in hex with ':' between them, and what follows the last one. */
  ghost predicate SpellsRands(text: string, rands: seq<Block16>, tail: string)
    decreases |rands|
  {
    if rands == [] then text == tail
    else
      |text| >= 32 && SpellsHex(text[..32], rands[0])
      && if |rands| == 1 then text[32..] == tail
         else |text| > 32 && text[32] == ':' && SpellsRands(text[33..], rands[1..], tail)
  }

  /** The answers to a list of RANDs, in their order. */
  ghost predicate AnswersTo(alg: Algorithms, m: Subscriber, rands: seq<Block16>, auths: seq<GsmChallenge>)
  {
    |auths| <= |rands| && forall t :: 0 <= t < |auths| ==> ChallengeOf(alg, m, rands[t], auths[t])
  }

  lemma AnswersNext(alg: Algorithms, m: Subscriber, rands: seq<Block16>, c: GsmChallenge, rest: seq<GsmChallenge>)
    requires rands != [] && ChallengeOf(alg, m, rands[0], c) && AnswersTo(alg, m, rands[1..], rest)
    ensures AnswersTo(alg, m, rands, [c] + rest)
  {
  }

  function Least(a: nat, b: nat): nat { if a < b then a else b }

  lemma FirstRand(cfg: Config, m: Subscriber, text: string, rand: Block16, left: nat)
    requires left > 0 && |text| >= 32 && SpellsHex(text[..32], rand)
    ensures var one := GsmChallengeFor(cfg, m, rand);
            && ChallengeOf(cfg.alg, m, rand, one)
            && AnswerRands(cfg, m, text, left)
               == if |text| == 32 || text[32] != ':' then Some([one])
                  else Prepend([one], AnswerRands(cfg, m, text[33..], left - 1))
  {
    HexStr2BinReads(text[..32], rand, text, 16);
    ChallengeIsDerived(cfg, m, rand);
  }

  /** The first `left` of the RANDs are answered, or all of them. */
  ghost predicate AnswersFirst(alg: Algorithms, m: Subscriber, rands: seq<Block16>, left: nat,
                               r: Option<seq<GsmChallenge>>)
  {
    r.Some? && |r.value| == Least(left, |rands|) && AnswersTo(alg, m, rands, r.value)
  }

  lemma LastRand(cfg: Config, m: Subscriber, text: string, rands: seq<Block16>, left: nat)
    requires left > 0 && |rands| == 1 && |text| >= 32 && SpellsHex(text[..32], rands[0])
    requires |text| == 32 || text[32] != ':' || left == 1
    ensures AnswersFirst(cfg.alg, m, rands, left, AnswerRands(cfg, m, text, left))
  {
    FirstRand(cfg, m, text, rands[0], left);
    var one := GsmChallengeFor(cfg, m, rands[0]);
    AnswersNext(cfg.alg, m, rands, one, []);
    assert [one] + [] == [one];
  }

  lemma NextRand(cfg: Config, m: Subscriber, text: string, rands: seq<Block16>, left: nat)
    requires left > 0 && |rands| > 1 && |text| > 32 && SpellsHex(text[..32], rands[0]) && text[32] == ':'
    requires AnswersFirst(cfg.alg, m, rands[1..], left - 1, AnswerRands(cfg, m, text[33..], left - 1))
    ensures AnswersFirst(cfg.alg, m, rands, left, AnswerRands(cfg, m, text, left))
  {
    FirstRand(cfg, m, text, rands[0], left);
    AnswersNext(cfg.alg, m, rands, GsmChallengeFor(cfg, m, rands[0]), AnswerRands(cfg, m, text[33..], left - 1).value);
  }

  lemma {:induction false} RandsAnswered(cfg: Config, m: Subscriber, text: string, rands: seq<Block16>, tail: string,
                                         left: nat)
    requires rands != [] && SpellsRands(text, rands, tail)
    requires |rands| < left ==> tail == "" || tail[0] != ':'
    ensures AnswersFirst(cfg.alg, m, rands, left, AnswerRands(cfg, m, text, left))
    decreases left
  {
    if left > 0 {
      if |rands| > 1 {
        RandsAnswered(cfg, m, text[33..], rands[1..], tail, left - 1);
        NextRand(cfg, m, text, rands, left);
      } else {
        assert tail != "" ==> text[32] == text[32..][0];
        LastRand(cfg, m, text, rands, left);
      }
    }
  }

  predicate IsHexChar(c: char) { '0' <= c <= '9' || 'a' <= c <= 'f' || 'A' <= c <= 'F' }

  /** A text that does not begin with the 32 hex digits of a RAND. */
  ghost predicate NoRand(text: string) { |text| < 32 || exists k :: 0 <= k < 32 && !IsHexChar(text[k]) }

  lemma {:induction false} HexStr2BinRefuses(text: string, len: nat)
    requires |text| < 2 * len || exists k :: 0 <= k < 2 * len && !IsHexChar(text[k])
    ensures HexStr2Bin(text, len) == None
    decreases len
  {
    if |text| >= 2 * len {
      var k :| 0 <= k < 2 * len && !IsHexChar(text[k]);
      if k >= 2 {
        assert text[2..][k - 2] == text[k];
        HexStr2BinRefuses(text[2..], len - 1);
      }
    }
  }

  /** RANDs of which one, within the first `left`, is none. */
  ghost predicate HasBadRand(text: string, rands: seq<Block16>, left: nat)
  {
    |rands| < left
    && if rands == [] then NoRand(text)
       else exists bad: string {:trigger NoRand(bad)} :: NoRand(bad) && SpellsRands(text, rands, ":" + bad)
  }

  /** Behind a RAND and its colon, the same holds of the rest. */
  lemma BadRandLater(text: string, rands: seq<Block16>, left: nat)
    requires HasBadRand(text, rands, left) && rands != []
    ensures |text| > 32 && SpellsHex(text[..32], rands[0]) && text[32] == ':'
    ensures HasBadRand(text[33..], rands[1..], left - 1)
  {
    var bad: string :| NoRand(bad) && SpellsRands(text, rands, ":" + bad);
    if |rands| == 1 {
      var t := text[32..];
      assert t == ":" + bad;
      assert text[32] == t[0] && text[33..] == t[1..] == bad;
    }
  }

  lemma {:induction false} BadRandRefused(cfg: Config, m: Subscriber, text: string, rands: seq<Block16>, left: nat)
    requires HasBadRand(text, rands, left)
    ensures AnswerRands(cfg, m, text, left) == None
    decreases left
  {
    if rands == [] {
      HexStr2BinRefuses(text, 16);
    } else {
      BadRandLater(text, rands, left);
      FirstRand(cfg, m, text, rands[0], left);
      BadRandRefused(cfg, m, text[33..], rands[1..], left - 1);
    }
  }

  lemma GsmStepKnown(cfg: Config, st: Hlr, imsi: string, text: string, draw: Randomness, i: nat)
    requires cfg.Valid() && st.Valid() && ' ' !in imsi && 14 + |imsi| < 1000
    requires i == FindSubscriber(st.subs, imsi) < |st.subs|
    ensures var r := AnswerRands(cfg, st.subs[i], text, 3);
            Step(cfg, st, "GSM-AUTH-REQ " + imsi + " " + text, draw)
            == (st, if r.None? then Error else GsmAuths(imsi, r.value))
  {
    GsmCommand(imsi + " " + text);
    assert GSM_REQ + (imsi + " " + text) == "GSM-AUTH-REQ " + imsi + " " + text;
    ImsiThen(imsi, text);
  }

  lemma GsmCommand(arg: string)
    ensures var cmd := GSM_REQ + arg; !(SIM_REQ <= cmd) && GSM_REQ <= cmd && cmd[13..] == arg
  {
    assert (GSM_REQ + arg)[0] == 'G' && SIM_REQ[0] == 'S';
  }

  /**
    A GSM request for a known IMSI is answered RAND by RAND, for the first three of
    them, with Kc and SRES of each; it fails when one of these is no RAND. Nothing
    in the gateway changes.
   */
  lemma GsmRequestAnswered(cfg: Config, st: Hlr, imsi: string, text: string, rands: seq<Block16>, tail: string,
                           draw: Randomness)
    requires cfg.Valid() && st.Valid() && ' ' !in imsi && 14 + |imsi| < 1000
    requires FindSubscriber(st.subs, imsi) < |st.subs|
    ensures var m := st.subs[FindSubscriber(st.subs, imsi)];
            var (st', reply) := Step(cfg, st, "GSM-AUTH-REQ " + imsi + " " + text, draw);
            && st' == st
            && (HasBadRand(text, rands, 3) ==> reply == Error)
            && (rands != [] && SpellsRands(text, rands, tail) && (|rands| < 3 ==> tail == "" || tail[0] != ':') ==>
                  && reply.GsmAuths? && reply.imsi == imsi && |reply.auths| == Least(3, |rands|)
                  && AnswersTo(cfg.alg, m, rands, reply.auths))
  {
    var i := FindSubscriber(st.subs, imsi);
    GsmStepKnown(cfg, st, imsi, text, draw, i);
    if HasBadRand(text, rands, 3) {
      BadRandRefused(cfg, st.subs[i], text, rands, 3);
    }
    if rands != [] && SpellsRands(text, rands, tail) && (|rands| < 3 ==> tail == "" || tail[0] != ':') {
      RandsAnswered(cfg, st.subs[i], text, rands, tail, 3);
    }
  }

  /** A GSM request without RANDs is an error; for an unknown IMSI it fails, if there is room to say so. */
  lemma GsmRequestRefused(cfg: Config, st: Hlr, imsi: string, text: string, draw: Randomness)
    requires cfg.Valid() && st.Valid() && ' ' !in imsi
    ensures Step(cfg, st, "GSM-AUTH-REQ " + imsi, draw) == (st, Error)
    ensures (forall j :: 0 <= j < |st.subs| ==> st.subs[j].imsi != imsi) ==>
              Step(cfg, st, "GSM-AUTH-REQ " + imsi + " " + text, draw)
              == (st, if |imsi| < 978 then GsmFailure(imsi) else Error)
  {
    GsmCommand(imsi);
    GsmCommand(imsi + " " + text);
    assert GSM_REQ + (imsi + " " + text) == "GSM-AUTH-REQ " + imsi + " " + text;
    IndexOfIs(imsi, ' ', |imsi|);
    ImsiThen(imsi, text);
  }

  // ---- what an AKA challenge carries -----------------------------------------------------------

  /** AUTN byte by byte, and the keys of f2345. */
  ghost predicate VectorOf(f: Keys, macs: Macs, amf: Amf, sqn: Sqn6, v: Vector)
  {
    && (forall b :: 0 <= b < 6 ==> v.autn[b] == Xor(sqn[b], f.ak[b]))
    && v.autn[6..8] == amf && v.autn[8..] == macs.macA
    && v.ik == f.ik && v.ck == f.ck && v.res == f.res
  }

  /** A vector conceals the SQN with AK, tags it with f1, and has the keys and RES of the RAND, or there is none. */
  lemma GeneratedVector(alg: Algorithms, opc: Block16, amf: Amf, k: Block16, sqn: Sqn6, rand: Block16)
    ensures var v, macs, keys := Generate(alg, opc, amf, k, sqn, rand), alg.f1(opc, k, rand, sqn, amf),
                                 alg.f2345(opc, k, rand);
            && (v == None <==> macs == None || keys == None)
            && (v.Some? ==> VectorOf(keys.value, macs.value, amf, sqn, v.value))
  {
    var v, macs, keys := Generate(alg, opc, amf, k, sqn, rand), alg.f1(opc, k, rand, sqn, amf), alg.f2345(opc, k, rand);
    if v.Some? {
      var autn, x := v.value.autn, XorBytes(sqn, keys.value.ak);
      assert autn[..6] == x && autn[6..8] == amf && autn[8..] == macs.value.macA;
      forall b | 0 <= b < 6
        ensures autn[b] == Xor(sqn[b], keys.value.ak[b])
      {
        XorBytesAt(sqn, keys.value.ak, b);
        assert autn[b] == autn[..6][b];
      }
    }
  }

  // ---- AKA requests that get no challenge ---------------------------------------------------------

  /**
    After any run an AKA request for an unknown IMSI fails, if there is room to say
    so, and one without randomness is an error; neither changes anything.
   */
  lemma AkaRequestRefused(cfg: Config, st: Hlr, reqs: seq<Request>, imsi: string, draw: Randomness)
    requires cfg.Valid() && st.Valid()
    ensures var now := Run(cfg, st, reqs);
            && ((forall j :: 0 <= j < |st.subs| ==> st.subs[j].imsi != imsi) ==>
                  Step(cfg, now, "AKA-REQ-AUTH " + imsi, draw)
                  == (now, if |imsi| < 978 then AkaFailure(imsi) else Error))
            && ((exists j :: 0 <= j < |st.subs| && st.subs[j].imsi == imsi) && draw(0) == None ==>
                  Step(cfg, now, "AKA-REQ-AUTH " + imsi, draw) == (now, Error))
  {
    RunFollowsHistory(cfg, st, reqs);
    SameIdentitiesFind(st.subs, Run(cfg, st, reqs).subs, imsi);
    StepIsAkaReq(cfg, Run(cfg, st, reqs), imsi, draw);
  }

  /**
    An IMSI that leaves no room in the reply is an error for every request; an AKA
    request for one that is known has used up an SQN all the same.
   */
  lemma LongImsiIsError(cfg: Config, st: Hlr, imsi: string, text: string, draw: Randomness)
    requires cfg.Valid() && st.Valid() && |imsi| >= 986
    ensures ' ' !in imsi ==> Step(cfg, st, "SIM-REQ-AUTH " + imsi, draw) == (st, Error)
    ensures ' ' !in imsi ==> Step(cfg, st, "GSM-AUTH-REQ " + imsi + " " + text, draw) == (st, Error)
    ensures var i, (st', reply) := FindSubscriber(st.subs, imsi), Step(cfg, st, "AKA-REQ-AUTH " + imsi, draw);
            && reply == Error
            && if i == |st.subs| || draw(0) == None then st' == st
               else
                 var m := st.subs[i];
                 st' == st.(subs := st.subs[i := m.(sqn := NextSqn(m.sqn, cfg.indLen))], changed := true)
  {
    if ' ' !in imsi {
      LongSimRequest(cfg, st, imsi, draw);
      LongGsmRequest(cfg, st, imsi, text, draw);
    }
    StepIsAkaReq(cfg, st, imsi, draw);
    LongAkaRequest(cfg, st, imsi, draw, FindSubscriber(st.subs, imsi));
  }

  lemma LongSimRequest(cfg: Config, st: Hlr, imsi: string, draw: Randomness)
    requires cfg.Valid() && st.Valid() && |imsi| >= 986 && ' ' !in imsi
    ensures Step(cfg, st, "SIM-REQ-AUTH " + imsi, draw) == (st, Error)
  {
    BareRequestParses(imsi);
  }

  lemma LongGsmRequest(cfg: Config, st: Hlr, imsi: string, text: string, draw: Randomness)
    requires cfg.Valid() && st.Valid() && |imsi| >= 986 && ' ' !in imsi
    ensures Step(cfg, st, "GSM-AUTH-REQ " + imsi + " " + text, draw) == (st, Error)
  {
    GsmCommand(imsi + " " + text);
    assert GSM_REQ + (imsi + " " + text) == "GSM-AUTH-REQ " + imsi + " " + text;
    ImsiThen(imsi, text);
  }

  lemma LongAkaRequest(cfg: Config, st: Hlr, imsi: string, draw: Randomness, i: nat)
    requires cfg.Valid() && st.Valid() && |imsi| >= 986 && i == FindSubscriber(st.subs, imsi)
    ensures var (st', reply) := AkaReqAuthStep(cfg, st, imsi, draw);
            && reply == Error
            && if i == |st.subs| || draw(0) == None then st' == st
               else
                 var m := st.subs[i];
                 st' == st.(subs := st.subs[i := m.(sqn := NextSqn(m.sqn, cfg.indLen))], changed := true)
  {
  }

  // ---- resynchronisation -----------------------------------------------------------------------------

  /**
    An AUTS that conceals an SQN with AK* and carries a tag: the gateway takes the
    SQN over exactly when the tag is f1* of it with a zero AMF. It never replies.
   */
  lemma AutsBelievedIff(cfg: Config, st: Hlr, imsi: string, rand: Block16, f: Keys, sqn: Sqn6, tag: Block8,
                        draw: Randomness)
    requires cfg.Valid() && st.Valid() && ' ' !in imsi && FindSubscriber(st.subs, imsi) < |st.subs|
    requires var m := st.subs[FindSubscriber(st.subs, imsi)]; cfg.alg.f2345(m.opc, m.ki, rand) == Some(f)
    ensures var i := FindSubscriber(st.subs, imsi);
            var m := st.subs[i];
            var macs := cfg.alg.f1(m.opc, m.ki, rand, sqn, [0, 0]);
            var believed := macs.Some? && macs.value.macS == tag;
            var (st', reply) := Step(cfg, st, AutsCommand(imsi, XorBytes(sqn, f.akStar) + tag, rand), draw);
            && reply == NoResponse
            && st' == if believed then st.(subs := st.subs[i := m.(sqn := sqn)], changed := true) else st
  {
    var auts := XorBytes(sqn, f.akStar) + tag;
    XorBytesCancel(sqn, f.akStar);
    assert auts[..6] == XorBytes(sqn, f.akStar) && auts[6..] == tag;
    AutsCommandParses(imsi, auts, rand);
    CommandsDiffer(AutsCommand(imsi, auts, rand));
  }

  /** A text that does not begin with the hex digits of len bytes. */
  ghost predicate NoBytes(text: string, len: nat)
  {
    |text| < 2 * len || exists k :: 0 <= k < 2 * len && !IsHexChar(text[k])
  }

  lemma AutsArg(imsi: string, auts: string, rand: string)
    requires ' ' !in imsi && ' ' !in auts
    ensures ParseAutsArgs(imsi) == None && ParseAutsArgs(imsi + " " + auts) == None
    ensures NoBytes(auts, 14) || NoBytes(rand, 16) ==> ParseAutsArgs(imsi + " " + (auts + " " + rand)) == None
  {
    var rest := auts + " " + rand;
    IndexOfIs(imsi, ' ', |imsi|);
    ImsiThen(imsi, auts);
    ImsiThen(imsi, rest);
    ImsiThen(auts, rand);
    IndexOfIs(auts, ' ', |auts|);
    if NoBytes(auts, 14) {
      HexStr2BinRefuses(auts, 14);
    }
    if NoBytes(rand, 16) {
      HexStr2BinRefuses(rand, 16);
    }
  }

  lemma StepIsAuts(cfg: Config, st: Hlr, arg: string, draw: Randomness)
    requires cfg.Valid() && st.Valid()
    ensures Step(cfg, st, AKA_AUTS + arg, draw) == AkaAutsStep(cfg, st, arg)
  {
    var cmd := AKA_AUTS + arg;
    assert AKA_AUTS <= cmd && cmd[9..] == arg;
    CommandsDiffer(cmd);
  }

  /** An AUTS command without its fields, with bad hex in one of them or for an unknown IMSI is an error. */
  lemma AutsRefused(cfg: Config, st: Hlr, imsi: string, auts: string, rand: string, draw: Randomness)
    requires cfg.Valid() && st.Valid() && ' ' !in imsi && ' ' !in auts
    ensures Step(cfg, st, "AKA-AUTS " + imsi, draw) == (st, Error)
    ensures Step(cfg, st, "AKA-AUTS " + (imsi + " " + auts), draw) == (st, Error)
    ensures NoBytes(auts, 14) || NoBytes(rand, 16) || (forall j :: 0 <= j < |st.subs| ==> st.subs[j].imsi != imsi) ==>
              Step(cfg, st, "AKA-AUTS " + (imsi + " " + (auts + " " + rand)), draw) == (st, Error)
  {
    var rest := auts + " " + rand;
    AutsArg(imsi, auts, rand);
    StepIsAuts(cfg, st, imsi, draw);
    StepIsAuts(cfg, st, imsi + " " + auts, draw);
    StepIsAuts(cfg, st, imsi + " " + rest, draw);
    ImsiThen(imsi, rest);
  }

  /** A command of any other kind is an error and changes nothing. */
  lemma OtherCommand(cfg: Config, st: Hlr, cmd: string, draw: Randomness)
    requires cfg.Valid() && st.Valid()
    requires !("SIM-REQ-AUTH " <= cmd) && !("GSM-AUTH-REQ " <= cmd)
    requires !("AKA-REQ-AUTH " <= cmd) && !("AKA-AUTS " <= cmd)
    ensures Step(cfg, st, cmd, draw) == (st, Error)
  {
  }
}
