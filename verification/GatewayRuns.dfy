/**
  What holds over every run of gateway commands: which commands move a
  subscriber's SQN and to what value, that nothing else changes, that issued
  challenges are fresh, and that one resynchronisation restores service.
 */
module GatewayRuns {
  import opened Bits
  import opened ByteOrder
  import opened CStrings
  import opened Sqn
  import opened SqnFreshness
  import opened Milenage
  import opened TripletCursor
  import opened Gateway

  datatype Request = Request(cmd: string, draw: Randomness)

  /** The state after a sequence of commands. */
  function Run(cfg: Config, st: Hlr, reqs: seq<Request>): (r: Hlr)
    requires cfg.Valid() && st.Valid()
    ensures r.Valid() && |r.subs| == |st.subs|
    decreases |reqs|
  {
    if reqs == [] then st
    else
      var last := reqs[|reqs| - 1];
      Step(cfg, Run(cfg, st, reqs[..|reqs| - 1]), last.cmd, last.draw).0
  }

  /** The replies to a sequence of commands. */
  function Replies(cfg: Config, st: Hlr, reqs: seq<Request>): (r: seq<Reply>)
    requires cfg.Valid() && st.Valid()
    ensures |r| == |reqs|
    decreases |reqs|
  {
    if reqs == [] then []
    else
      var front, last := reqs[..|reqs| - 1], reqs[|reqs| - 1];
      Replies(cfg, st, front) + [Step(cfg, Run(cfg, st, front), last.cmd, last.draw).1]
  }

  /** The gateway serving one command after the other. */
  method ServeAll(gw: HlrAucGw, reqs: seq<Request>) returns (replies: seq<Reply>)
    requires gw.Valid()
    modifies gw
    ensures gw.Valid() && gw.State() == Run(gw.cfg, old(gw.State()), reqs)
    ensures replies == Replies(gw.cfg, old(gw.State()), reqs)
  {
    replies := [];
    ghost var st := gw.State();
    for n := 0 to |reqs|
      invariant gw.Valid() && gw.State() == Run(gw.cfg, st, reqs[..n])
      invariant replies == Replies(gw.cfg, st, reqs[..n])
    {
      assert reqs[..n + 1][..n] == reqs[..n];
      var reply := gw.ProcessCmd(reqs[n].cmd, reqs[n].draw);
      replies := replies + [reply];
    }
    assert reqs[..|reqs|] == reqs;
  }

  // ---- what one command does to one subscriber -----------------------------------------

  datatype Event = Quiet | Issue(rand: Block16) | Resync(sqn: Sqn6)

  /** The SQN that a correct AUTS in this command reports for subscriber j. */
  function ReportedSqn(cfg: Config, subs: seq<Subscriber>, cmd: string, j: nat): Option<Sqn6>
    requires j < |subs|
  {
    if !(AKA_AUTS <= cmd) then None
    else
      match ParseAutsArgs(cmd[9..])
      case None => None
      case Some(a) =>
        if FindSubscriber(subs, a.imsi) != j then None
        else ValidateAuts(cfg.alg, subs[j].opc, subs[j].ki, a.rand, a.auts)
  }

  /**
    What a command means for subscriber j: an AKA request for its IMSI that
    obtains randomness issues a challenge, a correct AUTS resynchronises,
    everything else leaves it alone.
   */
  function EventFor(cfg: Config, subs: seq<Subscriber>, req: Request, j: nat): Event
    requires j < |subs|
  {
    if AKA_REQ <= req.cmd && FindSubscriber(subs, req.cmd[13..]) == j && req.draw(0).Some? then
      Issue(req.draw(0).value)
    else
      match ReportedSqn(cfg, subs, req.cmd, j)
      case None => Quiet
      case Some(s) => Resync(s)
  }

  function Apply(m: Subscriber, e: Event, k: nat): Subscriber
    requires k <= MAX_IND_LEN
  {
    match e
    case Quiet => m
    case Issue(_) => m.(sqn := NextSqn(m.sqn, k))
    case Resync(s) => m.(sqn := s)
  }

  /** The same subscribers in the same order; only SQNs may differ. */
  ghost predicate SameIdentities(a: seq<Subscriber>, b: seq<Subscriber>)
  {
    |a| == |b| && forall j :: 0 <= j < |a| ==> b[j] == a[j].(sqn := b[j].sqn)
  }

  lemma CommandsDiffer(cmd: string)
    ensures AKA_REQ <= cmd ==> !(SIM_REQ <= cmd) && !(GSM_REQ <= cmd) && !(AKA_AUTS <= cmd)
    ensures AKA_AUTS <= cmd ==> !(SIM_REQ <= cmd) && !(GSM_REQ <= cmd)
  {
    assert AKA_REQ[0] == 'A' && AKA_REQ[4] == 'R' && AKA_AUTS[0] == 'A' && AKA_AUTS[4] == 'A';
    assert SIM_REQ[0] == 'S' && GSM_REQ[0] == 'G';
  }

  /** One command changes exactly the SQNs its events say, and nothing else. */
  lemma StepEffect(cfg: Config, st: Hlr, req: Request)
    requires cfg.Valid() && st.Valid()
    ensures var st' := Step(cfg, st, req.cmd, req.draw).0;
            && |st'.subs| == |st.subs|
            && (forall j :: 0 <= j < |st.subs| ==>
                  st'.subs[j] == Apply(st.subs[j], EventFor(cfg, st.subs, req, j), cfg.indLen))
            && st'.triplets == st.triplets
            && (st.changed ==> st'.changed) && (!st'.changed ==> st'.subs == st.subs)
  {
    CommandsDiffer(req.cmd);
  }

  lemma {:induction false} SameIdentitiesFind(a: seq<Subscriber>, b: seq<Subscriber>, imsi: string)
    requires SameIdentities(a, b)
    ensures FindSubscriber(a, imsi) == FindSubscriber(b, imsi)
  {
    FoundAt(b, imsi, FindSubscriber(a, imsi));
  }

  lemma SameIdentitiesEvents(cfg: Config, a: seq<Subscriber>, b: seq<Subscriber>, req: Request, j: nat)
    requires SameIdentities(a, b) && j < |a|
    ensures EventFor(cfg, a, req, j) == EventFor(cfg, b, req, j)
  {
    if AKA_REQ <= req.cmd {
      SameIdentitiesFind(a, b, req.cmd[13..]);
    }
    if AKA_AUTS <= req.cmd && ParseAutsArgs(req.cmd[9..]).Some? {
      SameIdentitiesFind(a, b, ParseAutsArgs(req.cmd[9..]).value.imsi);
    }
  }

  // ---- whole runs ------------------------------------------------------------------------

  /** The events of a run for subscriber j, read off the commands alone. */
  function History(cfg: Config, subs: seq<Subscriber>, reqs: seq<Request>, j: nat): (h: seq<Event>)
    requires j < |subs|
    ensures |h| == |reqs|
  {
    if reqs == [] then []
    else History(cfg, subs, reqs[..|reqs| - 1], j) + [EventFor(cfg, subs, reqs[|reqs| - 1], j)]
  }

  function ApplyAll(m: Subscriber, h: seq<Event>, k: nat): (r: Subscriber)
    requires k <= MAX_IND_LEN
    ensures r == m.(sqn := r.sqn)
  {
    if h == [] then m else Apply(ApplyAll(m, h[..|h| - 1], k), h[|h| - 1], k)
  }

  /**
    After any run every subscriber has its original IMSI, Ki, OPc, AMF and RES
    length, and an SQN that depends only on its own events.
   */
  lemma {:induction false} RunFollowsHistory(cfg: Config, st: Hlr, reqs: seq<Request>)
    requires cfg.Valid() && st.Valid()
    ensures var st' := Run(cfg, st, reqs);
            && SameIdentities(st.subs, st'.subs)
            && (forall j :: 0 <= j < |st.subs| ==>
                  st'.subs[j] == ApplyAll(st.subs[j], History(cfg, st.subs, reqs, j), cfg.indLen))
            && st'.triplets == st.triplets
            && (!st'.changed ==> st'.subs == st.subs)
  {
    if reqs != [] {
      var front, last := reqs[..|reqs| - 1], reqs[|reqs| - 1];
      RunFollowsHistory(cfg, st, front);
      var mid := Run(cfg, st, front);
      StepEffect(cfg, mid, last);
      forall j | 0 <= j < |st.subs|
        ensures Run(cfg, st, reqs).subs[j] == ApplyAll(st.subs[j], History(cfg, st.subs, reqs, j), cfg.indLen)
      {
        SameIdentitiesEvents(cfg, st.subs, mid.subs, last, j);
        var h := History(cfg, st.subs, reqs, j);
        assert h[..|h| - 1] == History(cfg, st.subs, front, j);
      }
    }
  }

  /** The SQN reported by the last resynchronisation, or the initial one. */
  function LastReported(s: Sqn6, h: seq<Event>): Sqn6
  {
    if h == [] then s
    else if h[|h| - 1].Resync? then h[|h| - 1].sqn
    else LastReported(s, h[..|h| - 1])
  }

  /** How many challenges were issued after the last resynchronisation. */
  function IssuedSince(h: seq<Event>): nat
  {
    if h == [] || h[|h| - 1].Resync? then 0
    else IssuedSince(h[..|h| - 1]) + (if h[|h| - 1].Issue? then 1 else 0)
  }

  /** The SQN after any history: the last report, advanced once per challenge. */
  lemma {:induction false} SqnAfterHistory(m: Subscriber, h: seq<Event>, k: nat)
    requires k <= MAX_IND_LEN
    ensures BeValue(ApplyAll(m, h, k).sqn) == Advance(BeValue(LastReported(m.sqn, h)), k, IssuedSince(h))
  {
    if h == [] {
      SqnBound(m.sqn);
      AdvanceNone(BeValue(m.sqn), k);
    } else {
      var front := h[..|h| - 1];
      SqnAfterHistory(m, front, k);
      match h[|h| - 1]
      case Quiet =>
      case Issue(_) =>
        NextSqnValue(ApplyAll(m, front, k).sqn, k);
        AdvanceCompose(BeValue(LastReported(m.sqn, front)), k, IssuedSince(front), 1);
      case Resync(s) =>
        SqnBound(s);
        AdvanceNone(BeValue(s), k);
    }
  }

  /**
    Over every run: the next challenge for subscriber j carries an SQN above the
    stored one and above the last reported one, exactly as long as SEQ has room
    for all challenges issued since that report.
   */
  lemma NextChallengeIncreases(cfg: Config, st: Hlr, reqs: seq<Request>, req: Request, j: nat)
    requires cfg.Valid() && st.Valid() && j < |st.subs|
    requires EventFor(cfg, st.subs, req, j).Issue?
    ensures var h := History(cfg, st.subs, reqs, j);
            var base := BeValue(LastReported(st.subs[j].sqn, h));
            var before, after := Run(cfg, st, reqs), Run(cfg, st, reqs + [req]);
            && (Seq(base, cfg.indLen) + IssuedSince(h) + 1 < SeqCount(cfg.indLen) ==>
                  BeValue(after.subs[j].sqn) > BeValue(before.subs[j].sqn) >= base)
            && (BeValue(after.subs[j].sqn) > BeValue(before.subs[j].sqn) <==>
                  Seq(BeValue(before.subs[j].sqn), cfg.indLen) + 1 < SeqCount(cfg.indLen))
  {
    var k, h := cfg.indLen, History(cfg, st.subs, reqs, j);
    ChallengeAdvances(cfg, st, reqs, req, j);
    RunFollowsHistory(cfg, st, reqs);
    SqnAfterHistory(st.subs[j], h, k);
    var s0, s1 := LastReported(st.subs[j].sqn, h), Run(cfg, st, reqs).subs[j].sqn;
    SqnBound(s0);
    SqnBound(s1);
    IncreaseIffRoom(BeValue(s1), k);
    RoomAfterIssues(BeValue(s0), k, IssuedSince(h));
  }

  lemma ChallengeAdvances(cfg: Config, st: Hlr, reqs: seq<Request>, req: Request, j: nat)
    requires cfg.Valid() && st.Valid() && j < |st.subs|
    requires EventFor(cfg, st.subs, req, j).Issue?
    ensures BeValue(Run(cfg, st, reqs + [req]).subs[j].sqn)
            == Advance(BeValue(Run(cfg, st, reqs).subs[j].sqn), cfg.indLen, 1)
  {
    var before := Run(cfg, st, reqs);
    assert (reqs + [req])[..|reqs|] == reqs;
    RunFollowsHistory(cfg, st, reqs);
    StepEffect(cfg, before, req);
    SameIdentitiesEvents(cfg, st.subs, before.subs, req, j);
    NextSqnValue(before.subs[j].sqn, cfg.indLen);
  }

  lemma RoomAfterIssues(base: nat, k: nat, n: nat)
    requires k <= MAX_IND_LEN && base < SQN_MOD
    ensures Seq(base, k) + n + 1 < SeqCount(k) ==>
              Advance(base, k, n) >= base && Seq(Advance(base, k, n), k) + 1 < SeqCount(k)
  {
    AdvanceNone(base, k);
    if Seq(base, k) + n + 1 < SeqCount(k) {
      AdvanceHalves(base, k, n);
      SmallMod(Seq(base, k) + n, SeqCount(k));
      if n > 0 {
        AdvanceMonotone(base, k, 0, n);
      }
    }
  }

  // ---- the challenges issued in a run ---------------------------------------------------------

  /** The SQNs of subscriber j's challenges, in the order they were issued. */
  function Issued(m: Subscriber, h: seq<Event>, k: nat): seq<Sqn6>
    requires k <= MAX_IND_LEN
  {
    if h == [] then []
    else
      var front := Issued(m, h[..|h| - 1], k);
      if h[|h| - 1].Issue? then front + [ApplyAll(m, h, k).sqn] else front
  }

  ghost predicate NoResync(h: seq<Event>) { forall i :: 0 <= i < |h| ==> !h[i].Resync? }

  lemma {:induction false} IssuedIsConsecutive(m: Subscriber, h: seq<Event>, k: nat)
    requires k <= MAX_IND_LEN && NoResync(h)
    ensures LastReported(m.sqn, h) == m.sqn && |Issued(m, h, k)| == IssuedSince(h)
    ensures forall t :: 0 <= t < |Issued(m, h, k)| ==>
              BeValue(Issued(m, h, k)[t]) == Advance(BeValue(m.sqn), k, t + 1)
  {
    if h != [] {
      IssuedIsConsecutive(m, h[..|h| - 1], k);
      SqnAfterHistory(m, h, k);
    }
  }

  /** The issued SQNs as the receiver splits them. */
  function IssuedHalves(issued: seq<Sqn6>, k: nat): (batch: seq<Received>)
    ensures |batch| == |issued|
  {
    seq(|issued|, t requires 0 <= t < |issued| => Halves(BeValue(issued[t]), k))
  }

  lemma HalvesOfConsecutive(issued: seq<Sqn6>, v: nat, k: nat)
    requires k <= MAX_IND_LEN
    requires forall t :: 0 <= t < |issued| ==> BeValue(issued[t]) == Advance(v, k, t + 1)
    ensures IssuedHalves(issued, k) == IssuedBatch(v, k, |issued|)
  {
    var a, b := IssuedHalves(issued, k), IssuedBatch(v, k, |issued|);
    forall t | 0 <= t < |issued|
      ensures a[t] == b[t]
    {
      assert BeValue(issued[t]) == Advance(v, k, t + 1);
    }
  }

  /**
    Between resynchronisations, whatever else the gateway is asked meanwhile, at
    most 2^IND-length challenges of one subscriber can reach its receiver in any
    order: each is fresh the first time and refused as a repetition.
   */
  lemma IssuedChallengesAreFresh(cfg: Config, st: Hlr, reqs: seq<Request>, j: nat, store: SeqStore, order: seq<nat>)
    requires cfg.Valid() && st.Valid() && j < |st.subs|
    requires NoResync(History(cfg, st.subs, reqs, j))
    requires var k, v := cfg.indLen, BeValue(st.subs[j].sqn);
             var n := |Issued(st.subs[j], History(cfg, st.subs, reqs, j), k)|;
             && n <= Pow2(k) == |store| && Seq(v, k) + n < SeqCount(k)
             && (forall i :: 0 <= i < |store| ==> store[i] <= Seq(v, k))
             && (forall i :: 0 <= i < |order| ==> order[i] < n)
    ensures var batch := IssuedHalves(Issued(st.subs[j], History(cfg, st.subs, reqs, j), cfg.indLen), cfg.indLen);
            forall i :: 0 <= i < |order| ==> (Verdicts(store, batch, order)[i] <==> order[i] !in order[..i])
  {
    var k, v, h := cfg.indLen, BeValue(st.subs[j].sqn), History(cfg, st.subs, reqs, j);
    var issued := Issued(st.subs[j], h, k);
    IssuedIsConsecutive(st.subs[j], h, k);
    HalvesOfConsecutive(issued, v, k);
    BatchFreshInAnyOrder(store, k, v, |issued|, order);
  }

  // ---- resynchronisation ------------------------------------------------------------------------

  /** The command hostapd sends for a peer's AUTS. */
  function AutsCommand(imsi: string, auts: Auts, rand: Block16): string
  {
    AKA_AUTS + (imsi + " " + (HexPrint(auts) + " " + HexPrint(rand)))
  }

  lemma AutsCommandParses(imsi: string, auts: Auts, rand: Block16)
    requires ' ' !in imsi
    ensures AKA_AUTS <= AutsCommand(imsi, auts, rand)
    ensures ParseAutsArgs(AutsCommand(imsi, auts, rand)[9..]) == Some(AutsArgs(imsi, auts, rand))
  {
    var a, r := HexPrint(auts), HexPrint(rand);
    var rest := a + " " + r;
    var arg := imsi + " " + rest;
    assert AutsCommand(imsi, auts, rand)[9..] == arg;
    assert HexVal(' ') == -1;
    IndexOfIs(arg, ' ', |imsi|);
    assert arg[..|imsi|] == imsi && arg[|imsi| + 1..] == rest;
    IndexOfIs(rest, ' ', |a|);
    assert rest[..|a|] == a && rest[|a| + 1..] == r;
    HexRoundTrip(auts, "");
    HexRoundTrip(rand, "");
    assert a + "" == a && r + "" == r;
  }

  lemma {:induction false} QuietHistory(m: Subscriber, h: seq<Event>, k: nat)
    requires k <= MAX_IND_LEN
    requires forall i :: 0 <= i < |h| ==> h[i].Quiet?
    ensures ApplyAll(m, h, k) == m
  {
    if h != [] {
      QuietHistory(m, h[..|h| - 1], k);
    }
  }

  /**
    When a peer answers any challenge with a synchronisation failure, passing its
    AUTS to the gateway and asking again yields a challenge the peer accepts with
    the gateway's own keys, whatever other commands come in between, if and only
    if the peer's SEQ is not the last one.
   */
  lemma ResyncRestoresService(cfg: Config, st: Hlr, imsi: string, peer: Sqn6, rand: Block16, autn: Block16,
                              draw0: Randomness, others: seq<Request>, draw: Randomness)
    requires cfg.Valid() && st.Valid() && ' ' !in imsi && 15 + |imsi| < RESP_LEN
    requires var j := FindSubscriber(st.subs, imsi);
             && j < |st.subs|
             && Check(cfg.alg, st.subs[j].opc, st.subs[j].ki, peer, rand, autn).SyncFailure?
             && (forall i :: 0 <= i < |others| ==> EventFor(cfg, st.subs, others[i], j).Quiet?)
    requires draw(0).Some?
    ensures var j := FindSubscriber(st.subs, imsi);
            var m := st.subs[j];
            var auts := Check(cfg.alg, m.opc, m.ki, peer, rand, autn).auts;
            var st1 := Step(cfg, st, AutsCommand(imsi, auts, rand), draw0).0;
            var reply := Step(cfg, Run(cfg, st1, others), AKA_REQ + imsi, draw).1;
            && reply.AkaVector? && reply.rand == draw(0).value
            && (reply.vector.Some? ==>
                  var v := reply.vector.value;
                  Check(cfg.alg, m.opc, m.ki, peer, reply.rand, v.autn) == Accepted(v.ik, v.ck, v.res)
                  <==> Seq(BeValue(peer), cfg.indLen) + 1 < SeqCount(cfg.indLen))
  {
    var j := FindSubscriber(st.subs, imsi);
    var m := st.subs[j];
    var auts := Check(cfg.alg, m.opc, m.ki, peer, rand, autn).auts;
    AutsOfSyncFailure(cfg.alg, m.opc, m.ki, peer, rand, autn);
    AutsCommandParses(imsi, auts, rand);
    var req := Request(AutsCommand(imsi, auts, rand), draw0);
    AutsSetsSqn(cfg, st, req, j, imsi, auts, rand, peer);
    var st1 := Step(cfg, st, req.cmd, draw0).0;
    QuietRun(cfg, st, st1, others, j);
    var st2 := Run(cfg, st1, others);
    AkaReplyOf(cfg, st2, imsi, draw);
    SameIdentitiesFind(st.subs, st2.subs, imsi);
    var next := NextSqn(peer, cfg.indLen);
    var vec := Generate(cfg.alg, m.opc, m.amf, m.ki, next, draw(0).value);
    if vec.Some? {
      CheckOfGenerated(cfg.alg, m.opc, m.amf, m.ki, next, draw(0).value, peer);
      NextSqnValue(peer, cfg.indLen);
      SqnBound(peer);
      IncreaseIffRoom(BeValue(peer), cfg.indLen);
    }
  }

  lemma AutsSetsSqn(cfg: Config, st: Hlr, req: Request, j: nat, imsi: string, auts: Auts, rand: Block16, peer: Sqn6)
    requires cfg.Valid() && st.Valid() && FindSubscriber(st.subs, imsi) == j < |st.subs|
    requires AKA_AUTS <= req.cmd && ParseAutsArgs(req.cmd[9..]) == Some(AutsArgs(imsi, auts, rand))
    requires ValidateAuts(cfg.alg, st.subs[j].opc, st.subs[j].ki, rand, auts) == Some(peer)
    ensures Step(cfg, st, req.cmd, req.draw).0.subs == st.subs[j := st.subs[j].(sqn := peer)]
  {
    CommandsDiffer(req.cmd);
  }

  lemma QuietRun(cfg: Config, st: Hlr, st1: Hlr, others: seq<Request>, j: nat)
    requires cfg.Valid() && st1.Valid() && SameIdentities(st.subs, st1.subs) && j < |st.subs|
    requires forall i :: 0 <= i < |others| ==> EventFor(cfg, st.subs, others[i], j).Quiet?
    ensures SameIdentities(st.subs, Run(cfg, st1, others).subs)
    ensures Run(cfg, st1, others).subs[j] == st1.subs[j]
  {
    RunFollowsHistory(cfg, st1, others);
    forall i | 0 <= i < |others|
      ensures EventFor(cfg, st1.subs, others[i], j).Quiet?
    {
      SameIdentitiesEvents(cfg, st.subs, st1.subs, others[i], j);
    }
    HistoryAt(cfg, st1.subs, others, j);
    QuietHistory(st1.subs[j], History(cfg, st1.subs, others, j), cfg.indLen);
  }

  lemma {:induction false} HistoryAt(cfg: Config, subs: seq<Subscriber>, reqs: seq<Request>, j: nat)
    requires j < |subs|
    ensures forall i :: 0 <= i < |reqs| ==> History(cfg, subs, reqs, j)[i] == EventFor(cfg, subs, reqs[i], j)
  {
    if reqs != [] {
      HistoryAt(cfg, subs, reqs[..|reqs| - 1], j);
    }
  }

  lemma AkaStepReply(cfg: Config, st: Hlr, imsi: string, draw: Randomness, i: nat)
    requires cfg.Valid() && st.Valid() && 15 + |imsi| < RESP_LEN && draw(0).Some?
    requires i == FindSubscriber(st.subs, imsi) < |st.subs|
    ensures var m, reply := st.subs[i], AkaReqAuthStep(cfg, st, imsi, draw).1;
            && reply.AkaVector? && reply.rand == draw(0).value
            && reply.vector == Generate(cfg.alg, m.opc, m.amf, m.ki, NextSqn(m.sqn, cfg.indLen), draw(0).value)
            && reply.resLen == (if reply.vector.None? then 0 else if 4 <= m.resLen <= 7 then m.resLen else 8)
  {
  }

  /** The reply to an AKA request carries the vector for the advanced SQN. */
  lemma AkaReplyOf(cfg: Config, st: Hlr, imsi: string, draw: Randomness)
    requires cfg.Valid() && st.Valid() && 15 + |imsi| < RESP_LEN && draw(0).Some?
    requires FindSubscriber(st.subs, imsi) < |st.subs|
    ensures var m := st.subs[FindSubscriber(st.subs, imsi)];
            var reply := Step(cfg, st, AKA_REQ + imsi, draw).1;
            && reply.AkaVector? && reply.rand == draw(0).value
            && reply.vector == Generate(cfg.alg, m.opc, m.amf, m.ki, NextSqn(m.sqn, cfg.indLen), draw(0).value)
            && reply.resLen == (if reply.vector.None? then 0 else if 4 <= m.resLen <= 7 then m.resLen else 8)
  {
    StepIsAkaReq(cfg, st, imsi, draw);
    AkaStepReply(cfg, st, imsi, draw, FindSubscriber(st.subs, imsi));
  }

  /**
    After any run, the challenge for a subscriber carries the last reported SQN
    advanced once for itself and for every challenge issued since, and any peer
    accepts it with the gateway's keys if and only if its own SQN is below that.
    RES has its 8 bytes unless the subscriber is configured for 4 to 7 of them.
   */
  lemma ChallengeAfterRun(cfg: Config, st: Hlr, reqs: seq<Request>, imsi: string, draw: Randomness, peer: Sqn6)
    requires cfg.Valid() && st.Valid() && 15 + |imsi| < RESP_LEN && draw(0).Some?
    requires FindSubscriber(st.subs, imsi) < |st.subs|
    ensures var j := FindSubscriber(st.subs, imsi);
            var m, h := st.subs[j], History(cfg, st.subs, reqs, j);
            var value := Advance(BeValue(LastReported(m.sqn, h)), cfg.indLen, IssuedSince(h) + 1);
            var reply := Step(cfg, Run(cfg, st, reqs), AKA_REQ + imsi, draw).1;
            && reply.AkaVector? && reply.rand == draw(0).value
            && reply.vector == Generate(cfg.alg, m.opc, m.amf, m.ki, BeBytes(value, 6), reply.rand)
            && reply.resLen == (if reply.vector.None? then 0 else if 4 <= m.resLen <= 7 then m.resLen else 8)
            && (reply.vector.Some? ==>
                  var v := reply.vector.value;
                  Check(cfg.alg, m.opc, m.ki, peer, reply.rand, v.autn) == Accepted(v.ik, v.ck, v.res)
                  <==> BeValue(peer) < value)
  {
    var j := FindSubscriber(st.subs, imsi);
    var m, h := st.subs[j], History(cfg, st.subs, reqs, j);
    var value := Advance(BeValue(LastReported(m.sqn, h)), cfg.indLen, IssuedSince(h) + 1);
    VectorAfterRun(cfg, st, reqs, imsi, draw, j, h, value);
    AcceptedIffNewer(cfg.alg, m, BeBytes(value, 6), draw(0).value, peer);
  }

  lemma VectorAfterRun(cfg: Config, st: Hlr, reqs: seq<Request>, imsi: string, draw: Randomness, j: nat, h: seq<Event>,
                       value: nat)
    requires cfg.Valid() && st.Valid() && 15 + |imsi| < RESP_LEN && draw(0).Some?
    requires j == FindSubscriber(st.subs, imsi) < |st.subs| && h == History(cfg, st.subs, reqs, j)
    requires value == Advance(BeValue(LastReported(st.subs[j].sqn, h)), cfg.indLen, IssuedSince(h) + 1)
    ensures var m, reply := st.subs[j], Step(cfg, Run(cfg, st, reqs), AKA_REQ + imsi, draw).1;
            && reply.AkaVector? && reply.rand == draw(0).value && BeValue(BeBytes(value, 6)) == value
            && reply.vector == Generate(cfg.alg, m.opc, m.amf, m.ki, BeBytes(value, 6), reply.rand)
            && reply.resLen == (if reply.vector.None? then 0 else if 4 <= m.resLen <= 7 then m.resLen else 8)
  {
    ReplyAfterRun(cfg, st, reqs, imsi, draw, j, h);
    NextAfterHistory(st.subs[j], h, cfg.indLen);
  }

  lemma AcceptedIffNewer(alg: Algorithms, m: Subscriber, next: Sqn6, rand: Block16, peer: Sqn6)
    ensures var vec := Generate(alg, m.opc, m.amf, m.ki, next, rand);
            vec.Some? ==>
              var v := vec.value;
              Check(alg, m.opc, m.ki, peer, rand, v.autn) == Accepted(v.ik, v.ck, v.res)
              <==> BeValue(peer) < BeValue(next)
  {
    if Generate(alg, m.opc, m.amf, m.ki, next, rand).Some? {
      CheckOfGenerated(alg, m.opc, m.amf, m.ki, next, rand, peer);
    }
  }

  lemma ReplyAfterRun(cfg: Config, st: Hlr, reqs: seq<Request>, imsi: string, draw: Randomness, j: nat, h: seq<Event>)
    requires cfg.Valid() && st.Valid() && 15 + |imsi| < RESP_LEN && draw(0).Some?
    requires j == FindSubscriber(st.subs, imsi) < |st.subs| && h == History(cfg, st.subs, reqs, j)
    ensures var m, reply := st.subs[j], Step(cfg, Run(cfg, st, reqs), AKA_REQ + imsi, draw).1;
            && reply.AkaVector? && reply.rand == draw(0).value
            && reply.vector == Generate(cfg.alg, m.opc, m.amf, m.ki,
                                        NextSqn(ApplyAll(m, h, cfg.indLen).sqn, cfg.indLen), reply.rand)
            && reply.resLen == (if reply.vector.None? then 0 else if 4 <= m.resLen <= 7 then m.resLen else 8)
  {
    RunFollowsHistory(cfg, st, reqs);
    SameIdentitiesFind(st.subs, Run(cfg, st, reqs).subs, imsi);
    AkaReplyOf(cfg, Run(cfg, st, reqs), imsi, draw);
  }

  lemma NextAfterHistory(m: Subscriber, h: seq<Event>, k: nat)
    requires k <= MAX_IND_LEN
    ensures var value := Advance(BeValue(LastReported(m.sqn, h)), k, IssuedSince(h) + 1);
            NextSqn(ApplyAll(m, h, k).sqn, k) == BeBytes(value, 6) && BeValue(BeBytes(value, 6)) == value
  {
    var s := ApplyAll(m, h, k).sqn;
    SqnAfterHistory(m, h, k);
    AdvanceCompose(BeValue(LastReported(m.sqn, h)), k, IssuedSince(h), 1);
    NextSqnValue(s, k);
  }

  lemma StepIsAkaReq(cfg: Config, st: Hlr, imsi: string, draw: Randomness)
    requires cfg.Valid() && st.Valid()
    ensures Step(cfg, st, AKA_REQ + imsi, draw) == AkaReqAuthStep(cfg, st, imsi, draw)
  {
    var cmd := AKA_REQ + imsi;
    assert AKA_REQ <= cmd;
    CommandsDiffer(cmd);
    assert cmd[13..] == imsi;
  }
}
