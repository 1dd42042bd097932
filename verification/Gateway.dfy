/**
  The HLR/AuC gateway: a subscriber list, a triplet list with its shared cursor,
  and the commands that read and change them. Each operation is specified as a
  function on the gateway state; the class carries out the same steps in place.
 */
module Gateway {
  import opened Bits
  import opened CStrings
  import opened Sqn
  import opened Milenage
  import opened TripletCursor

  datatype Subscriber = Subscriber(imsi: string, ki: Block16, opc: Block16, amf: Amf, sqn: Sqn6, resLen: nat)

  /** The gateway's global variables; lists are in traversal order. */
  datatype Hlr = Hlr(subs: seq<Subscriber>, triplets: seq<Triplet>, pos: nat, changed: bool) {
    predicate Valid() { pos <= |triplets| }
  }

  datatype Config = Config(alg: Algorithms, indLen: nat) {
    predicate Valid() { indLen <= MAX_IND_LEN }
  }

  /** Outcome number i of random_get_bytes while one command is processed. */
  type Randomness = nat -> Option<Block16>

  const MAX_CHAL: nat := 3
  const RESP_LEN: nat := 1000
  const RES_MIN_LEN: nat := 4

  datatype GsmChallenge = GsmChallenge(rand: seq<byte>, auth: Option<GsmAuth>)

  datatype Reply =
    | Error
    | SimAuths(imsi: string, auths: seq<GsmChallenge>)
    | SimTriplets(imsi: string, which: seq<nat>)
    | SimFailure(imsi: string)
    | GsmAuths(imsi: string, auths: seq<GsmChallenge>)
    | GsmFailure(imsi: string)
    | AkaVector(imsi: string, rand: Block16, vector: Option<Vector>, resLen: nat)
    | AkaFailure(imsi: string)
    | NoResponse

  // ---- subscriber lookup ----------------------------------------------------------

  /** The first subscriber with this IMSI in list order, or |subs|. */
  function FindSubscriber(subs: seq<Subscriber>, imsi: string): (i: nat)
    ensures i <= |subs|
    ensures i < |subs| ==> subs[i].imsi == imsi
    ensures forall j :: 0 <= j < i ==> subs[j].imsi != imsi
  {
    if subs == [] || subs[0].imsi == imsi then 0 else 1 + FindSubscriber(subs[1..], imsi)
  }

  lemma FoundAt(subs: seq<Subscriber>, imsi: string, i: nat)
    requires i <= |subs|
    requires forall j :: 0 <= j < i ==> subs[j].imsi != imsi
    requires i < |subs| ==> subs[i].imsi == imsi
    ensures FindSubscriber(subs, imsi) == i
  {
  }

  // ---- the operations on values ------------------------------------------------------

  function GsmChallengeFor(cfg: Config, m: Subscriber, rand: Block16): GsmChallenge
  {
    GsmChallenge(rand, GsmMilenage(cfg.alg, m.opc, m.ki, rand))
  }

  /** `left` challenges from draw number `at` on; none at all when one draw fails. */
  function DrawChallenges(cfg: Config, m: Subscriber, draw: Randomness, at: nat, left: nat)
    : (r: Option<seq<GsmChallenge>>)
    ensures r.Some? ==> |r.value| == left
    decreases left
  {
    if left == 0 then Some([])
    else
      match draw(at)
      case None => None
      case Some(rand) =>
        Prepend([GsmChallengeFor(cfg, m, rand)], DrawChallenges(cfg, m, draw, at + 1, left - 1))
  }

  /** The number of challenges a SIM request asks for: 1 to 3, 3 when unspecified. */
  function MaxChal(arg: string): (n: nat)
    ensures 1 <= n <= MAX_CHAL
  {
    var sp := IndexOf(arg, ' ');
    var n := if sp < |arg| then Atoi(arg[sp + 1..]) else MAX_CHAL;
    if n < 1 || n > MAX_CHAL then MAX_CHAL else n
  }

  function SimReqAuthStep(cfg: Config, st: Hlr, arg: string, draw: Randomness): (r: (Hlr, Reply))
    requires st.Valid()
    ensures r.0.Valid()
  {
    var imsi, n := arg[..IndexOf(arg, ' ')], MaxChal(arg);
    var i := FindSubscriber(st.subs, imsi);
    if 14 + |imsi| >= RESP_LEN then (st, Error)
    else if i < |st.subs| then
      match DrawChallenges(cfg, st.subs[i], draw, 0, n)
      case None => (st, Error)
      case Some(auths) => (st, SimAuths(imsi, auths))
    else
      var which := Lookups(st.triplets, st.pos, imsi, n);
      var st' := st.(pos := CursorAfterAll(st.triplets, st.pos, imsi, n));
      if which != [] then (st', SimTriplets(imsi, which))
      else if 14 + |imsi| + 8 >= RESP_LEN then (st', Error)
      else (st', SimFailure(imsi))
  }

  /** The answers to the colon-separated RANDs of a GSM-AUTH-REQ, at most `left`. */
  function AnswerRands(cfg: Config, m: Subscriber, text: string, left: nat): Option<seq<GsmChallenge>>
    decreases left
  {
    if left == 0 then Some([])
    else
      match HexStr2Bin(text, 16)
      case None => None
      case Some(rand) =>
        var one := [GsmChallengeFor(cfg, m, rand)];
        if |text| == 32 || text[32] != ':' then Some(one)
        else Prepend(one, AnswerRands(cfg, m, text[33..], left - 1))
  }

  function GsmAuthReqReply(cfg: Config, st: Hlr, arg: string): Reply
  {
    var sp := IndexOf(arg, ' ');
    var imsi := arg[..sp];
    if sp == |arg| || 14 + |imsi| >= RESP_LEN then Error
    else
      var i := FindSubscriber(st.subs, imsi);
      if i < |st.subs| then
        match AnswerRands(cfg, st.subs[i], arg[sp + 1..], MAX_CHAL)
        case None => Error
        case Some(auths) => GsmAuths(imsi, auths)
      else if 14 + |imsi| + 8 >= RESP_LEN then Error
      else GsmFailure(imsi)
  }

  /** RES is cut to the configured length when that is shorter than its 8 bytes. */
  function ResLength(vector: Option<Vector>, resLen: nat): nat
  {
    var full := if vector.Some? then 8 else 0;
    if RES_MIN_LEN <= resLen < full then resLen else full
  }

  function AkaReqAuthStep(cfg: Config, st: Hlr, imsi: string, draw: Randomness): (r: (Hlr, Reply))
    requires st.Valid() && cfg.Valid()
    ensures r.0.Valid()
  {
    var i := FindSubscriber(st.subs, imsi);
    if i < |st.subs| then
      if draw(0).None? then (st, Error)
      else
        var m := st.subs[i].(sqn := NextSqn(st.subs[i].sqn, cfg.indLen));
        var st' := st.(subs := st.subs[i := m], changed := true);
        var v := Generate(cfg.alg, m.opc, m.amf, m.ki, m.sqn, draw(0).value);
        (st', if 15 + |imsi| >= RESP_LEN then Error
              else AkaVector(imsi, draw(0).value, v, ResLength(v, m.resLen)))
    else (st, if 15 + |imsi| + 7 >= RESP_LEN then Error else AkaFailure(imsi))
  }

  datatype AutsArgs = AutsArgs(imsi: string, auts: Auts, rand: Block16)

  /** The fields of an AKA-AUTS command, when it has them. */
  function ParseAutsArgs(arg: string): Option<AutsArgs>
  {
    var sp := IndexOf(arg, ' ');
    if sp == |arg| then None
    else
      var rest := arg[sp + 1..];
      var sp2 := IndexOf(rest, ' ');
      if sp2 == |rest| then None
      else
        match (HexStr2Bin(rest[..sp2], 14), HexStr2Bin(rest[sp2 + 1..], 16))
        case (Some(auts), Some(rand)) => Some(AutsArgs(arg[..sp], auts, rand))
        case _ => None
  }

  function AkaAutsStep(cfg: Config, st: Hlr, arg: string): (r: (Hlr, Reply))
    requires st.Valid()
    ensures r.0.Valid()
  {
    match ParseAutsArgs(arg)
    case None => (st, Error)
    case Some(a) =>
      var i := FindSubscriber(st.subs, a.imsi);
      if i == |st.subs| then (st, Error)
      else
        match ValidateAuts(cfg.alg, st.subs[i].opc, st.subs[i].ki, a.rand, a.auts)
        case None => (st, NoResponse)
        case Some(sqn) => (st.(subs := st.subs[i := st.subs[i].(sqn := sqn)], changed := true), NoResponse)
  }

  const SIM_REQ: string := "SIM-REQ-AUTH "
  const GSM_REQ: string := "GSM-AUTH-REQ "
  const AKA_REQ: string := "AKA-REQ-AUTH "
  const AKA_AUTS: string := "AKA-AUTS "

  /** process_cmd: the new state and the reply to one command line. */
  function Step(cfg: Config, st: Hlr, cmd: string, draw: Randomness): (r: (Hlr, Reply))
    requires st.Valid() && cfg.Valid()
    ensures r.0.Valid() && |r.0.subs| == |st.subs|
  {
    if SIM_REQ <= cmd then SimReqAuthStep(cfg, st, cmd[13..], draw)
    else if GSM_REQ <= cmd then (st, GsmAuthReqReply(cfg, st, cmd[13..]))
    else if AKA_REQ <= cmd then AkaReqAuthStep(cfg, st, cmd[13..], draw)
    else if AKA_AUTS <= cmd then AkaAutsStep(cfg, st, cmd[9..])
    else (st, Error)
  }

  // ---- the gateway process ------------------------------------------------------------

  /** The walk along the subscriber list, up to the first entry with the IMSI. */
  method ScanList(subs: seq<Subscriber>, imsi: string) returns (i: nat)
    ensures i == FindSubscriber(subs, imsi)
  {
    i := 0;
    while i < |subs| && subs[i].imsi != imsi
      invariant 0 <= i <= |subs|
      invariant forall j :: 0 <= j < i ==> subs[j].imsi != imsi
    {
      i := i + 1;
    }
    FoundAt(subs, imsi, i);
  }

  class HlrAucGw {
    const cfg: Config
    var subs: seq<Subscriber>
    var triplets: seq<Triplet>
    var pos: nat
    var changed: bool

    ghost predicate Valid()
      reads this
    {
      cfg.Valid() && pos <= |triplets|
    }

    ghost function State(): (st: Hlr)
      reads this
      ensures Valid() ==> st.Valid()
    {
      Hlr(subs, triplets, pos, changed)
    }

    /** The cursor starts out NULL, whatever triplets were read. */
    constructor (cfg: Config, subs: seq<Subscriber>, triplets: seq<Triplet>)
      requires cfg.Valid()
      ensures Valid()
      ensures this.cfg == cfg && State() == Hlr(subs, triplets, |triplets|, false)
    {
      this.cfg := cfg;
      this.subs, this.triplets := subs, triplets;
      pos, changed := |triplets|, false;
    }

    method GetMilenage(imsi: string) returns (i: nat)
      ensures i == FindSubscriber(subs, imsi)
    {
      i := ScanList(subs, imsi);
    }

    method GetGsmTriplet(imsi: string) returns (g: Option<nat>)
      requires Valid()
      modifies this`pos
      ensures Valid()
      ensures g == NextTriplet(triplets, old(pos), imsi)
      ensures pos == CursorAfter(triplets, old(pos), imsi)
    {
      var i := pos;
      while i < |triplets|
        invariant pos == old(pos) <= i <= |triplets|
        invariant FirstMatch(triplets, imsi, old(pos), |triplets|) == FirstMatch(triplets, imsi, i, |triplets|)
      {
        if triplets[i].imsi == imsi {
          pos := i + 1;
          return Some(i);
        }
        i := i + 1;
      }
      i := 0;
      while i < |triplets| && i != pos
        invariant 0 <= i <= pos == old(pos)
        invariant FirstMatch(triplets, imsi, 0, old(pos)) == FirstMatch(triplets, imsi, i, old(pos))
        decreases |triplets| - i
      {
        if triplets[i].imsi == imsi {
          pos := i + 1;
          return Some(i);
        }
        i := i + 1;
      }
      return None;
    }

    /** The Milenage loop of sim_req_auth. */
    method DrawAuths(m: Subscriber, draw: Randomness, maxChal: nat) returns (r: Option<seq<GsmChallenge>>)
      ensures r == DrawChallenges(cfg, m, draw, 0, maxChal)
    {
      var auths: seq<GsmChallenge> := [];
      var count := 0;
      PrependNothing(DrawChallenges(cfg, m, draw, 0, maxChal));
      while count < maxChal
        invariant 0 <= count <= maxChal
        invariant DrawChallenges(cfg, m, draw, 0, maxChal)
                  == Prepend(auths, DrawChallenges(cfg, m, draw, count, maxChal - count))
      {
        match draw(count)
        case None => return None;
        case Some(rand) =>
          var c := GsmChallengeFor(cfg, m, rand);
          PrependNext(auths, c, DrawChallenges(cfg, m, draw, count + 1, maxChal - count - 1));
          auths := auths + [c];
          count := count + 1;
      }
      PrependLast(auths);
      return Some(auths);
    }

    /** The triplet loop of sim_req_auth. */
    method TakeTriplets(imsi: string, maxChal: nat) returns (which: seq<nat>)
      requires Valid()
      modifies this`pos
      ensures Valid()
      ensures which == Lookups(triplets, old(pos), imsi, maxChal)
      ensures pos == CursorAfterAll(triplets, old(pos), imsi, maxChal)
    {
      which := [];
      var count := 0;
      ghost var db, start := triplets, pos;
      while count < maxChal
        invariant 0 <= count <= maxChal && pos <= |db| && triplets == db && Valid()
        invariant Lookups(db, start, imsi, maxChal) == which + Lookups(db, pos, imsi, maxChal - count)
        invariant CursorAfterAll(db, start, imsi, maxChal) == CursorAfterAll(db, pos, imsi, maxChal - count)
      {
        ghost var was := pos;
        LookupsUnfold(db, was, imsi, maxChal - count);
        var g := GetGsmTriplet(imsi);
        if g.None? {
          return;
        }
        AppendAssociates(which, g.value, Lookups(db, pos, imsi, maxChal - count - 1));
        which := which + [g.value];
        count := count + 1;
      }
    }

    method SimReqAuth(arg: string, draw: Randomness) returns (reply: Reply)
      requires Valid()
      modifies this`pos
      ensures Valid()
      ensures (State(), reply) == SimReqAuthStep(cfg, old(State()), arg, draw)
    {
      var imsi, maxChal := arg[..IndexOf(arg, ' ')], MaxChal(arg);
      if 14 + |imsi| >= RESP_LEN {
        return Error;
      }
      var m := GetMilenage(imsi);
      if m < |subs| {
        var auths := DrawAuths(subs[m], draw, maxChal);
        return if auths.Some? then SimAuths(imsi, auths.value) else Error;
      }
      var which := TakeTriplets(imsi, maxChal);
      if which == [] {
        return if 14 + |imsi| + 8 >= RESP_LEN then Error else SimFailure(imsi);
      }
      return SimTriplets(imsi, which);
    }

    /** The loop over the RANDs of a GSM-AUTH-REQ. */
    method AnswerAll(m: Subscriber, rands: string) returns (r: Option<seq<GsmChallenge>>)
      ensures r == AnswerRands(cfg, m, rands, MAX_CHAL)
    {
      var text, auths: seq<GsmChallenge> := rands, [];
      PrependNothing(AnswerRands(cfg, m, rands, MAX_CHAL));
      var count := 0;
      while count < MAX_CHAL
        invariant 0 <= count <= MAX_CHAL
        invariant AnswerRands(cfg, m, rands, MAX_CHAL) == Prepend(auths, AnswerRands(cfg, m, text, MAX_CHAL - count))
      {
        match HexStr2Bin(text, 16)
        case None => return None;
        case Some(rand) =>
          var c := GsmChallengeFor(cfg, m, rand);
          if |text| == 32 || text[32] != ':' {
            return Some(auths + [c]);
          }
          PrependNext(auths, c, AnswerRands(cfg, m, text[33..], MAX_CHAL - count - 1));
          auths := auths + [c];
          text := text[33..];
          count := count + 1;
      }
      PrependLast(auths);
      return Some(auths);
    }

    method GsmAuthReq(arg: string) returns (reply: Reply)
      requires Valid()
      ensures reply == GsmAuthReqReply(cfg, State(), arg)
    {
      var sp := IndexOf(arg, ' ');
      if sp == |arg| {
        return Error;
      }
      var imsi := arg[..sp];
      if 14 + |imsi| >= RESP_LEN {
        return Error;
      }
      var m := GetMilenage(imsi);
      if m == |subs| {
        return if 14 + |imsi| + 8 >= RESP_LEN then Error else GsmFailure(imsi);
      }
      var auths := AnswerAll(subs[m], arg[sp + 1..]);
      return if auths.Some? then GsmAuths(imsi, auths.value) else Error;
    }

    method AkaReqAuth(imsi: string, draw: Randomness) returns (reply: Reply)
      requires Valid()
      modifies this`subs, this`changed
      ensures Valid()
      ensures (State(), reply) == AkaReqAuthStep(cfg, old(State()), imsi, draw)
    {
      var i := GetMilenage(imsi);
      if i == |subs| {
        return if 15 + |imsi| + 7 >= RESP_LEN then Error else AkaFailure(imsi);
      }
      match draw(0)
      case None => return Error;
      case Some(rand) =>
        var m := subs[i];
        var sqn := new byte[6](j requires 0 <= j < 6 => m.sqn[j]);
        assert sqn[..] == m.sqn;
        IncSqn(sqn, cfg.indLen);
        m := m.(sqn := sqn[..]);
        subs := subs[i := m];
        changed := true;
        var v := Generate(cfg.alg, m.opc, m.amf, m.ki, m.sqn, rand);
        return if 15 + |imsi| >= RESP_LEN then Error else AkaVector(imsi, rand, v, ResLength(v, m.resLen));
    }

    method AkaAuts(arg: string) returns (reply: Reply)
      requires Valid()
      modifies this`subs, this`changed
      ensures Valid()
      ensures (State(), reply) == AkaAutsStep(cfg, old(State()), arg)
    {
      var args := ParseAutsArgs(arg);
      match args
      case None => return Error;
      case Some(a) =>
        var i := GetMilenage(a.imsi);
        if i == |subs| {
          return Error;
        }
        var sqn := ValidateAuts(cfg.alg, subs[i].opc, subs[i].ki, a.rand, a.auts);
        if sqn.Some? {
          subs := subs[i := subs[i].(sqn := sqn.value)];
          changed := true;
        }
        return NoResponse;
    }

    method ProcessCmd(cmd: string, draw: Randomness) returns (reply: Reply)
      requires Valid()
      modifies this
      ensures Valid()
      ensures (State(), reply) == Step(cfg, old(State()), cmd, draw)
    {
      if SIM_REQ <= cmd {
        reply := SimReqAuth(cmd[13..], draw);
      } else if GSM_REQ <= cmd {
        reply := GsmAuthReq(cmd[13..]);
      } else if AKA_REQ <= cmd {
        reply := AkaReqAuth(cmd[13..], draw);
      } else if AKA_AUTS <= cmd {
        reply := AkaAuts(cmd[9..]);
      } else {
        reply := Error;
      }
    }
  }
}
