/**
  The argument parser of scheduled scans: a five-state machine over the tokens of
  the command line. A token that cannot continue a list is handed back to the
  top level unconsumed. The grammar below it reads whole clauses; the machine
  accepts exactly the consistent clause lists and builds exactly their message.
 */
module SchedScan {
  import opened Bits
  import opened CStrings
  import opened Netlink

  const EINVAL: int := -22

  const SCHED_SCAN_INTERVAL: nat := 119
  const SCHED_SCAN_DELAY: nat := 220
  const SCHED_SCAN_MATCH: nat := 132
  const SCAN_SSIDS: nat := 45
  const SCAN_FREQUENCIES: nat := 44
  const SCHED_SCAN_PLANS: nat := 225
  const SCAN_FLAGS: nat := 158
  const ATTR_MAC: nat := 6
  const ATTR_MAC_MASK: nat := 215
  const PLAN_INTERVAL: nat := 1
  const PLAN_ITERATIONS: nat := 2
  const MATCH_SSID: nat := 1
  const RANDOM_ADDR: nat := 8

  /** A scan plan; 0 iterations when none were given. */
  datatype Plan = Plan(interval: nat, iterations: nat)

  datatype Address = Address(mac: seq<byte>, mask: seq<byte>)

  datatype Keyword =
    | KInterval | KPlans | KDelay | KMatches | KFreqs | KActive | KPassive | KRandom | KSsid | KForeign

  /** How single tokens are read; None where the code reports an error. */
  datatype Readers = Readers(
    dec: string -> Option<nat>,
    plan: string -> Option<Plan>,
    random: string -> Option<Option<Address>>,
    keyword: string -> Keyword)

  function KeywordOf(s: string): Keyword
  {
    if s == "interval" then KInterval
    else if s == "scan_plans" then KPlans
    else if s == "delay" then KDelay
    else if s == "matches" then KMatches
    else if s == "freqs" then KFreqs
    else if s == "active" then KActive
    else if s == "passive" then KPassive
    else if "randomise" <= s || "randomize" <= s then KRandom
    else if s == "ssid" then KSsid
    else KForeign
  }

  /** Words that open a clause; any other word at the top level is not for this parser. */
  predicate OpensClause(kw: Keyword) { !kw.KSsid? && !kw.KForeign? }

  // ---- the machine --------------------------------------------------------------------

  datatype Mode = TopLevel | Match | Freqs | Active | Plans

  datatype State = State(
    mode: Mode, i: nat, interval: nat, delay: nat, random: bool,
    haveMatch: bool, haveFreqs: bool, haveSsids: bool, haveActive: bool, havePassive: bool, havePlans: bool,
    msg: seq<Attr>, matchset: seq<Attr>, freqs: seq<Attr>, ssids: seq<Attr>, plans: seq<Attr>)

  function Initial(msg: seq<Attr>): State
  {
    State(TopLevel, 0, 0, 0, false, false, false, false, false, false, false, msg, [], [], [], [])
  }

  datatype Outcome = Go(next: State, rest: seq<string>) | Stop(code: int, rest: seq<string>)

  /** The measure that proves the loop ends: tokens left, then not being at the top level. */
  ghost predicate Progress(o: Outcome, st: State, v: seq<string>)
  {
    o.Go? ==> |o.rest| < |v| || (o.rest == v && o.next.mode == TopLevel && st.mode != TopLevel)
  }

  function TopStep(rd: Readers, kw: Keyword, st: State, v: seq<string>): (o: Outcome)
    requires v != []
    ensures o.Go? ==> |o.rest| < |v|
  {
    match kw
    case KInterval =>
      if |v| == 1 then Stop(EINVAL, [])
      else if st.interval != 0 || st.havePlans then Stop(EINVAL, v[1..])
      else (
        match rd.dec(v[1])
        case None => Stop(EINVAL, v[1..])
        case Some(n) =>
          if n == 0 then Stop(EINVAL, v[1..])
          else Go(st.(interval := n, msg := st.msg + [U32(SCHED_SCAN_INTERVAL, n)]), v[2..]))
    case KPlans =>
      if st.havePlans || st.interval != 0 then Stop(EINVAL, v)
      else Go(st.(mode := Plans, havePlans := true, i := 0), v[1..])
    case KDelay =>
      if |v| == 1 then Stop(EINVAL, [])
      else if st.delay != 0 then Stop(EINVAL, v[1..])
      else (
        match rd.dec(v[1])
        case None => Stop(EINVAL, v[1..])
        case Some(n) => Go(st.(delay := n, msg := st.msg + [U32(SCHED_SCAN_DELAY, n)]), v[2..]))
    case KMatches =>
      if st.haveMatch then Stop(EINVAL, v) else Go(st.(mode := Match, i := 0), v[1..])
    case KFreqs =>
      if st.haveFreqs then Stop(EINVAL, v) else Go(st.(mode := Freqs, haveFreqs := true, i := 0), v[1..])
    case KActive =>
      if st.haveActive || st.havePassive then Stop(EINVAL, v)
      else Go(st.(mode := Active, haveActive := true, i := 0), v[1..])
    case KPassive =>
      if st.haveActive || st.havePassive then Stop(EINVAL, v) else Go(st.(havePassive := true), v[1..])
    case KRandom => (
      match rd.random(v[0])
      case None => Stop(1, v)
      case Some(a) => Go(st.(random := true, msg := st.msg + AddressAttrs(a)), v[1..]))
    case KSsid => Stop(0, v)
    case KForeign => Stop(0, v)
  }

  function AddressAttrs(a: Option<Address>): seq<Attr>
  {
    match a
    case None => []
    case Some(x) => [Bytes(ATTR_MAC, x.mac), Bytes(ATTR_MAC_MASK, x.mask)]
  }

  /** A token that does not continue a list: an error when the list is empty. */
  function HandBack(st: State, v: seq<string>): Outcome
  {
    if st.i == 0 then Stop(EINVAL, v) else Go(st.(mode := TopLevel), v)
  }

  function AddMatch(st: State, ssid: string): State
  {
    st.(matchset := st.matchset + [Nest(st.i, [Text(MATCH_SSID, ssid)])], haveMatch := true, i := st.i + 1)
  }

  function AddFreq(st: State, f: nat): State { st.(freqs := st.freqs + [U32(st.i, f)], i := st.i + 1) }

  function AddSsid(st: State, ssid: string): State
  {
    st.(ssids := st.ssids + [Text(MATCH_SSID, ssid)], haveSsids := true, i := st.i + 1)
  }

  function PlanAttr(p: Plan, id: nat): Attr
  {
    Nest(id, [U32(PLAN_INTERVAL, p.interval)] + if p.iterations != 0 then [U32(PLAN_ITERATIONS, p.iterations)] else [])
  }

  function AddPlan(st: State, p: Plan): State
  {
    st.(interval := p.interval, plans := st.plans + [PlanAttr(p, st.i + 1)], i := st.i + 1,
        mode := if p.iterations != 0 then st.mode else TopLevel)
  }

  /** One round of the loop. */
  function Step(rd: Readers, st: State, v: seq<string>): (o: Outcome)
    requires v != []
    ensures Progress(o, st, v)
  {
    match st.mode
    case TopLevel => TopStep(rd, rd.keyword(v[0]), st, v)
    case Match =>
      if v[0] != "ssid" then HandBack(st, v)
      else if |v| == 1 then Stop(EINVAL, [])
      else Go(AddMatch(st, v[1]), v[2..])
    case Freqs => (
      match rd.dec(v[0])
      case None => HandBack(st, v)
      case Some(f) => Go(AddFreq(st, f), v[1..]))
    case Active =>
      if v[0] != "ssid" then HandBack(st, v)
      else if |v| == 1 then Stop(EINVAL, [])
      else Go(AddSsid(st, v[1]), v[2..])
    case Plans =>
      match rd.plan(v[0])
      case None => Stop(EINVAL, v)
      case Some(p) => Go(AddPlan(st, p), v[1..])
  }

  function NestIf(cond: bool, id: nat, kids: seq<Attr>): seq<Attr> { if cond then [Nest(id, kids)] else [] }

  /** The puts after the loop. */
  function Finish(st: State): seq<Attr>
  {
    st.msg
    + NestIf(!st.havePassive, SCAN_SSIDS, if st.haveSsids then st.ssids else st.ssids + [Text(1, "")])
    + NestIf(st.haveFreqs, SCAN_FREQUENCIES, st.freqs)
    + NestIf(st.haveMatch, SCHED_SCAN_MATCH, st.matchset)
    + NestIf(st.havePlans, SCHED_SCAN_PLANS, st.plans)
    + (if st.random then [U32(SCAN_FLAGS, RANDOM_ADDR)] else [])
  }

  /** What the call returns: its error code, the arguments left, and the message. */
  datatype Result = Result(err: int, left: seq<string>, msg: seq<Attr>)

  function Run(rd: Readers, st: State, v: seq<string>): Result
    decreases |v|, if st.mode == TopLevel then 0 else 1
  {
    if v == [] then Result(0, [], Finish(st))
    else
      match Step(rd, st, v)
      case Stop(code, rest) => Result(code, rest, st.msg)
      case Go(next, rest) => Run(rd, next, rest)
  }

  /** parse_sched_scan: the loop over the arguments. */
  method ParseSchedScan(rd: Readers, msg: seq<Attr>, argv: seq<string>) returns (r: Result)
    ensures r == Run(rd, Initial(msg), argv)
  {
    var st, v := Initial(msg), argv;
    while v != []
      invariant Run(rd, Initial(msg), argv) == Run(rd, st, v)
      decreases |v|, if st.mode == TopLevel then 0 else 1
    {
      match Step(rd, st, v)
      case Stop(code, rest) =>
        return Result(code, rest, st.msg);
      case Go(next, rest) =>
        st, v := next, rest;
    }
    return Result(0, [], Finish(st));
  }

  // ---- the grammar ----------------------------------------------------------------------

  datatype Clause =
    | IntervalClause(seconds: nat)
    | DelayClause(seconds: nat)
    | PlansClause(plans: seq<Plan>)
    | MatchesClause(ssids: seq<string>)
    | FreqsClause(freqs: seq<nat>)
    | ActiveClause(ssids: seq<string>)
    | PassiveClause
    | RandomClause(address: Option<Address>)

  /** What a list reads, and the tokens after it. */
  datatype Read<T> = Bad | Read(value: T, rest: seq<string>)

  function Cons<T>(x: T, r: Read<seq<T>>): Read<seq<T>>
  {
    if r.Bad? then Bad else Read([x] + r.value, r.rest)
  }

  /** As many `ssid <name>` pairs as follow. */
  function ReadSsids(v: seq<string>): (r: Read<seq<string>>)
    ensures r.Read? ==> |r.rest| <= |v|
    decreases |v|
  {
    if v == [] || v[0] != "ssid" then Read([], v)
    else if |v| == 1 then Bad
    else Cons(v[1], ReadSsids(v[2..]))
  }

  /** As many numbers as follow. */
  function ReadNumbers(dec: string -> Option<nat>, v: seq<string>): (r: Read<seq<nat>>)
    ensures r.Read? ==> |r.rest| <= |v|
    decreases |v|
  {
    if v == [] || dec(v[0]).None? then Read([], v) else Cons(dec(v[0]).value, ReadNumbers(dec, v[1..]))
  }

  /** Plans up to one without iterations or the end. */
  function ReadPlans(plan: string -> Option<Plan>, v: seq<string>): (r: Read<seq<Plan>>)
    ensures r.Read? ==> |r.rest| <= |v|
    decreases |v|
  {
    if v == [] then Read([], [])
    else
      match plan(v[0])
      case None => Bad
      case Some(p) => if p.iterations == 0 then Read([p], v[1..]) else Cons(p, ReadPlans(plan, v[1..]))
  }

  /** A list may be empty only at the end of the arguments. */
  predicate ListEnds<T(==)>(r: Read<seq<T>>) { r.Read? && (r.value == [] ==> r.rest == []) }

  function ReadAs(rd: Readers, kw: Keyword, v: seq<string>): (r: Read<Clause>)
    requires v != []
    ensures r.Read? ==> |r.rest| < |v|
  {
    match kw
    case KInterval =>
      if |v| == 1 || rd.dec(v[1]).None? || rd.dec(v[1]).value == 0 then Bad
      else Read(IntervalClause(rd.dec(v[1]).value), v[2..])
    case KDelay =>
      if |v| == 1 || rd.dec(v[1]).None? then Bad else Read(DelayClause(rd.dec(v[1]).value), v[2..])
    case KPlans =>
      var r := ReadPlans(rd.plan, v[1..]);
      if r.Bad? then Bad else Read(PlansClause(r.value), r.rest)
    case KMatches =>
      var r := ReadSsids(v[1..]);
      if !ListEnds(r) then Bad else Read(MatchesClause(r.value), r.rest)
    case KFreqs =>
      var r := ReadNumbers(rd.dec, v[1..]);
      if !ListEnds(r) then Bad else Read(FreqsClause(r.value), r.rest)
    case KActive =>
      var r := ReadSsids(v[1..]);
      if !ListEnds(r) then Bad else Read(ActiveClause(r.value), r.rest)
    case KPassive => Read(PassiveClause, v[1..])
    case KRandom => if rd.random(v[0]).None? then Bad else Read(RandomClause(rd.random(v[0]).value), v[1..])
    case KSsid => Bad
    case KForeign => Bad
  }

  function ReadClauses(rd: Readers, v: seq<string>): Option<seq<Clause>>
    decreases |v|
  {
    if v == [] then Some([])
    else
      match ReadAs(rd, rd.keyword(v[0]), v)
      case Bad => None
      case Read(c, rest) => Prepend([c], ReadClauses(rd, rest))
  }

  /** As many clauses as can be read, and the words they leave. */
  function ReadUntil(rd: Readers, v: seq<string>): (r: (seq<Clause>, seq<string>))
    ensures |r.1| <= |v|
    decreases |v|
  {
    if v == [] then ([], [])
    else
      match ReadAs(rd, rd.keyword(v[0]), v)
      case Bad => ([], v)
      case Read(c, rest) =>
        var (cs, left) := ReadUntil(rd, rest);
        ([c] + cs, left)
  }

  lemma {:induction false} ReadsWhole(rd: Readers, v: seq<string>)
    ensures ReadClauses(rd, v) == if ReadUntil(rd, v).1 == [] then Some(ReadUntil(rd, v).0) else None
    decreases |v|
  {
    if v != [] {
      var c := ReadAs(rd, rd.keyword(v[0]), v);
      if c.Read? {
        ReadsWhole(rd, c.rest);
      }
    }
  }

  /** Clauses that must not both be given. */
  predicate Clash(a: Clause, b: Clause)
  {
    match a
    case IntervalClause(_) => b.IntervalClause? || b.PlansClause?
    case PlansClause(_) => b.IntervalClause? || b.PlansClause?
    case DelayClause(n) => n != 0 && b.DelayClause?
    case MatchesClause(ss) => ss != [] && b.MatchesClause?
    case FreqsClause(_) => b.FreqsClause?
    case ActiveClause(_) => b.ActiveClause? || b.PassiveClause?
    case PassiveClause => b.ActiveClause? || b.PassiveClause?
    case RandomClause(_) => false
  }

  ghost predicate FitsAfter(cs: seq<Clause>, c: Clause) { forall i :: 0 <= i < |cs| ==> !Clash(cs[i], c) }

  /** No clause clashes with a later one. */
  ghost predicate Consistent(cs: seq<Clause>)
  {
    forall i, j :: 0 <= i < j < |cs| ==> !Clash(cs[i], cs[j])
  }

  // ---- the message of a clause list -------------------------------------------------------

  function Collect<T>(f: Clause -> seq<T>, cs: seq<Clause>): seq<T>
  {
    if cs == [] then [] else f(cs[0]) + Collect(f, cs[1..])
  }

  predicate Has(p: Clause -> bool, cs: seq<Clause>) { exists i :: 0 <= i < |cs| && p(cs[i]) }

  function DirectPuts(c: Clause): seq<Attr>
  {
    match c
    case IntervalClause(n) => [U32(SCHED_SCAN_INTERVAL, n)]
    case DelayClause(n) => [U32(SCHED_SCAN_DELAY, n)]
    case RandomClause(a) => AddressAttrs(a)
    case _ => []
  }

  function ScanSsids(c: Clause): seq<string> { if c.ActiveClause? then c.ssids else [] }
  function MatchSsids(c: Clause): seq<string> { if c.MatchesClause? then c.ssids else [] }
  function FreqsOf(c: Clause): seq<nat> { if c.FreqsClause? then c.freqs else [] }
  function PlansOf(c: Clause): seq<Plan> { if c.PlansClause? then c.plans else [] }

  function SsidAttrs(ss: seq<string>): seq<Attr> { seq(|ss|, k requires 0 <= k < |ss| => Text(MATCH_SSID, ss[k])) }

  /** Matches numbered from 0. */
  function MatchAttrs(ss: seq<string>): seq<Attr>
  {
    seq(|ss|, k requires 0 <= k < |ss| => Nest(k, [Text(MATCH_SSID, ss[k])]))
  }

  /** Frequencies numbered from 0. */
  function FreqAttrs(fs: seq<nat>): seq<Attr> { seq(|fs|, k requires 0 <= k < |fs| => U32(k, fs[k])) }

  /** Plans numbered from 1. */
  function PlanAttrs(ps: seq<Plan>): seq<Attr>
  {
    seq(|ps|, k requires 0 <= k < |ps| => PlanAttr(ps[k], k + 1))
  }

  predicate IsTimed(c: Clause) { c.IntervalClause? || c.PlansClause? }
  predicate IsDelay(c: Clause) { c.DelayClause? && c.seconds != 0 }
  predicate IsActive(c: Clause) { c.ActiveClause? }
  predicate IsPassive(c: Clause) { c.PassiveClause? }
  predicate IsFreqs(c: Clause) { c.FreqsClause? }
  predicate IsPlans(c: Clause) { c.PlansClause? }
  predicate IsRandom(c: Clause) { c.RandomClause? }

  /** All that matters of a clause list. */
  datatype Digest = Digest(
    direct: seq<Attr>, scan: seq<string>, match_: seq<string>, freqs: seq<nat>, plans: seq<Plan>,
    timed: bool, delayed: bool, active: bool, passive: bool, hasFreqs: bool, hasPlans: bool, random: bool)

  function DigestOf(cs: seq<Clause>): Digest
  {
    Digest(Collect(DirectPuts, cs), Collect(ScanSsids, cs), Collect(MatchSsids, cs), Collect(FreqsOf, cs),
           Collect(PlansOf, cs), Has(IsTimed, cs), Has(IsDelay, cs), Has(IsActive, cs), Has(IsPassive, cs),
           Has(IsFreqs, cs), Has(IsPlans, cs), Has(IsRandom, cs))
  }

  function DigestMessage(msg: seq<Attr>, d: Digest): seq<Attr>
  {
    msg + d.direct
    + NestIf(!d.passive, SCAN_SSIDS, SsidAttrs(if d.scan == [] then [""] else d.scan))
    + NestIf(d.hasFreqs, SCAN_FREQUENCIES, FreqAttrs(d.freqs))
    + NestIf(d.match_ != [], SCHED_SCAN_MATCH, MatchAttrs(d.match_))
    + NestIf(d.hasPlans, SCHED_SCAN_PLANS, PlanAttrs(d.plans))
    + (if d.random then [U32(SCAN_FLAGS, RANDOM_ADDR)] else [])
  }

  /** The message a clause list asks for. */
  function Message(msg: seq<Attr>, cs: seq<Clause>): seq<Attr> { DigestMessage(msg, DigestOf(cs)) }

  // ---- one more clause ------------------------------------------------------------------

  lemma {:induction false} CollectSnoc<T>(f: Clause -> seq<T>, cs: seq<Clause>, c: Clause)
    ensures Collect(f, cs + [c]) == Collect(f, cs) + f(c)
  {
    if cs == [] {
      assert [] + [c] == [c] && [c][1..] == [];
      assert f(c) + [] == f(c) && [] + f(c) == f(c);
    } else {
      CollectSnoc(f, cs[1..], c);
      assert (cs + [c])[1..] == cs[1..] + [c];
      assert f(cs[0]) + (Collect(f, cs[1..]) + f(c)) == f(cs[0]) + Collect(f, cs[1..]) + f(c);
    }
  }

  lemma HasSnoc(p: Clause -> bool, cs: seq<Clause>, c: Clause)
    ensures Has(p, cs + [c]) <==> Has(p, cs) || p(c)
  {
    var all := cs + [c];
    if p(c) {
      assert p(all[|cs|]);
    }
    if Has(p, cs) {
      var i :| 0 <= i < |cs| && p(cs[i]);
      assert p(all[i]);
    }
  }

  function Extend(d: Digest, c: Clause): Digest
  {
    Digest(d.direct + DirectPuts(c), d.scan + ScanSsids(c), d.match_ + MatchSsids(c), d.freqs + FreqsOf(c),
           d.plans + PlansOf(c), d.timed || IsTimed(c), d.delayed || IsDelay(c), d.active || IsActive(c),
           d.passive || IsPassive(c), d.hasFreqs || IsFreqs(c), d.hasPlans || IsPlans(c), d.random || IsRandom(c))
  }

  lemma DigestSnoc(cs: seq<Clause>, c: Clause)
    ensures DigestOf(cs + [c]) == Extend(DigestOf(cs), c)
  {
    CollectSnoc(DirectPuts, cs, c);
    CollectSnoc(ScanSsids, cs, c);
    CollectSnoc(MatchSsids, cs, c);
    CollectSnoc(FreqsOf, cs, c);
    CollectSnoc(PlansOf, cs, c);
    HasSnoc(IsTimed, cs, c);
    HasSnoc(IsDelay, cs, c);
    HasSnoc(IsActive, cs, c);
    HasSnoc(IsPassive, cs, c);
    HasSnoc(IsFreqs, cs, c);
    HasSnoc(IsPlans, cs, c);
    HasSnoc(IsRandom, cs, c);
  }

  /** Lists a clause adds nothing to stay as they are. */
  lemma AddNothing(d: Digest)
    ensures d.direct + [] == d.direct && d.scan + [] == d.scan && d.match_ + [] == d.match_
    ensures d.freqs + [] == d.freqs && d.plans + [] == d.plans
  {
  }

  /** Whether a clause may follow, by the digest of those before it. */
  predicate Fits(d: Digest, c: Clause)
  {
    match c
    case IntervalClause(_) => !d.timed
    case PlansClause(_) => !d.timed
    case DelayClause(_) => !d.delayed
    case MatchesClause(_) => d.match_ == []
    case FreqsClause(_) => !d.hasFreqs
    case ActiveClause(_) => !d.active && !d.passive
    case PassiveClause => !d.active && !d.passive
    case RandomClause(_) => true
  }

  lemma {:induction false} CollectsNothing<T>(f: Clause -> seq<T>, cs: seq<Clause>)
    ensures Collect(f, cs) == [] <==> forall i :: 0 <= i < |cs| ==> f(cs[i]) == []
  {
    if cs != [] {
      CollectsNothing(f, cs[1..]);
      var rest := cs[1..];
      assert forall i :: 1 <= i < |cs| ==> cs[i] == rest[i - 1];
      if Collect(f, cs) == [] {
        assert |f(cs[0])| + |Collect(f, rest)| == 0;
        assert f(cs[0]) == [] && Collect(f, rest) == [];
      }
      if forall i :: 0 <= i < |cs| ==> f(cs[i]) == [] {
        assert forall i :: 0 <= i < |rest| ==> rest[i] == cs[i + 1];
      }
    }
  }

  lemma FitsIsNoClash(cs: seq<Clause>, c: Clause)
    ensures Fits(DigestOf(cs), c) <==> FitsAfter(cs, c)
  {
    CollectsNothing(MatchSsids, cs);
    if !FitsAfter(cs, c) {
      var i :| 0 <= i < |cs| && Clash(cs[i], c);
      assert IsTimed(cs[i]) || IsDelay(cs[i]) || MatchSsids(cs[i]) != [] || IsFreqs(cs[i]) || IsActive(cs[i])
             || IsPassive(cs[i]);
    }
  }

  // ---- clauses and states -----------------------------------------------------------------

  /** The state holds what the clauses so far ask for. */
  ghost predicate Tracks(st: State, msg: seq<Attr>, d: Digest)
  {
    && st.mode == TopLevel
    && st.msg == msg + d.direct
    && st.ssids == SsidAttrs(d.scan) && (st.haveSsids <==> d.scan != [])
    && st.matchset == MatchAttrs(d.match_) && (st.haveMatch <==> d.match_ != [])
    && st.freqs == FreqAttrs(d.freqs) && st.haveFreqs == d.hasFreqs && (!d.hasFreqs ==> d.freqs == [])
    && st.plans == PlanAttrs(d.plans) && st.havePlans == d.hasPlans && (!d.hasPlans ==> d.plans == [])
    && (st.interval != 0 || st.havePlans <==> d.timed)
    && (st.delay != 0 <==> d.delayed)
    && st.haveActive == d.active && (!d.active ==> d.scan == [])
    && st.havePassive == d.passive && st.random == d.random
  }

  lemma FinishIsMessage(st: State, msg: seq<Attr>, d: Digest)
    requires Tracks(st, msg, d)
    ensures Finish(st) == DigestMessage(msg, d)
  {
    assert SsidAttrs([""]) == [Text(1, "")];
    assert d.scan == [] ==> st.ssids + [Text(1, "")] == [Text(1, "")];
  }

  function Matched(st: State, ss: seq<string>): State
    decreases |ss|
  {
    if ss == [] then st else Matched(AddMatch(st, ss[0]), ss[1..])
  }

  function Listed(st: State, ss: seq<string>): State
    decreases |ss|
  {
    if ss == [] then st else Listed(AddSsid(st, ss[0]), ss[1..])
  }

  function Tuned(st: State, fs: seq<nat>): State
    decreases |fs|
  {
    if fs == [] then st else Tuned(AddFreq(st, fs[0]), fs[1..])
  }

  function Planned(st: State, ps: seq<Plan>): State
    decreases |ps|
  {
    if ps == [] then st else Planned(AddPlan(st, ps[0]), ps[1..])
  }

  lemma {:induction false} MatchedAttrs(st: State, prev: seq<string>, ss: seq<string>)
    requires st.i == |prev| && st.matchset == MatchAttrs(prev)
    ensures Matched(st, ss) == st.(i := |prev| + |ss|, matchset := MatchAttrs(prev + ss),
                                   haveMatch := st.haveMatch || ss != [])
    decreases |ss|
  {
    if ss == [] {
      assert prev + ss == prev;
    } else {
      var p := prev + [ss[0]];
      assert AddMatch(st, ss[0]).matchset == MatchAttrs(p);
      MatchedAttrs(AddMatch(st, ss[0]), p, ss[1..]);
      assert p + ss[1..] == prev + ss;
    }
  }

  lemma {:induction false} ListedAttrs(st: State, prev: seq<string>, ss: seq<string>)
    requires st.i == |prev| && st.ssids == SsidAttrs(prev)
    ensures Listed(st, ss) == st.(i := |prev| + |ss|, ssids := SsidAttrs(prev + ss),
                                  haveSsids := st.haveSsids || ss != [])
    decreases |ss|
  {
    if ss == [] {
      assert prev + ss == prev;
    } else {
      var p := prev + [ss[0]];
      assert AddSsid(st, ss[0]).ssids == SsidAttrs(p);
      ListedAttrs(AddSsid(st, ss[0]), p, ss[1..]);
      assert p + ss[1..] == prev + ss;
    }
  }

  lemma {:induction false} TunedAttrs(st: State, prev: seq<nat>, fs: seq<nat>)
    requires st.i == |prev| && st.freqs == FreqAttrs(prev)
    ensures Tuned(st, fs) == st.(i := |prev| + |fs|, freqs := FreqAttrs(prev + fs))
    decreases |fs|
  {
    if fs == [] {
      assert prev + fs == prev;
    } else {
      var p := prev + [fs[0]];
      assert AddFreq(st, fs[0]).freqs == FreqAttrs(p);
      TunedAttrs(AddFreq(st, fs[0]), p, fs[1..]);
      assert p + fs[1..] == prev + fs;
    }
  }

  lemma {:induction false} PlannedAttrs(st: State, prev: seq<Plan>, ps: seq<Plan>)
    requires st.i == |prev| && st.plans == PlanAttrs(prev)
    ensures var r := Planned(st, ps);
            r == st.(i := |prev| + |ps|, plans := PlanAttrs(prev + ps), interval := r.interval, mode := r.mode)
    decreases |ps|
  {
    if ps == [] {
      assert prev + ps == prev;
    } else {
      var p := prev + [ps[0]];
      assert AddPlan(st, ps[0]).plans == PlanAttrs(p);
      PlannedAttrs(AddPlan(st, ps[0]), p, ps[1..]);
      assert p + ps[1..] == prev + ps;
    }
  }

  /** The state after a whole clause, back at the top level. */
  function Apply(st: State, c: Clause): State
  {
    match c
    case IntervalClause(n) => st.(interval := n, msg := st.msg + [U32(SCHED_SCAN_INTERVAL, n)])
    case DelayClause(n) => st.(delay := n, msg := st.msg + [U32(SCHED_SCAN_DELAY, n)])
    case PlansClause(ps) => Planned(st.(mode := Plans, havePlans := true, i := 0), ps).(mode := TopLevel)
    case MatchesClause(ss) => Matched(st.(mode := Match, i := 0), ss).(mode := TopLevel)
    case FreqsClause(fs) => Tuned(st.(mode := Freqs, haveFreqs := true, i := 0), fs).(mode := TopLevel)
    case ActiveClause(ss) => Listed(st.(mode := Active, haveActive := true, i := 0), ss).(mode := TopLevel)
    case PassiveClause => st.(havePassive := true)
    case RandomClause(a) => st.(random := true, msg := st.msg + AddressAttrs(a))
  }

  lemma ApplyPlans(st: State, msg: seq<Attr>, d: Digest, ps: seq<Plan>)
    requires Tracks(st, msg, d) && !d.timed
    ensures Tracks(Apply(st, PlansClause(ps)), msg, Extend(d, PlansClause(ps)))
  {
    AddNothing(d);
    PlannedAttrs(st.(mode := Plans, havePlans := true, i := 0), [], ps);
  }

  lemma ApplyMatches(st: State, msg: seq<Attr>, d: Digest, ss: seq<string>)
    requires Tracks(st, msg, d) && d.match_ == []
    ensures Tracks(Apply(st, MatchesClause(ss)), msg, Extend(d, MatchesClause(ss)))
  {
    AddNothing(d);
    MatchedAttrs(st.(mode := Match, i := 0), [], ss);
  }

  lemma ApplyFreqs(st: State, msg: seq<Attr>, d: Digest, fs: seq<nat>)
    requires Tracks(st, msg, d) && !d.hasFreqs
    ensures Tracks(Apply(st, FreqsClause(fs)), msg, Extend(d, FreqsClause(fs)))
  {
    AddNothing(d);
    TunedAttrs(st.(mode := Freqs, haveFreqs := true, i := 0), [], fs);
  }

  lemma ApplyActive(st: State, msg: seq<Attr>, d: Digest, ss: seq<string>)
    requires Tracks(st, msg, d) && !d.active
    ensures Tracks(Apply(st, ActiveClause(ss)), msg, Extend(d, ActiveClause(ss)))
  {
    AddNothing(d);
    ListedAttrs(st.(mode := Active, haveActive := true, i := 0), [], ss);
  }

  lemma ApplyInterval(st: State, msg: seq<Attr>, d: Digest, n: nat)
    requires Tracks(st, msg, d) && !d.timed && n != 0
    ensures Tracks(Apply(st, IntervalClause(n)), msg, Extend(d, IntervalClause(n)))
  {
    AddNothing(d);
    var x := [U32(SCHED_SCAN_INTERVAL, n)];
    assert msg + d.direct + x == msg + (d.direct + x);
  }

  lemma ApplyDelay(st: State, msg: seq<Attr>, d: Digest, n: nat)
    requires Tracks(st, msg, d) && !d.delayed
    ensures Tracks(Apply(st, DelayClause(n)), msg, Extend(d, DelayClause(n)))
  {
    AddNothing(d);
    var x := [U32(SCHED_SCAN_DELAY, n)];
    assert msg + d.direct + x == msg + (d.direct + x);
  }

  lemma ApplyRandom(st: State, msg: seq<Attr>, d: Digest, a: Option<Address>)
    requires Tracks(st, msg, d)
    ensures Tracks(Apply(st, RandomClause(a)), msg, Extend(d, RandomClause(a)))
  {
    AddNothing(d);
    var x := AddressAttrs(a);
    assert msg + d.direct + x == msg + (d.direct + x);
  }

  lemma ApplyPassive(st: State, msg: seq<Attr>, d: Digest)
    requires Tracks(st, msg, d)
    ensures Tracks(Apply(st, PassiveClause), msg, Extend(d, PassiveClause))
  {
    AddNothing(d);
  }

  /** A clause that fits takes a state that tracks the clauses so far to one that tracks it too. */
  lemma ApplyTracks(st: State, msg: seq<Attr>, d: Digest, c: Clause)
    requires Tracks(st, msg, d) && Fits(d, c) && (c.IntervalClause? ==> c.seconds != 0)
    ensures Tracks(Apply(st, c), msg, Extend(d, c))
  {
    match c
    case PlansClause(ps) => ApplyPlans(st, msg, d, ps);
    case MatchesClause(ss) => ApplyMatches(st, msg, d, ss);
    case FreqsClause(fs) => ApplyFreqs(st, msg, d, fs);
    case ActiveClause(ss) => ApplyActive(st, msg, d, ss);
    case PassiveClause => ApplyPassive(st, msg, d);
    case IntervalClause(n) => ApplyInterval(st, msg, d, n);
    case DelayClause(n) => ApplyDelay(st, msg, d, n);
    case RandomClause(a) => ApplyRandom(st, msg, d, a);
  }

  // ---- the machine reads clauses ----------------------------------------------------------

  predicate Accepted(r: Result) { r.err == 0 && r.left == [] }

  /** The rest of the run after a step. */
  function After(rd: Readers, st: State, o: Outcome): Result
  {
    match o
    case Stop(code, rest) => Result(code, rest, st.msg)
    case Go(next, rest) => Run(rd, next, rest)
  }

  lemma RunStep(rd: Readers, st: State, v: seq<string>)
    requires v != []
    ensures Run(rd, st, v) == After(rd, st, Step(rd, st, v))
  {
  }

  /** At the end of the arguments the mode no longer matters. */
  lemma RunEnd(rd: Readers, st: State)
    ensures Run(rd, st, []) == Run(rd, st.(mode := TopLevel), [])
  {
  }

  lemma {:induction false} MatchLoop(rd: Readers, st: State, v: seq<string>)
    requires st.mode == Match
    ensures var r := ReadSsids(v);
            if r.Bad? || (st.i + |r.value| == 0 && r.rest != []) then Run(rd, st, v).err == EINVAL
            else Run(rd, st, v) == Run(rd, Matched(st, r.value).(mode := TopLevel), r.rest)
    decreases |v|
  {
    if v == [] {
      RunEnd(rd, st);
    } else {
      RunStep(rd, st, v);
      if v[0] == "ssid" && |v| > 1 {
        var next, rest := AddMatch(st, v[1]), v[2..];
        assert Run(rd, st, v) == Run(rd, next, rest);
        MatchLoop(rd, next, rest);
        if ReadSsids(rest).Read? {
          MatchedCons(st, v[1], ReadSsids(rest).value);
        }
      }
    }
  }

  lemma {:induction false} ActiveLoop(rd: Readers, st: State, v: seq<string>)
    requires st.mode == Active
    ensures var r := ReadSsids(v);
            if r.Bad? || (st.i + |r.value| == 0 && r.rest != []) then Run(rd, st, v).err == EINVAL
            else Run(rd, st, v) == Run(rd, Listed(st, r.value).(mode := TopLevel), r.rest)
    decreases |v|
  {
    if v == [] {
      RunEnd(rd, st);
    } else {
      RunStep(rd, st, v);
      if v[0] == "ssid" && |v| > 1 {
        var next, rest := AddSsid(st, v[1]), v[2..];
        assert Run(rd, st, v) == Run(rd, next, rest);
        ActiveLoop(rd, next, rest);
        if ReadSsids(rest).Read? {
          ListedCons(st, v[1], ReadSsids(rest).value);
        }
      }
    }
  }

  lemma TunedCons(st: State, f: nat, fs: seq<nat>)
    ensures Tuned(st, [f] + fs) == Tuned(AddFreq(st, f), fs)
  {
    assert ([f] + fs)[1..] == fs;
  }

  lemma MatchedCons(st: State, s: string, ss: seq<string>)
    ensures Matched(st, [s] + ss) == Matched(AddMatch(st, s), ss)
  {
    assert ([s] + ss)[1..] == ss;
  }

  lemma ListedCons(st: State, s: string, ss: seq<string>)
    ensures Listed(st, [s] + ss) == Listed(AddSsid(st, s), ss)
  {
    assert ([s] + ss)[1..] == ss;
  }

  lemma {:induction false} FreqsLoop(rd: Readers, st: State, v: seq<string>)
    requires st.mode == Freqs
    ensures var r := ReadNumbers(rd.dec, v);
            if r.Bad? || (st.i + |r.value| == 0 && r.rest != []) then Run(rd, st, v).err == EINVAL
            else Run(rd, st, v) == Run(rd, Tuned(st, r.value).(mode := TopLevel), r.rest)
    decreases |v|
  {
    if v == [] {
      RunEnd(rd, st);
    } else {
      RunStep(rd, st, v);
      var f, rest := rd.dec(v[0]), v[1..];
      if f.Some? {
        var next := AddFreq(st, f.value);
        assert Run(rd, st, v) == Run(rd, next, rest);
        FreqsLoop(rd, next, rest);
        if ReadNumbers(rd.dec, rest).Read? {
          TunedCons(st, f.value, ReadNumbers(rd.dec, rest).value);
        }
      }
    }
  }

  lemma {:induction false} PlansLoop(rd: Readers, st: State, v: seq<string>)
    requires st.mode == Plans
    ensures var r := ReadPlans(rd.plan, v);
            if r.Bad? then Run(rd, st, v).err == EINVAL
            else Run(rd, st, v) == Run(rd, Planned(st, r.value).(mode := TopLevel), r.rest)
    decreases |v|
  {
    if v == [] {
      RunEnd(rd, st);
    } else {
      RunStep(rd, st, v);
      var p := rd.plan(v[0]);
      if p.Some? {
        var next := AddPlan(st, p.value);
        assert Run(rd, st, v) == Run(rd, next, v[1..]);
        if p.value.iterations == 0 {
          assert Planned(next, []) == next;
          assert Planned(st, [p.value]) == next;
        } else {
          PlansLoop(rd, next, v[1..]);
        }
      }
    }
  }

  /** What reading a clause at the top level leads to. */
  ghost predicate ClauseMeets(rd: Readers, r: Result, st: State, d: Digest, kw: Keyword, v: seq<string>)
    requires v != []
  {
    var c := ReadAs(rd, kw, v);
    if c.Read? && Fits(d, c.value) then r == Run(rd, Apply(st, c.value), c.rest)
    else if !OpensClause(kw) then r == Result(0, v, st.msg)
    else r.err == if kw == KRandom then 1 else EINVAL
  }

  lemma NumberClause(rd: Readers, kw: Keyword, r: Result, st: State, msg: seq<Attr>, d: Digest, v: seq<string>)
    requires Tracks(st, msg, d) && v != [] && r == After(rd, st, TopStep(rd, kw, st, v))
    requires kw.KInterval? || kw.KDelay?
    ensures ClauseMeets(rd, r, st, d, kw, v)
  {
  }

  lemma WordClause(rd: Readers, kw: Keyword, r: Result, st: State, msg: seq<Attr>, d: Digest, v: seq<string>)
    requires Tracks(st, msg, d) && v != [] && r == After(rd, st, TopStep(rd, kw, st, v))
    requires kw.KPassive? || kw.KRandom? || kw.KSsid? || kw.KForeign?
    ensures ClauseMeets(rd, r, st, d, kw, v)
  {
  }

  lemma MatchesRun(rd: Readers, r: Result, st: State, d: Digest, v: seq<string>)
    requires (st.haveMatch <==> d.match_ != []) && v != [] && r == After(rd, st, TopStep(rd, KMatches, st, v))
    ensures ClauseMeets(rd, r, st, d, KMatches, v)
  {
    if !st.haveMatch {
      MatchLoop(rd, st.(mode := Match, i := 0), v[1..]);
    }
  }

  lemma ActiveRun(rd: Readers, r: Result, st: State, d: Digest, v: seq<string>)
    requires st.haveActive == d.active && st.havePassive == d.passive
    requires v != [] && r == After(rd, st, TopStep(rd, KActive, st, v))
    ensures ClauseMeets(rd, r, st, d, KActive, v)
  {
    if st.haveActive || st.havePassive {
      assert r.err == EINVAL;
    } else {
      ActiveLoop(rd, st.(mode := Active, haveActive := true, i := 0), v[1..]);
    }
  }

  lemma FreqsRun(rd: Readers, r: Result, st: State, d: Digest, v: seq<string>)
    requires st.haveFreqs == d.hasFreqs && v != [] && r == After(rd, st, TopStep(rd, KFreqs, st, v))
    ensures ClauseMeets(rd, r, st, d, KFreqs, v)
  {
    if !st.haveFreqs {
      FreqsLoop(rd, st.(mode := Freqs, haveFreqs := true, i := 0), v[1..]);
    }
  }

  lemma PlansRun(rd: Readers, r: Result, st: State, d: Digest, v: seq<string>)
    requires st.interval != 0 || st.havePlans <==> d.timed
    requires v != [] && r == After(rd, st, TopStep(rd, KPlans, st, v))
    ensures ClauseMeets(rd, r, st, d, KPlans, v)
  {
    if !st.havePlans && st.interval == 0 {
      PlansLoop(rd, st.(mode := Plans, havePlans := true, i := 0), v[1..]);
    }
  }

  /** A clause at the top level takes the machine to the state of that clause, or it is refused. */
  lemma ClauseRun(rd: Readers, kw: Keyword, r: Result, st: State, msg: seq<Attr>, d: Digest, v: seq<string>)
    requires Tracks(st, msg, d) && v != [] && r == After(rd, st, TopStep(rd, kw, st, v))
    ensures ClauseMeets(rd, r, st, d, kw, v)
  {
    match kw
    case KMatches => MatchesRun(rd, r, st, d, v);
    case KActive => ActiveRun(rd, r, st, d, v);
    case KFreqs => FreqsRun(rd, r, st, d, v);
    case KPlans => PlansRun(rd, r, st, d, v);
    case KInterval => NumberClause(rd, kw, r, st, msg, d, v);
    case KDelay => NumberClause(rd, kw, r, st, msg, d, v);
    case _ => WordClause(rd, kw, r, st, msg, d, v);
  }

  lemma ConsistentSnoc(cs: seq<Clause>, c: Clause)
    ensures Consistent(cs + [c]) <==> Consistent(cs) && FitsAfter(cs, c)
  {
    var all := cs + [c];
    if Consistent(all) {
      forall i, j | 0 <= i < j < |cs|
        ensures !Clash(cs[i], cs[j])
      {
        assert !Clash(all[i], all[j]);
      }
      forall i | 0 <= i < |cs|
        ensures !Clash(cs[i], c)
      {
        assert !Clash(all[i], all[|cs|]);
      }
    }
  }

  lemma ConsistentPrefix(a: seq<Clause>, b: seq<Clause>)
    requires Consistent(a + b)
    ensures Consistent(a)
  {
    var all := a + b;
    forall i, j | 0 <= i < j < |a|
      ensures !Clash(a[i], a[j])
    {
      assert !Clash(all[i], all[j]);
    }
  }

  lemma IntervalsPositive(rd: Readers, kw: Keyword, v: seq<string>)
    requires v != [] && ReadAs(rd, kw, v).Read?
    ensures var c := ReadAs(rd, kw, v).value; c.IntervalClause? ==> c.seconds != 0
  {
  }

  /**
    What a run from a state that tracks some clauses gives, for the clauses that can
    be read and the words they leave.
   */
  ghost predicate RunMeets(rd: Readers, r: Result, msg: seq<Attr>, cs: seq<Clause>, left: seq<string>)
  {
    if !Consistent(cs) then r.err == EINVAL
    else if left == [] then r == Result(0, [], Message(msg, cs))
    else if !OpensClause(rd.keyword(left[0])) then r == Result(0, left, msg + Collect(DirectPuts, cs))
    else r.err == if rd.keyword(left[0]) == KRandom then 1 else EINVAL
  }

  lemma {:induction false} RunClauses(rd: Readers, st: State, msg: seq<Attr>, done: seq<Clause>, v: seq<string>)
    requires Tracks(st, msg, DigestOf(done)) && Consistent(done)
    ensures RunMeets(rd, Run(rd, st, v), msg, done + ReadUntil(rd, v).0, ReadUntil(rd, v).1)
    decreases |v|
  {
    if v == [] {
      FinishIsMessage(st, msg, DigestOf(done));
      assert done + [] == done;
    } else {
      var kw := rd.keyword(v[0]);
      RunStep(rd, st, v);
      ClauseRun(rd, kw, Run(rd, st, v), st, msg, DigestOf(done), v);
      var r := ReadAs(rd, kw, v);
      if r.Read? {
        IntervalsPositive(rd, kw, v);
        WordsOpen(rd, kw, v);
        RunClause(rd, st, msg, done, v, r.value, r.rest);
      } else {
        assert done + [] == done;
      }
    }
  }

  /** Only words that open a clause are read as one, and randomisation fits everywhere. */
  lemma WordsOpen(rd: Readers, kw: Keyword, v: seq<string>)
    requires v != [] && ReadAs(rd, kw, v).Read?
    ensures OpensClause(kw) && (kw == KRandom ==> ReadAs(rd, kw, v).value.RandomClause?)
  {
  }

  lemma {:induction false} RunClause(rd: Readers, st: State, msg: seq<Attr>, done: seq<Clause>, v: seq<string>,
                                     c: Clause, rest: seq<string>)
    requires Tracks(st, msg, DigestOf(done)) && Consistent(done) && |rest| < |v|
    requires c.IntervalClause? ==> c.seconds != 0
    requires if Fits(DigestOf(done), c) then Run(rd, st, v) == Run(rd, Apply(st, c), rest)
             else Run(rd, st, v).err == EINVAL
    ensures RunMeets(rd, Run(rd, st, v), msg, done + ([c] + ReadUntil(rd, rest).0), ReadUntil(rd, rest).1)
    decreases |v|, 0
  {
    var (more, left) := ReadUntil(rd, rest);
    FitsIsNoClash(done, c);
    ConsistentSnoc(done, c);
    assert done + ([c] + more) == done + [c] + more;
    if Fits(DigestOf(done), c) {
      ApplyTracks(st, msg, DigestOf(done), c);
      DigestSnoc(done, c);
      RunClauses(rd, Apply(st, c), msg, done + [c], rest);
    } else if Consistent(done + [c] + more) {
      ConsistentPrefix(done + [c], more);
    }
  }

  /**
    On every command line. Clauses that clash are an error. Otherwise the words are
    all consumed and the message is that of the clauses, or the parser stops with 0
    at the first word that is not for it and hands it back, or at a clause that
    cannot be read with -EINVAL, which is 1 for a bad random address.
   */
  lemma RunOutcome(rd: Readers, msg: seq<Attr>, argv: seq<string>)
    ensures var r, (cs, left) := Run(rd, Initial(msg), argv), ReadUntil(rd, argv);
            if !Consistent(cs) then r.err == -22
            else if left == [] then r == Result(0, [], Message(msg, cs))
            else if !OpensClause(rd.keyword(left[0])) then r == Result(0, left, msg + Collect(DirectPuts, cs))
            else r.err == if rd.keyword(left[0]) == KRandom then 1 else -22
  {
    assert msg + [] == msg;
    assert Tracks(Initial(msg), msg, DigestOf([]));
    RunClauses(rd, Initial(msg), msg, [], argv);
    var cs := ReadUntil(rd, argv).0;
    assert [] + cs == cs;
  }

  /**
    The machine consumes all arguments with error 0 exactly when they are a
    consistent list of clauses, and then builds exactly that list's message.
   */
  lemma AcceptsConsistentClauses(rd: Readers, msg: seq<Attr>, argv: seq<string>)
    ensures var r := Run(rd, Initial(msg), argv);
            var cs := ReadClauses(rd, argv);
            && (Accepted(r) <==> cs.Some? && Consistent(cs.value))
            && (Accepted(r) ==> r.msg == Message(msg, cs.value))
  {
    RunOutcome(rd, msg, argv);
    ReadsWhole(rd, argv);
  }

  // ---- what an accepted request looks like ------------------------------------------------

  /** Every plan but the last has iterations. */
  ghost predicate PlansRunOut(ps: seq<Plan>) { forall k :: 0 <= k < |ps| - 1 ==> ps[k].iterations > 0 }

  lemma {:induction false} PlansReadRunOut(plan: string -> Option<Plan>, v: seq<string>)
    requires ReadPlans(plan, v).Read?
    ensures PlansRunOut(ReadPlans(plan, v).value)
    decreases |v|
  {
    if v != [] && plan(v[0]).value.iterations != 0 {
      PlansReadRunOut(plan, v[1..]);
    }
  }

  ghost predicate WellPlanned(c: Clause) { c.PlansClause? ==> PlansRunOut(c.plans) }

  lemma {:induction false} ClausesWellPlanned(rd: Readers, v: seq<string>)
    requires ReadClauses(rd, v).Some?
    ensures forall i :: 0 <= i < |ReadClauses(rd, v).value| ==> WellPlanned(ReadClauses(rd, v).value[i])
    decreases |v|
  {
    if v != [] {
      var kw := rd.keyword(v[0]);
      var r := ReadAs(rd, kw, v);
      ClauseWellPlanned(rd, kw, v);
      ClausesWellPlanned(rd, r.rest);
    }
  }

  lemma ClauseWellPlanned(rd: Readers, kw: Keyword, v: seq<string>)
    requires v != [] && ReadAs(rd, kw, v).Read?
    ensures WellPlanned(ReadAs(rd, kw, v).value)
  {
    if kw == KPlans {
      PlansReadRunOut(rd.plan, v[1..]);
    }
  }

  /** What only one clause contributes to is that clause's contribution. */
  lemma {:induction false} CollectOne<T>(f: Clause -> seq<T>, cs: seq<Clause>, i: nat)
    requires i < |cs| && forall j :: 0 <= j < |cs| && j != i ==> f(cs[j]) == []
    ensures Collect(f, cs) == f(cs[i])
  {
    var rest := cs[1..];
    if i == 0 {
      CollectsNothing(f, rest);
      assert f(cs[0]) + [] == f(cs[0]);
    } else {
      CollectOne(f, rest, i - 1);
    }
  }

  /** A clause of a kind that may be given only once is the only one of its kind. */
  lemma OnlyOne(cs: seq<Clause>, i: nat, j: nat)
    requires Consistent(cs) && i < |cs| && j < |cs| && i != j
    ensures !(Clash(cs[i], cs[j]) && Clash(cs[j], cs[i]))
  {
    if i < j {
      assert !Clash(cs[i], cs[j]);
    } else {
      assert !Clash(cs[j], cs[i]);
    }
  }

  /** What the documentation of the command promises of a clause in an accepted request. */
  ghost predicate Honoured(c: Clause, out: seq<Attr>)
  {
    match c
    case IntervalClause(n) => U32(SCHED_SCAN_INTERVAL, n) in out
    case DelayClause(n) => U32(SCHED_SCAN_DELAY, n) in out
    case PlansClause(ps) => Nest(SCHED_SCAN_PLANS, PlanAttrs(ps)) in out && PlansRunOut(ps)
    case MatchesClause(ss) => ss != [] ==> Nest(SCHED_SCAN_MATCH, MatchAttrs(ss)) in out
    case FreqsClause(fs) => Nest(SCAN_FREQUENCIES, FreqAttrs(fs)) in out
    case ActiveClause(ss) => ss != [] ==> Nest(SCAN_SSIDS, SsidAttrs(ss)) in out
    case PassiveClause => true
    case RandomClause(a) => U32(SCAN_FLAGS, RANDOM_ADDR) in out && forall x :: x in AddressAttrs(a) ==> x in out
  }

  lemma {:induction false} CollectHas<T>(f: Clause -> seq<T>, cs: seq<Clause>, i: nat, x: T)
    requires i < |cs| && x in f(cs[i])
    ensures x in Collect(f, cs)
  {
    if i > 0 {
      CollectHas(f, cs[1..], i - 1, x);
    }
  }

  lemma InMessage(msg: seq<Attr>, d: Digest)
    ensures forall x :: x in d.direct ==> x in DigestMessage(msg, d)
    ensures !d.passive && d.scan != [] ==> Nest(SCAN_SSIDS, SsidAttrs(d.scan)) in DigestMessage(msg, d)
    ensures d.hasFreqs ==> Nest(SCAN_FREQUENCIES, FreqAttrs(d.freqs)) in DigestMessage(msg, d)
    ensures d.match_ != [] ==> Nest(SCHED_SCAN_MATCH, MatchAttrs(d.match_)) in DigestMessage(msg, d)
    ensures d.hasPlans ==> Nest(SCHED_SCAN_PLANS, PlanAttrs(d.plans)) in DigestMessage(msg, d)
    ensures d.random ==> U32(SCAN_FLAGS, RANDOM_ADDR) in DigestMessage(msg, d)
  {
  }

  lemma DirectHonoured(msg: seq<Attr>, cs: seq<Clause>, i: nat)
    requires i < |cs| && (cs[i].IntervalClause? || cs[i].DelayClause? || cs[i].RandomClause? || cs[i].PassiveClause?)
    ensures Honoured(cs[i], Message(msg, cs))
  {
    InMessage(msg, DigestOf(cs));
    forall x | x in DirectPuts(cs[i])
      ensures x in Message(msg, cs)
    {
      CollectHas(DirectPuts, cs, i, x);
    }
    assert cs[i].RandomClause? ==> IsRandom(cs[i]);
  }

  lemma SsidsHonoured(msg: seq<Attr>, cs: seq<Clause>, i: nat)
    requires Consistent(cs) && i < |cs| && (cs[i].ActiveClause? || cs[i].MatchesClause?)
    ensures Honoured(cs[i], Message(msg, cs))
  {
    var c := cs[i];
    InMessage(msg, DigestOf(cs));
    forall j | 0 <= j < |cs| && j != i
      ensures c.ActiveClause? ==> ScanSsids(cs[j]) == [] && !IsPassive(cs[j])
      ensures c.MatchesClause? && c.ssids != [] ==> MatchSsids(cs[j]) == []
    {
      OnlyOne(cs, i, j);
    }
    if c.ActiveClause? {
      CollectOne(ScanSsids, cs, i);
    } else if c.ssids != [] {
      CollectOne(MatchSsids, cs, i);
    }
  }

  lemma ListsHonoured(msg: seq<Attr>, cs: seq<Clause>, i: nat)
    requires Consistent(cs) && i < |cs| && (cs[i].FreqsClause? || cs[i].PlansClause?) && WellPlanned(cs[i])
    ensures Honoured(cs[i], Message(msg, cs))
  {
    var c := cs[i];
    InMessage(msg, DigestOf(cs));
    forall j | 0 <= j < |cs| && j != i
      ensures c.FreqsClause? ==> FreqsOf(cs[j]) == []
      ensures c.PlansClause? ==> PlansOf(cs[j]) == []
    {
      OnlyOne(cs, i, j);
    }
    if c.FreqsClause? {
      CollectOne(FreqsOf, cs, i);
      assert IsFreqs(cs[i]);
    } else {
      CollectOne(PlansOf, cs, i);
      assert IsPlans(cs[i]);
    }
  }

  /**
    Whenever all arguments are consumed with error 0: interval and plans are not
    both given, active and passive are not both given, and every clause reaches
    the message whole. No SSID is dropped, plans are numbered from 1 and every
    plan but the last has a positive number of iterations.
   */
  lemma AcceptedRequest(rd: Readers, msg: seq<Attr>, argv: seq<string>)
    requires Accepted(Run(rd, Initial(msg), argv))
    ensures ReadClauses(rd, argv).Some?
    ensures var cs := ReadClauses(rd, argv).value;
            && (forall i, j :: 0 <= i < |cs| && 0 <= j < |cs| && IsTimed(cs[i]) && IsTimed(cs[j]) ==> i == j)
            && (forall i, j :: 0 <= i < |cs| && 0 <= j < |cs| && IsActive(cs[i]) ==> !IsPassive(cs[j]))
            && (forall i :: 0 <= i < |cs| ==> Honoured(cs[i], Run(rd, Initial(msg), argv).msg))
  {
    AcceptsConsistentClauses(rd, msg, argv);
    ClausesWellPlanned(rd, argv);
    var cs := ReadClauses(rd, argv).value;
    forall i, j | 0 <= i < |cs| && 0 <= j < |cs| && i != j
      ensures !(IsTimed(cs[i]) && IsTimed(cs[j])) && !(IsActive(cs[i]) && IsPassive(cs[j]))
    {
      OnlyOne(cs, i, j);
    }
    forall i | 0 <= i < |cs|
      ensures Honoured(cs[i], Message(msg, cs))
    {
      ClauseHonoured(msg, cs, i);
    }
  }

  lemma ClauseHonoured(msg: seq<Attr>, cs: seq<Clause>, i: nat)
    requires Consistent(cs) && i < |cs| && WellPlanned(cs[i])
    ensures Honoured(cs[i], Message(msg, cs))
  {
    match cs[i]
    case ActiveClause(_) => SsidsHonoured(msg, cs, i);
    case MatchesClause(_) => SsidsHonoured(msg, cs, i);
    case FreqsClause(_) => ListsHonoured(msg, cs, i);
    case PlansClause(_) => ListsHonoured(msg, cs, i);
    case _ => DirectHonoured(msg, cs, i);
  }

  // ---- every spelling is read ---------------------------------------------------------------

  ghost predicate SpellsSsids(t: seq<string>, ss: seq<string>)
  {
    |t| == 2 * |ss| && forall k :: 0 <= k < |ss| ==> t[2 * k] == "ssid" && t[2 * k + 1] == ss[k]
  }

  ghost predicate SpellsNumbers(dec: string -> Option<nat>, t: seq<string>, fs: seq<nat>)
  {
    |t| == |fs| && forall k :: 0 <= k < |fs| ==> dec(t[k]) == Some(fs[k])
  }

  ghost predicate SpellsPlans(plan: string -> Option<Plan>, t: seq<string>, ps: seq<Plan>)
  {
    |t| == |ps| && forall k :: 0 <= k < |ps| ==> plan(t[k]) == Some(ps[k])
  }

  /** The tokens t are the keyword kw and a spelling of the clause. */
  ghost predicate Spells(rd: Readers, kw: Keyword, t: seq<string>, c: Clause)
  {
    t != [] &&
    match c
    case IntervalClause(n) => kw == KInterval && |t| == 2 && rd.dec(t[1]) == Some(n) && n != 0
    case DelayClause(n) => kw == KDelay && |t| == 2 && rd.dec(t[1]) == Some(n)
    case PlansClause(ps) => kw == KPlans && SpellsPlans(rd.plan, t[1..], ps) && PlansRunOut(ps)
    case MatchesClause(ss) => kw == KMatches && SpellsSsids(t[1..], ss)
    case FreqsClause(fs) => kw == KFreqs && SpellsNumbers(rd.dec, t[1..], fs)
    case ActiveClause(ss) => kw == KActive && SpellsSsids(t[1..], ss)
    case PassiveClause => kw == KPassive && |t| == 1
    case RandomClause(a) => kw == KRandom && |t| == 1 && rd.random(t[0]) == Some(a)
  }

  /** A clause that other clauses may follow: a list has ended visibly. */
  predicate Closed(c: Clause)
  {
    match c
    case PlansClause(ps) => ps != [] && ps[|ps| - 1].iterations == 0
    case MatchesClause(ss) => ss != []
    case ActiveClause(ss) => ss != []
    case FreqsClause(fs) => fs != []
    case _ => true
  }

  /** Tokens that spell the clauses one after the other. */
  ghost predicate SpellsAll(rd: Readers, parts: seq<seq<string>>, cs: seq<Clause>)
  {
    |parts| == |cs|
    && (forall i :: 0 <= i < |cs| ==> parts[i] != [] && Spells(rd, rd.keyword(parts[i][0]), parts[i], cs[i]))
    && forall i :: 0 <= i < |cs| - 1 ==> Closed(cs[i])
  }

  function Flat(parts: seq<seq<string>>): seq<string> { if parts == [] then [] else parts[0] + Flat(parts[1..]) }

  /** No keyword that opens a clause reads as a number or as `ssid`. */
  ghost predicate KeywordsAreWords(rd: Readers)
  {
    forall s :: OpensClause(rd.keyword(s)) ==> rd.dec(s).None? && s != "ssid"
  }

  lemma {:induction false} SsidsRead(t: seq<string>, ss: seq<string>, rest: seq<string>)
    requires SpellsSsids(t, ss) && (rest == [] || rest[0] != "ssid")
    ensures ReadSsids(t + rest) == Read(ss, rest)
    decreases |ss|
  {
    if ss == [] {
      assert t + rest == rest;
    } else {
      var t', ss' := t[2..], ss[1..];
      forall k | 0 <= k < |ss'|
        ensures t'[2 * k] == "ssid" && t'[2 * k + 1] == ss'[k]
      {
        assert t[2 * (k + 1)] == "ssid" && t[2 * (k + 1) + 1] == ss[k + 1];
      }
      SsidsRead(t', ss', rest);
      assert t[2 * 0] == "ssid" && t[2 * 0 + 1] == ss[0];
      assert (t + rest)[2..] == t' + rest;
      assert ss == [ss[0]] + ss';
    }
  }

  lemma {:induction false} NumbersRead(dec: string -> Option<nat>, t: seq<string>, fs: seq<nat>, rest: seq<string>)
    requires SpellsNumbers(dec, t, fs) && (rest == [] || dec(rest[0]).None?)
    ensures ReadNumbers(dec, t + rest) == Read(fs, rest)
    decreases |fs|
  {
    if fs == [] {
      assert t + rest == rest;
    } else {
      NumbersRead(dec, t[1..], fs[1..], rest);
      assert (t + rest)[1..] == t[1..] + rest;
      assert fs == [fs[0]] + fs[1..];
    }
  }

  lemma {:induction false} PlansRead(plan: string -> Option<Plan>, t: seq<string>, ps: seq<Plan>, rest: seq<string>)
    requires SpellsPlans(plan, t, ps) && PlansRunOut(ps)
    requires rest == [] || (ps != [] && ps[|ps| - 1].iterations == 0)
    ensures ReadPlans(plan, t + rest) == Read(ps, rest)
    decreases |ps|
  {
    if ps == [] {
      assert t + rest == rest;
    } else {
      var v := t + rest;
      assert v[1..] == t[1..] + rest && plan(v[0]) == Some(ps[0]);
      assert ps == [ps[0]] + ps[1..];
      if ps[0].iterations == 0 {
        assert |ps| == 1 && ps == [ps[0]];
        assert v[1..] == rest;
      } else {
        PlansRead(plan, t[1..], ps[1..], rest);
      }
    }
  }

  /** A spelled clause is read back, up to whatever clause follows. */
  lemma ClauseRead(rd: Readers, kw: Keyword, t: seq<string>, c: Clause, rest: seq<string>)
    requires Spells(rd, kw, t, c)
    requires rest == [] || (Closed(c) && rest[0] != "ssid" && rd.dec(rest[0]).None?)
    ensures ReadAs(rd, kw, t + rest) == Read(c, rest)
  {
    var v := t + rest;
    assert v[1..] == t[1..] + rest;
    match c
    case PlansClause(ps) => PlansRead(rd.plan, t[1..], ps, rest);
    case MatchesClause(ss) => SsidsRead(t[1..], ss, rest);
    case ActiveClause(ss) => SsidsRead(t[1..], ss, rest);
    case FreqsClause(fs) => NumbersRead(rd.dec, t[1..], fs, rest);
    case _ =>
      assert v[0] == t[0] && v[|t|..] == rest;
  }

  /** What may follow the clauses: nothing, or a word that cannot continue any of them. */
  ghost predicate Follows(rd: Readers, cs: seq<Clause>, rest: seq<string>)
  {
    rest != [] ==>
      && !OpensClause(rd.keyword(rest[0])) && rest[0] != "ssid" && rd.dec(rest[0]).None?
      && (cs != [] ==> Closed(cs[|cs| - 1]))
  }

  lemma SpelledHead(rd: Readers, parts: seq<seq<string>>, cs: seq<Clause>, rest: seq<string>)
    requires SpellsAll(rd, parts, cs) && KeywordsAreWords(rd) && Follows(rd, cs, rest)
    ensures var v := Flat(parts) + rest; v == [] || (v[0] != "ssid" && rd.dec(v[0]).None?)
  {
    if parts != [] {
      assert OpensClause(rd.keyword(parts[0][0]));
      assert Flat(parts)[0] == parts[0][0];
    }
  }

  /** Every way to spell a list of clauses is read as that list, up to a word that is not for this parser. */
  lemma {:induction false} SpelledClausesRead(rd: Readers, parts: seq<seq<string>>, cs: seq<Clause>, rest: seq<string>)
    requires SpellsAll(rd, parts, cs) && KeywordsAreWords(rd) && Follows(rd, cs, rest)
    ensures ReadUntil(rd, Flat(parts) + rest) == (cs, rest)
    decreases |cs|
  {
    if cs == [] {
      assert Flat(parts) + rest == rest;
      NoClauseAt(rd, rest);
    } else {
      var t, more := parts[0], Flat(parts[1..]) + rest;
      SpelledTail(rd, parts, cs, rest);
      SpelledClausesRead(rd, parts[1..], cs[1..], rest);
      SpelledHead(rd, parts[1..], cs[1..], rest);
      assert Flat(parts) + rest == t + more;
      FirstRead(rd, t, cs, more, rest);
    }
  }

  /** The first clause and those after it. */
  lemma SpelledTail(rd: Readers, parts: seq<seq<string>>, cs: seq<Clause>, rest: seq<string>)
    requires SpellsAll(rd, parts, cs) && Follows(rd, cs, rest) && cs != []
    ensures parts[0] != [] && Spells(rd, rd.keyword(parts[0][0]), parts[0], cs[0])
    ensures SpellsAll(rd, parts[1..], cs[1..]) && Follows(rd, cs[1..], rest)
    ensures Flat(parts[1..]) + rest == [] || Closed(cs[0])
  {
    if |cs| == 1 {
      assert Flat(parts[1..]) == [];
    }
  }

  lemma FirstRead(rd: Readers, t: seq<string>, cs: seq<Clause>, more: seq<string>, rest: seq<string>)
    requires cs != [] && t != [] && Spells(rd, rd.keyword(t[0]), t, cs[0])
    requires more == [] || (Closed(cs[0]) && more[0] != "ssid" && rd.dec(more[0]).None?)
    requires ReadUntil(rd, more) == (cs[1..], rest)
    ensures ReadUntil(rd, t + more) == (cs, rest)
  {
    ClauseRead(rd, rd.keyword(t[0]), t, cs[0], more);
    ReadFirst(rd, t + more, cs[0], more);
    assert cs == [cs[0]] + cs[1..];
  }

  lemma ReadFirst(rd: Readers, v: seq<string>, c: Clause, more: seq<string>)
    requires v != [] && |more| < |v| && ReadAs(rd, rd.keyword(v[0]), v) == Read(c, more)
    ensures ReadUntil(rd, v) == ([c] + ReadUntil(rd, more).0, ReadUntil(rd, more).1)
  {
  }

  lemma NoClauseAt(rd: Readers, rest: seq<string>)
    requires rest == [] || !OpensClause(rd.keyword(rest[0]))
    ensures ReadUntil(rd, rest) == ([], rest)
  {
  }

  // ---- the C readers --------------------------------------------------------------------------

  /** strtoul of a whole token into an unsigned int. */
  function DecText(s: string): Option<nat>
  {
    var (v, end) := Strtoul(s, 10);
    if end < |s| then None else Some(ToU32(v))
  }

  /** interval[:iterations]. */
  function PlanText(s: string): (r: Option<Plan>)
    ensures r.Some? ==> (r.value.iterations == 0 <==> Strtoul(s, 10).1 == |s|)
  {
    var (v, end) := Strtoul(s, 10);
    if end == |s| then Some(Plan(ToU32(v), 0))
    else if s[end] != ':' then None
    else
      var t := s[end + 1..];
      var (n, stop) := Strtoul(t, 10);
      if stop < |t| || ToU32(n) == 0 then None else Some(Plan(ToU32(v), ToU32(n)))
  }

  /** parse_random_mac_addr, for what mac_addr_a2n makes of an address. */
  function RandomText(mac: string -> Option<seq<byte>>, s: string): Option<Option<Address>>
  {
    if |s| < 10 || s[9] != '=' then Some(None)
    else
      var sep := IndexFrom(s, '/', 10);
      if sep == |s| then None
      else
        match (mac(s[10..sep]), mac(s[sep + 1..]))
        case (Some(a), Some(m)) => Some(Some(Address(a, m)))
        case _ => None
  }

  function CReaders(mac: string -> Option<seq<byte>>): Readers
  {
    Readers(DecText, PlanText, s => RandomText(mac, s), KeywordOf)
  }

  lemma LetterIsNoNumber(s: string)
    requires s != [] && 'a' <= s[0] <= 'z'
    ensures DecText(s).None?
  {
    assert SkipSpaces(s, 0) == 0;
    assert SkipDigits(s, 0, 10) == 0;
  }

  lemma KeywordIsLetter(s: string)
    requires OpensClause(KeywordOf(s))
    ensures s != [] && 'a' <= s[0] <= 'z' && s != "ssid"
  {
  }

  lemma CKeywordsAreWords(mac: string -> Option<seq<byte>>)
    ensures KeywordsAreWords(CReaders(mac))
  {
    forall s | OpensClause(KeywordOf(s))
      ensures DecText(s).None? && s != "ssid"
    {
      KeywordIsLetter(s);
      LetterIsNoNumber(s);
    }
  }
}
