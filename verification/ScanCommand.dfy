/**
  Scheduled scans from the words of the command line to the attributes the kernel
  reads. Words are told by their spelling, attributes by their nl80211 numbers.
 */
module ScanCommand {
  import opened Bits
  import opened CStrings
  import opened Spelling
  import opened Netlink
  import opened SchedScan

  // ---- a reader of the message ------------------------------------------------------------

  function Pick<T>(f: Attr -> seq<T>, attrs: seq<Attr>): seq<T>
  {
    if attrs == [] then [] else f(attrs[0]) + Pick(f, attrs[1..])
  }

  function WordWith(id: nat): Attr -> seq<nat> { (a: Attr) => if a.U32? && a.id == id then [a.word] else [] }
  function BlobWith(id: nat): Attr -> seq<seq<byte>> { (a: Attr) => if a.Bytes? && a.id == id then [a.data] else [] }
  function NestWith(id: nat): Attr -> seq<seq<Attr>> { (a: Attr) => if a.Nest? && a.id == id then [a.kids] else [] }

  /** The values of all 32-bit attributes with an id, and so on. */
  function Words(attrs: seq<Attr>, id: nat): seq<nat> { Pick(WordWith(id), attrs) }
  function Blobs(attrs: seq<Attr>, id: nat): seq<seq<byte>> { Pick(BlobWith(id), attrs) }
  function Nests(attrs: seq<Attr>, id: nat): seq<seq<Attr>> { Pick(NestWith(id), attrs) }

  lemma {:induction false} PickConcat<T>(f: Attr -> seq<T>, a: seq<Attr>, b: seq<Attr>)
    ensures Pick(f, a + b) == Pick(f, a) + Pick(f, b)
    decreases |a|
  {
    if a == [] {
      assert a + b == b && [] + Pick(f, b) == Pick(f, b);
    } else {
      PickConcat(f, a[1..], b);
      assert (a + b)[1..] == a[1..] + b;
      assert f(a[0]) + (Pick(f, a[1..]) + Pick(f, b)) == f(a[0]) + Pick(f, a[1..]) + Pick(f, b);
    }
  }

  lemma PickOne<T>(f: Attr -> seq<T>, a: Attr)
    ensures Pick(f, [a]) == f(a) && Pick(f, []) == []
  {
    assert [a][1..] == [] && f(a) + [] == f(a);
  }

  // ---- what clauses ask for --------------------------------------------------------------------

  function IntervalsOf(c: Clause): seq<nat> { if c.IntervalClause? then [c.seconds] else [] }
  function DelaysOf(c: Clause): seq<nat> { if c.DelayClause? then [c.seconds] else [] }
  function MacsOf(c: Clause): seq<seq<byte>>
  {
    if c.RandomClause? && c.address.Some? then [c.address.value.mac] else []
  }
  function MasksOf(c: Clause): seq<seq<byte>>
  {
    if c.RandomClause? && c.address.Some? then [c.address.value.mask] else []
  }

  /** Nest k + 1 has the interval of plan k as attribute 1, and as attribute 2 its iterations when it has any. */
  ghost predicate ListsPlans(kids: seq<Attr>, ps: seq<Plan>)
  {
    |kids| == |ps| && forall k :: 0 <= k < |ps| ==>
      && kids[k].Nest? && kids[k].id == k + 1
      && Words(kids[k].kids, 1) == [ps[k].interval]
      && Words(kids[k].kids, 2) == if ps[k].iterations > 0 then [ps[k].iterations] else []
  }

  /** Attribute k is frequency k. */
  ghost predicate ListsFreqs(kids: seq<Attr>, fs: seq<nat>)
  {
    |kids| == |fs| && forall k :: 0 <= k < |fs| ==> kids[k] == U32(k, fs[k])
  }

  /** Nest k has SSID k as attribute 1. */
  ghost predicate ListsMatches(kids: seq<Attr>, ss: seq<string>)
  {
    |kids| == |ss| && forall k :: 0 <= k < |ss| ==> kids[k] == Nest(k, [Text(1, ss[k])])
  }

  ghost predicate ListsSsids(kids: seq<Attr>, ss: seq<string>)
  {
    |kids| == |ss| && forall k :: 0 <= k < |ss| ==> kids[k] == Text(1, ss[k])
  }

  /** The attributes say exactly what the clauses ask for. */
  ghost predicate Says(out: seq<Attr>, cs: seq<Clause>)
  {
    SaysNumbers(out, cs) && SaysSsids(out, cs) && SaysFreqs(out, cs) && SaysMatches(out, cs) && SaysPlans(out, cs)
  }

  /** Interval, delay, and the address and mask to randomise with. */
  ghost predicate SaysNumbers(out: seq<Attr>, cs: seq<Clause>)
  {
    && Words(out, 119) == Collect(IntervalsOf, cs)
    && Words(out, 220) == Collect(DelaysOf, cs)
    && Blobs(out, 6) == Collect(MacsOf, cs)
    && Blobs(out, 215) == Collect(MasksOf, cs)
    && Words(out, 158) == (if Has(IsRandom, cs) then [8] else [])
  }

  /** The SSIDs to probe for: the empty one when none are named, and no list at all in a passive scan. */
  ghost predicate SaysSsids(out: seq<Attr>, cs: seq<Clause>)
  {
    var ss, nests := Collect(ScanSsids, cs), Nests(out, 45);
    if Has(IsPassive, cs) then nests == [] else |nests| == 1 && ListsSsids(nests[0], if ss == [] then [""] else ss)
  }

  ghost predicate SaysFreqs(out: seq<Attr>, cs: seq<Clause>)
  {
    var fs, nests := Collect(FreqsOf, cs), Nests(out, 44);
    if Has(IsFreqs, cs) then |nests| == 1 && ListsFreqs(nests[0], fs) else nests == []
  }

  ghost predicate SaysMatches(out: seq<Attr>, cs: seq<Clause>)
  {
    var ss, nests := Collect(MatchSsids, cs), Nests(out, 132);
    if ss != [] then |nests| == 1 && ListsMatches(nests[0], ss) else nests == []
  }

  ghost predicate SaysPlans(out: seq<Attr>, cs: seq<Clause>)
  {
    var ps, nests := Collect(PlansOf, cs), Nests(out, 225);
    if Has(IsPlans, cs) then |nests| == 1 && ListsPlans(nests[0], ps) else nests == []
  }

  // ---- the message says it ----------------------------------------------------------------------

  /** What is put directly, clause by clause. */
  lemma {:induction false} PickDirect<T>(f: Attr -> seq<T>, g: Clause -> seq<T>, cs: seq<Clause>)
    requires forall c: Clause :: Pick(f, DirectPuts(c)) == g(c)
    ensures Pick(f, Collect(DirectPuts, cs)) == Collect(g, cs)
    decreases |cs|
  {
    if cs != [] {
      PickDirect(f, g, cs[1..]);
      PickConcat(f, DirectPuts(cs[0]), Collect(DirectPuts, cs[1..]));
    }
  }

  lemma PickTwo<T>(f: Attr -> seq<T>, a: Attr, b: Attr)
    ensures Pick(f, [a, b]) == f(a) + f(b)
  {
    PickOne(f, a);
    PickOne(f, b);
    PickConcat(f, [a], [b]);
    assert [a] + [b] == [a, b];
  }

  lemma DirectWords(c: Clause)
    ensures Words(DirectPuts(c), 119) == IntervalsOf(c) && Words(DirectPuts(c), 220) == DelaysOf(c)
    ensures Words(DirectPuts(c), 158) == []
  {
    match c
    case IntervalClause(n) =>
      PickOne(WordWith(119), U32(SCHED_SCAN_INTERVAL, n));
      PickOne(WordWith(220), U32(SCHED_SCAN_INTERVAL, n));
      PickOne(WordWith(158), U32(SCHED_SCAN_INTERVAL, n));
    case DelayClause(n) =>
      PickOne(WordWith(119), U32(SCHED_SCAN_DELAY, n));
      PickOne(WordWith(220), U32(SCHED_SCAN_DELAY, n));
      PickOne(WordWith(158), U32(SCHED_SCAN_DELAY, n));
    case RandomClause(Some(x)) =>
      var a, b := Bytes(ATTR_MAC, x.mac), Bytes(ATTR_MAC_MASK, x.mask);
      PickTwo(WordWith(119), a, b);
      PickTwo(WordWith(220), a, b);
      PickTwo(WordWith(158), a, b);
    case _ =>
  }

  lemma DirectBlobs(c: Clause)
    ensures Blobs(DirectPuts(c), 6) == MacsOf(c) && Blobs(DirectPuts(c), 215) == MasksOf(c)
  {
    match c
    case IntervalClause(n) =>
      PickOne(BlobWith(6), U32(SCHED_SCAN_INTERVAL, n));
      PickOne(BlobWith(215), U32(SCHED_SCAN_INTERVAL, n));
    case DelayClause(n) =>
      PickOne(BlobWith(6), U32(SCHED_SCAN_DELAY, n));
      PickOne(BlobWith(215), U32(SCHED_SCAN_DELAY, n));
    case RandomClause(Some(x)) =>
      var a, b := Bytes(ATTR_MAC, x.mac), Bytes(ATTR_MAC_MASK, x.mask);
      PickTwo(BlobWith(6), a, b);
      PickTwo(BlobWith(215), a, b);
    case _ =>
  }

  lemma DirectNests(c: Clause, id: nat)
    ensures Nests(DirectPuts(c), id) == []
  {
    match c
    case IntervalClause(n) => PickOne(NestWith(id), U32(SCHED_SCAN_INTERVAL, n));
    case DelayClause(n) => PickOne(NestWith(id), U32(SCHED_SCAN_DELAY, n));
    case RandomClause(Some(x)) => PickTwo(NestWith(id), Bytes(ATTR_MAC, x.mac), Bytes(ATTR_MAC_MASK, x.mask));
    case _ =>
  }
  /** The attributes behind those the message had before. */
  function Added(d: Digest): seq<Attr>
  {
    d.direct + (SsidPart(d) + (FreqPart(d) + (MatchPart(d) + (PlanPart(d) + FlagPart(d)))))
  }

  function SsidPart(d: Digest): seq<Attr>
  {
    NestIf(!d.passive, SCAN_SSIDS, SsidAttrs(if d.scan == [] then [""] else d.scan))
  }
  function FreqPart(d: Digest): seq<Attr> { NestIf(d.hasFreqs, SCAN_FREQUENCIES, FreqAttrs(d.freqs)) }
  function MatchPart(d: Digest): seq<Attr> { NestIf(d.match_ != [], SCHED_SCAN_MATCH, MatchAttrs(d.match_)) }
  function PlanPart(d: Digest): seq<Attr> { NestIf(d.hasPlans, SCHED_SCAN_PLANS, PlanAttrs(d.plans)) }
  function FlagPart(d: Digest): seq<Attr> { if d.random then [U32(SCAN_FLAGS, RANDOM_ADDR)] else [] }

  lemma Regroup<T>(m: seq<T>, a: seq<T>, b: seq<T>, c: seq<T>, e: seq<T>, f: seq<T>, g: seq<T>)
    ensures m + a + b + c + e + f + g == m + (a + (b + (c + (e + (f + g)))))
  {
    var x := m + a + b + c;
    assert x + e + f + g == x + (e + (f + g));
    var y := e + (f + g);
    assert m + a + b + c + y == m + (a + (b + (c + y)));
  }

  lemma AddedBehind(msg: seq<Attr>, d: Digest)
    ensures DigestMessage(msg, d) == msg + Added(d)
  {
    Regroup(msg, d.direct, SsidPart(d), FreqPart(d), MatchPart(d), PlanPart(d), FlagPart(d));
  }

  lemma PickAdded<T>(f: Attr -> seq<T>, d: Digest)
    ensures Pick(f, Added(d)) == Pick(f, d.direct) + (Pick(f, SsidPart(d)) + (Pick(f, FreqPart(d))
              + (Pick(f, MatchPart(d)) + (Pick(f, PlanPart(d)) + Pick(f, FlagPart(d))))))
  {
    var e := PlanPart(d) + FlagPart(d);
    var c := MatchPart(d) + e;
    var b := FreqPart(d) + c;
    PickConcat(f, d.direct, SsidPart(d) + b);
    PickConcat(f, SsidPart(d), b);
    PickConcat(f, FreqPart(d), c);
    PickConcat(f, MatchPart(d), e);
    PickConcat(f, PlanPart(d), FlagPart(d));
  }

  /** A part that is a nest has no words or bytes outside it. */
  lemma NestIfPicks(cond: bool, id: nat, kids: seq<Attr>, want: nat)
    ensures Words(NestIf(cond, id, kids), want) == [] && Blobs(NestIf(cond, id, kids), want) == []
    ensures Nests(NestIf(cond, id, kids), want) == if cond && id == want then [kids] else []
  {
    PickOne(WordWith(want), Nest(id, kids));
    PickOne(BlobWith(want), Nest(id, kids));
    PickOne(NestWith(want), Nest(id, kids));
  }

  lemma FlagPicks(d: Digest, want: nat)
    ensures Words(FlagPart(d), want) == if d.random && want == 158 then [8] else []
    ensures Blobs(FlagPart(d), want) == [] && Nests(FlagPart(d), want) == []
  {
    var a := U32(SCAN_FLAGS, RANDOM_ADDR);
    PickOne(WordWith(want), a);
    PickOne(BlobWith(want), a);
    PickOne(NestWith(want), a);
  }

  /** Lists of which most are empty. */
  lemma FirstAndLast<T>(a: seq<T>, b: seq<T>, c: seq<T>, e: seq<T>, f: seq<T>, g: seq<T>)
    requires b == [] && c == [] && e == [] && f == []
    ensures a + (b + (c + (e + (f + g)))) == a + g
  {
  }

  lemma WordsAdded(d: Digest, want: nat)
    ensures Words(Added(d), want) == Words(d.direct, want) + if d.random && want == 158 then [8] else []
  {
    PickAdded(WordWith(want), d);
    NestIfPicks(!d.passive, SCAN_SSIDS, SsidAttrs(if d.scan == [] then [""] else d.scan), want);
    NestIfPicks(d.hasFreqs, SCAN_FREQUENCIES, FreqAttrs(d.freqs), want);
    NestIfPicks(d.match_ != [], SCHED_SCAN_MATCH, MatchAttrs(d.match_), want);
    NestIfPicks(d.hasPlans, SCHED_SCAN_PLANS, PlanAttrs(d.plans), want);
    FlagPicks(d, want);
    FirstAndLast(Words(d.direct, want), Words(SsidPart(d), want), Words(FreqPart(d), want), Words(MatchPart(d), want),
                 Words(PlanPart(d), want), Words(FlagPart(d), want));
  }

  lemma BlobsAdded(d: Digest, want: nat)
    ensures Blobs(Added(d), want) == Blobs(d.direct, want)
  {
    PickAdded(BlobWith(want), d);
    NestIfPicks(!d.passive, SCAN_SSIDS, SsidAttrs(if d.scan == [] then [""] else d.scan), want);
    NestIfPicks(d.hasFreqs, SCAN_FREQUENCIES, FreqAttrs(d.freqs), want);
    NestIfPicks(d.match_ != [], SCHED_SCAN_MATCH, MatchAttrs(d.match_), want);
    NestIfPicks(d.hasPlans, SCHED_SCAN_PLANS, PlanAttrs(d.plans), want);
    FlagPicks(d, want);
    FirstAndLast(Blobs(d.direct, want), Blobs(SsidPart(d), want), Blobs(FreqPart(d), want), Blobs(MatchPart(d), want),
                 Blobs(PlanPart(d), want), Blobs(FlagPart(d), want));
  }

  /** The nests with an id are those of the four list parts. */
  lemma NestsAdded(d: Digest, want: nat)
    requires Nests(d.direct, want) == []
    ensures Nests(Added(d), want)
            == Nests(SsidPart(d), want)
               + (Nests(FreqPart(d), want) + (Nests(MatchPart(d), want) + Nests(PlanPart(d), want)))
  {
    PickAdded(NestWith(want), d);
    FlagPicks(d, want);
    WithoutEnds(Nests(d.direct, want), Nests(SsidPart(d), want), Nests(FreqPart(d), want), Nests(MatchPart(d), want),
                Nests(PlanPart(d), want), Nests(FlagPart(d), want));
  }

  lemma WithoutEnds<T>(a: seq<T>, b: seq<T>, c: seq<T>, e: seq<T>, f: seq<T>, g: seq<T>)
    requires a == [] && g == []
    ensures a + (b + (c + (e + (f + g)))) == b + (c + (e + f))
  {
    assert f + g == f;
  }

  lemma OnlyOneOf<T>(b: seq<T>, c: seq<T>, e: seq<T>, f: seq<T>)
    ensures c == [] && e == [] && f == [] ==> b + (c + (e + f)) == b
    ensures b == [] && e == [] && f == [] ==> b + (c + (e + f)) == c
    ensures b == [] && c == [] && f == [] ==> b + (c + (e + f)) == e
    ensures b == [] && c == [] && e == [] ==> b + (c + (e + f)) == f
  {
  }

  /** The part that holds the nest with an id. */
  lemma NestOf(d: Digest, want: nat)
    requires Nests(d.direct, want) == []
    ensures want == 45 ==> Nests(Added(d), want) == Nests(SsidPart(d), want)
    ensures want == 44 ==> Nests(Added(d), want) == Nests(FreqPart(d), want)
    ensures want == 132 ==> Nests(Added(d), want) == Nests(MatchPart(d), want)
    ensures want == 225 ==> Nests(Added(d), want) == Nests(PlanPart(d), want)
  {
    NestsAdded(d, want);
    NestIfPicks(!d.passive, SCAN_SSIDS, SsidAttrs(if d.scan == [] then [""] else d.scan), want);
    NestIfPicks(d.hasFreqs, SCAN_FREQUENCIES, FreqAttrs(d.freqs), want);
    NestIfPicks(d.match_ != [], SCHED_SCAN_MATCH, MatchAttrs(d.match_), want);
    NestIfPicks(d.hasPlans, SCHED_SCAN_PLANS, PlanAttrs(d.plans), want);
    OnlyOneOf(Nests(SsidPart(d), want), Nests(FreqPart(d), want), Nests(MatchPart(d), want), Nests(PlanPart(d), want));
  }

  lemma PlansListed(ps: seq<Plan>)
    ensures ListsPlans(PlanAttrs(ps), ps)
  {
    var kids := PlanAttrs(ps);
    forall k | 0 <= k < |ps|
      ensures Words(kids[k].kids, 1) == [ps[k].interval]
      ensures Words(kids[k].kids, 2) == if ps[k].iterations > 0 then [ps[k].iterations] else []
    {
      PlanPicks(ps[k], k + 1);
    }
  }

  lemma PlanPicks(p: Plan, id: nat)
    ensures Words(PlanAttr(p, id).kids, 1) == [p.interval]
    ensures Words(PlanAttr(p, id).kids, 2) == if p.iterations > 0 then [p.iterations] else []
  {
    var a, b := U32(PLAN_INTERVAL, p.interval), U32(PLAN_ITERATIONS, p.iterations);
    PickOne(WordWith(1), a);
    PickOne(WordWith(2), a);
    PickTwo(WordWith(1), a, b);
    PickTwo(WordWith(2), a, b);
    assert [a] + [] == [a] && [a] + [b] == [a, b];
  }

  function NoWords(c: Clause): seq<nat> { [] }
  function NoNests(c: Clause): seq<seq<Attr>> { [] }

  lemma DirectSays(cs: seq<Clause>)
    ensures var direct := Collect(DirectPuts, cs);
            && Words(direct, 119) == Collect(IntervalsOf, cs) && Words(direct, 220) == Collect(DelaysOf, cs)
            && Words(direct, 158) == []
            && Blobs(direct, 6) == Collect(MacsOf, cs) && Blobs(direct, 215) == Collect(MasksOf, cs)
  {
    forall c: Clause
      ensures Pick(WordWith(119), DirectPuts(c)) == IntervalsOf(c)
      ensures Pick(WordWith(220), DirectPuts(c)) == DelaysOf(c)
      ensures Pick(WordWith(158), DirectPuts(c)) == NoWords(c)
      ensures Pick(BlobWith(6), DirectPuts(c)) == MacsOf(c)
      ensures Pick(BlobWith(215), DirectPuts(c)) == MasksOf(c)
    {
      DirectWords(c);
      DirectBlobs(c);
    }
    PickDirect(WordWith(119), IntervalsOf, cs);
    PickDirect(WordWith(220), DelaysOf, cs);
    PickDirect(WordWith(158), NoWords, cs);
    PickDirect(BlobWith(6), MacsOf, cs);
    PickDirect(BlobWith(215), MasksOf, cs);
    CollectsNothing(NoWords, cs);
  }

  lemma DirectHasNoNests(cs: seq<Clause>, id: nat)
    ensures Nests(Collect(DirectPuts, cs), id) == []
  {
    forall c: Clause
      ensures Pick(NestWith(id), DirectPuts(c)) == NoNests(c)
    {
      DirectNests(c, id);
    }
    PickDirect(NestWith(id), NoNests, cs);
    CollectsNothing(NoNests, cs);
  }

  lemma NumbersSaid(cs: seq<Clause>)
    ensures SaysNumbers(Added(DigestOf(cs)), cs)
  {
    var d := DigestOf(cs);
    DirectSays(cs);
    WordsAdded(d, 119);
    WordsAdded(d, 220);
    WordsAdded(d, 158);
    BlobsAdded(d, 6);
    BlobsAdded(d, 215);
  }

  lemma SsidsSaid(cs: seq<Clause>)
    ensures SaysSsids(Added(DigestOf(cs)), cs)
  {
    var d := DigestOf(cs);
    DirectHasNoNests(cs, 45);
    NestOf(d, 45);
    NestIfPicks(!d.passive, SCAN_SSIDS, SsidAttrs(if d.scan == [] then [""] else d.scan), 45);
  }

  lemma FreqsSaid(cs: seq<Clause>)
    ensures SaysFreqs(Added(DigestOf(cs)), cs)
  {
    var d := DigestOf(cs);
    DirectHasNoNests(cs, 44);
    NestOf(d, 44);
    NestIfPicks(d.hasFreqs, SCAN_FREQUENCIES, FreqAttrs(d.freqs), 44);
  }

  lemma MatchesSaid(cs: seq<Clause>)
    ensures SaysMatches(Added(DigestOf(cs)), cs)
  {
    var d := DigestOf(cs);
    DirectHasNoNests(cs, 132);
    NestOf(d, 132);
    NestIfPicks(d.match_ != [], SCHED_SCAN_MATCH, MatchAttrs(d.match_), 132);
  }

  lemma PlansSaid(cs: seq<Clause>)
    ensures SaysPlans(Added(DigestOf(cs)), cs)
  {
    var d := DigestOf(cs);
    DirectHasNoNests(cs, 225);
    NestOf(d, 225);
    NestIfPicks(d.hasPlans, SCHED_SCAN_PLANS, PlanAttrs(d.plans), 225);
    PlansListed(d.plans);
  }

  /** The message of a clause list says what the clauses ask for, behind what it held before. */
  lemma MessageSays(msg: seq<Attr>, cs: seq<Clause>)
    ensures msg <= Message(msg, cs) && Says(Message(msg, cs)[|msg|..], cs)
  {
    AddedBehind(msg, DigestOf(cs));
    assert Message(msg, cs)[|msg|..] == Added(DigestOf(cs));
    NumbersSaid(cs);
    SsidsSaid(cs);
    FreqsSaid(cs);
    MatchesSaid(cs);
    PlansSaid(cs);
  }

  // ---- the words of the command line ---------------------------------------------------------------

  /** A decimal number as strtoul and an unsigned int hold it. */
  ghost predicate SpellsWord(d: string, n: nat)
  {
    exists v: nat :: SpellsDecimal(d, v) && n == if v > 0xFFFF_FFFF_FFFF_FFFF then 0xFFFF_FFFF else v % 0x1_0000_0000
  }

  /** "10:3" is a plan with iterations, "10" one without. */
  ghost predicate SpellsPlan(t: string, p: Plan)
  {
    if p.iterations == 0 then SpellsWord(t, p.interval)
    else exists d: string, e: string :: SpellsWord(d, p.interval) && SpellsWord(e, p.iterations) && t == d + ":" + e
  }

  /** An address and a mask behind "randomise=", or neither. */
  ghost predicate SpellsRandom(mac: string -> Option<seq<byte>>, t: string, a: Option<Address>)
  {
    match a
    case None => t == "randomise" || t == "randomize"
    case Some(x) =>
      exists m: string, k: string {:trigger mac(m), mac(k)} ::
        && mac(m) == Some(x.mac) && mac(k) == Some(x.mask) && '/' !in m
        && (t == "randomise=" + (m + "/" + k) || t == "randomize=" + (m + "/" + k))
  }

  /** The words of one clause. */
  ghost predicate SpellsClause(mac: string -> Option<seq<byte>>, t: seq<string>, c: Clause)
  {
    t != [] &&
    match c
    case IntervalClause(n) => t[0] == "interval" && |t| == 2 && SpellsWord(t[1], n) && n != 0
    case DelayClause(n) => t[0] == "delay" && |t| == 2 && SpellsWord(t[1], n)
    case PlansClause(ps) =>
      && t[0] == "scan_plans" && |t| == 1 + |ps| && (forall k :: 0 <= k < |ps| ==> SpellsPlan(t[1 + k], ps[k]))
      && PlansRunOut(ps)
    case MatchesClause(ss) => t[0] == "matches" && SpellsSsids(t[1..], ss)
    case FreqsClause(fs) =>
      t[0] == "freqs" && |t| == 1 + |fs| && forall k :: 0 <= k < |fs| ==> SpellsWord(t[1 + k], fs[k])
    case ActiveClause(ss) => t[0] == "active" && SpellsSsids(t[1..], ss)
    case PassiveClause => t == ["passive"]
    case RandomClause(a) => |t| == 1 && SpellsRandom(mac, t[0], a)
  }

  lemma WordRead(d: string, n: nat)
    requires SpellsWord(d, n)
    ensures DecText(d) == Some(n)
  {
    var v: nat :| SpellsDecimal(d, v) && n == if v > 0xFFFF_FFFF_FFFF_FFFF then 0xFFFF_FFFF else v % 0x1_0000_0000;
    StrtoulReads(d, v, "");
    assert d + "" == d;
  }

  lemma WordThenRead(d: string, n: nat, t: string)
    requires SpellsWord(d, n) && EndsNumber(t)
    ensures var (v, end) := Strtoul(d + t, 10); ToU32(v) == n && end == |d|
  {
    var v: nat :| SpellsDecimal(d, v) && n == if v > 0xFFFF_FFFF_FFFF_FFFF then 0xFFFF_FFFF else v % 0x1_0000_0000;
    StrtoulReads(d, v, t);
  }

  lemma PlanRead(t: string, p: Plan)
    requires SpellsPlan(t, p)
    ensures PlanText(t) == Some(p)
  {
    if p.iterations == 0 {
      WordThenRead(t, p.interval, "");
      assert t + "" == t;
    } else {
      var d: string, e: string :| SpellsWord(d, p.interval) && SpellsWord(e, p.iterations) && t == d + ":" + e;
      assert t == d + (":" + e) && t[|d| + 1..] == e;
      WordThenRead(d, p.interval, ":" + e);
      WordThenRead(e, p.iterations, "");
      assert e + "" == e;
    }
  }

  lemma AddressRead(mac: string -> Option<seq<byte>>, head: string, m: string, k: string, x: Address)
    requires |head| == 10 && head[9] == '=' && '/' !in m && mac(m) == Some(x.mac) && mac(k) == Some(x.mask)
    ensures RandomText(mac, head + (m + "/" + k)) == Some(Some(x))
  {
    var s := head + (m + "/" + k);
    var sep := 10 + |m|;
    forall j | 10 <= j < sep
      ensures s[j] != '/'
    {
      assert s[j] == m[j - 10];
    }
    FirstFrom(s, '/', 10);
    assert s[sep] == '/';
    assert IndexFrom(s, '/', 10) == sep;
    assert s[10..sep] == m && s[sep + 1..] == k;
  }

  lemma RandomRead(mac: string -> Option<seq<byte>>, t: string, a: Option<Address>)
    requires SpellsRandom(mac, t, a)
    ensures RandomText(mac, t) == Some(a) && KeywordOf(t) == KRandom
  {
    match a
    case None =>
      assert "randomise" <= t || "randomize" <= t;
    case Some(x) =>
      var m: string, k: string :| mac(m) == Some(x.mac) && mac(k) == Some(x.mask) && '/' !in m
        && (t == "randomise=" + (m + "/" + k) || t == "randomize=" + (m + "/" + k));
      AddressRead(mac, if t == "randomise=" + (m + "/" + k) then "randomise=" else "randomize=", m, k, x);
      assert "randomise" <= t || "randomize" <= t;
      assert t[0] == 'r';
  }

  lemma ClauseSpelled(mac: string -> Option<seq<byte>>, t: seq<string>, c: Clause)
    requires SpellsClause(mac, t, c)
    ensures Spells(CReaders(mac), KeywordOf(t[0]), t, c)
  {
    match c
    case IntervalClause(n) => WordRead(t[1], n);
    case DelayClause(n) => WordRead(t[1], n);
    case PlansClause(ps) =>
      forall k | 0 <= k < |ps|
        ensures PlanText(t[1..][k]) == Some(ps[k])
      {
        PlanRead(t[1 + k], ps[k]);
      }
    case FreqsClause(fs) =>
      forall k | 0 <= k < |fs|
        ensures DecText(t[1..][k]) == Some(fs[k])
      {
        WordRead(t[1 + k], fs[k]);
      }
    case RandomClause(a) => RandomRead(mac, t[0], a);
    case _ =>
  }

  /** Words that spell the clauses one after the other, each list but the last visibly ended. */
  ghost predicate SpellsCommand(mac: string -> Option<seq<byte>>, parts: seq<seq<string>>, cs: seq<Clause>)
  {
    && |parts| == |cs| && (forall i :: 0 <= i < |cs| ==> SpellsClause(mac, parts[i], cs[i]))
    && forall i :: 0 <= i < |cs| - 1 ==> Closed(cs[i])
  }

  /** A word that belongs to some other parser. */
  predicate OtherWord(w: string)
  {
    && w != "" && 'a' <= w[0] <= 'z'
    && w !in {"interval", "scan_plans", "delay", "matches", "freqs", "active", "passive", "ssid"}
    && !("randomise" <= w) && !("randomize" <= w)
  }

  lemma OtherWordFollows(mac: string -> Option<seq<byte>>, cs: seq<Clause>, rest: seq<string>)
    requires rest != [] && OtherWord(rest[0]) && (cs != [] ==> Closed(cs[|cs| - 1]))
    ensures Follows(CReaders(mac), cs, rest) && !OpensClause(KeywordOf(rest[0]))
  {
    LetterIsNoNumber(rest[0]);
  }

  lemma CommandRead(mac: string -> Option<seq<byte>>, parts: seq<seq<string>>, cs: seq<Clause>, rest: seq<string>)
    requires SpellsCommand(mac, parts, cs) && (rest != [] ==> OtherWord(rest[0]) && (cs != [] ==> Closed(cs[|cs| - 1])))
    ensures ReadUntil(CReaders(mac), Flat(parts) + rest) == (cs, rest)
  {
    var rd := CReaders(mac);
    forall i | 0 <= i < |cs|
      ensures parts[i] != [] && Spells(rd, rd.keyword(parts[i][0]), parts[i], cs[i])
    {
      ClauseSpelled(mac, parts[i], cs[i]);
    }
    CKeywordsAreWords(mac);
    if rest != [] {
      OtherWordFollows(mac, cs, rest);
    }
    SpelledClausesRead(rd, parts, cs, rest);
  }

  /** What is sent when a word of another parser follows: numbers and addresses, but neither lists nor flags. */
  ghost predicate SaysDirectly(out: seq<Attr>, cs: seq<Clause>)
  {
    && Words(out, 119) == Collect(IntervalsOf, cs) && Words(out, 220) == Collect(DelaysOf, cs)
    && Blobs(out, 6) == Collect(MacsOf, cs) && Blobs(out, 215) == Collect(MasksOf, cs)
    && Words(out, 158) == [] && forall id: nat :: Nests(out, id) == []
  }

  /**
    From the words of a command line to attribute numbers. Clauses that clash give
    -EINVAL. Others that fill the command line give a message that says exactly what
    they ask for; in front of another parser's word they give 0 and that word back,
    and only what is not in a list has reached the message.
   */
  lemma CommandSaysClauses(mac: string -> Option<seq<byte>>, msg: seq<Attr>, parts: seq<seq<string>>, cs: seq<Clause>,
                           rest: seq<string>)
    requires SpellsCommand(mac, parts, cs) && (rest != [] ==> OtherWord(rest[0]) && (cs != [] ==> Closed(cs[|cs| - 1])))
    ensures var r := Run(CReaders(mac), Initial(msg), Flat(parts) + rest);
            && (!Consistent(cs) ==> r.err == -22)
            && (Consistent(cs) ==> r.err == 0 && r.left == rest && msg <= r.msg)
            && (Consistent(cs) && rest == [] ==> Says(r.msg[|msg|..], cs))
            && (Consistent(cs) && rest != [] ==> SaysDirectly(r.msg[|msg|..], cs))
  {
    var rd := CReaders(mac);
    CommandRead(mac, parts, cs, rest);
    RunOutcome(rd, msg, Flat(parts) + rest);
    MessageSays(msg, cs);
    if rest != [] {
      OtherWordFollows(mac, cs, rest);
      DirectSays(cs);
      forall id: nat
        ensures Nests(Collect(DirectPuts, cs), id) == []
      {
        DirectHasNoNests(cs, id);
      }
      var direct := Collect(DirectPuts, cs);
      assert (msg + direct)[|msg|..] == direct;
    }
  }
}
