/**
  Packet coalescing rules: the three-state parser of the rule file, which builds
  a nested netlink message, and the handler that shows such a message.
 */
module Coalesce {
  import opened CStrings
  import opened HexMask
  import opened Netlink

  /** strtoul of a whole string in base 10 and 16; None when characters are left. */
  datatype Readers = Readers(dec: string -> Option<nat>, hex: HexReader)

  const COALESCE_RULE: nat := 182
  const RULE_DELAY: nat := 1
  const RULE_CONDITION: nat := 2
  const RULE_PKT_PATTERN: nat := 3
  const PKTPAT_MASK: nat := 1
  const PKTPAT_PATTERN: nat := 2
  const PKTPAT_OFFSET: nat := 3

  datatype PktPattern = PktPattern(offset: nat, items: Items)
  datatype Rule = Rule(delay: nat, condition: nat, patterns: seq<PktPattern>)

  // ---- lines ------------------------------------------------------------------------

  function CutAt(s: string, c: char): string
  {
    if |s| < 5 then s else s[..IndexFrom(s, c, 5)]
  }

  /** A line without its end; lines shorter than 5 characters are no keyword anyway. */
  function Content(line: string): string { CutAt(CutAt(line, '\r'), '\n') }

  /** What follows a keyword. */
  function After(key: string, line: string): Option<string>
  {
    var s := Content(line);
    if key <= s then Some(s[|key|..]) else None
  }

  function Number(rd: Readers, key: string, line: string): Option<nat>
  {
    match After(key, line)
    case None => None
    case Some(t) => rd.dec(t)
  }

  function SkipPlus(s: string, pos: nat): (i: nat)
    requires pos <= |s|
    ensures pos <= i <= |s| && (i < |s| ==> s[i] != '+')
    decreases |s| - pos
  {
    if pos < |s| && s[pos] == '+' then SkipPlus(s, pos + 1) else pos
  }

  /** strtok_r with "+": the bounds of the next token, or None. */
  function PlusToken(s: string, pos: nat): (r: Option<(nat, nat)>)
    requires pos <= |s|
    ensures r.Some? ==> pos <= r.value.0 < r.value.1 <= |s|
  {
    var i := SkipPlus(s, pos);
    if i == |s| then None else Some((i, IndexFrom(s, '+', i)))
  }

  /** [offset+]pattern: the offset, and the text that goes to parse_hex_mask. */
  function CutPiece(rd: Readers, s: string): Option<(nat, string)>
  {
    match PlusToken(s, 0)
    case None => None
    case Some((i, e)) =>
      match PlusToken(s, e)
      case None => Some((0, s[i..e]))
      case Some((i2, e2)) =>
        match rd.dec(s[i..e])
        case None => None
        case Some(o) => Some((o, s[i2..e2]))
  }

  function WithOffset(offset: nat, items: Outcome<Items>): Outcome<PktPattern>
  {
    match items
    case Refused => Refused
    case Outside => Outside
    case Got(its) => Got(PktPattern(offset, its))
  }

  /** A piece between commas; Outside when parse_hex_mask or the reading of its result leaves a block. */
  function ParsePattern(rd: Readers, s: string): Outcome<PktPattern>
  {
    match CutPiece(rd, s)
    case None => Refused
    case Some((o, text)) => WithOffset(o, ReadItems(rd.hex, text))
  }

  /** How a piece between commas is read. */
  type PieceReader = string -> Outcome<PktPattern>

  function Piece(rd: Readers): PieceReader { (s: string) => ParsePattern(rd, s) }

  /**
    The reader agrees with ParsePattern. Proofs about the loop speak of `read` only, so
    that the solver does not unfold the parser at every use.
   */
  ghost predicate Reads(rd: Readers, read: PieceReader)
  {
    forall s {:trigger ParsePattern(rd, s)} :: read(s) == ParsePattern(rd, s)
  }

  /** The comma-separated patterns from a position on, unless one of them stops the parser. */
  function PatternsFrom(read: PieceReader, s: string, pos: nat): (r: Outcome<seq<PktPattern>>)
    requires pos <= |s|
    decreases |s| - pos
  {
    var e := IndexFrom(s, ',', pos);
    match read(s[pos..e])
    case Refused => Refused
    case Outside => Outside
    case Got(p) => if e == |s| then Got([p]) else Onto([p], PatternsFrom(read, s, e + 1))
  }

  function Patterns(rd: Readers, line: string): Outcome<seq<PktPattern>>
  {
    match After("patterns=", line)
    case None => Refused
    case Some(t) => PatternsFrom(Piece(rd), t, 0)
  }

  function MakeRule(d: Option<nat>, c: Option<nat>, ps: Outcome<seq<PktPattern>>): Outcome<Rule>
  {
    if d.None? || c.None? then Refused
    else
      match ps
      case Refused => Refused
      case Outside => Outside
      case Got(l) => Got(Rule(d.value, c.value, l))
  }

  /** The rule a delay, a condition and a patterns line make. */
  function ParseRule(rd: Readers, l0: string, l1: string, l2: string): Outcome<Rule>
  {
    MakeRule(Number(rd, "delay=", l0), Number(rd, "condition=", l1), Patterns(rd, l2))
  }

  /** How three lines are read as a rule. */
  type RuleReader = (string, string, string) -> Outcome<Rule>

  function RuleOf(rd: Readers): RuleReader { (l0: string, l1: string, l2: string) => ParseRule(rd, l0, l1, l2) }

  function RulesFrom(read: RuleReader, lines: seq<string>): Outcome<seq<Rule>>
    decreases |lines|
  {
    if lines == [] then Got([])
    else if |lines| < 3 then Refused
    else
      match read(lines[0], lines[1], lines[2])
      case Refused => Refused
      case Outside => Outside
      case Got(r) => Onto([r], RulesFrom(read, lines[3..]))
  }

  /** A file of complete rules, and nothing else; Outside when a pattern text overruns before that is known. */
  function FileRules(rd: Readers, lines: seq<string>): Outcome<seq<Rule>> { RulesFrom(RuleOf(rd), lines) }

  // ---- the message of a rule list ------------------------------------------------------

  function EncodePattern(p: PktPattern, num: nat): Attr
  {
    var q := PatternOf(p.items);
    Nest(num, [Bytes(PKTPAT_MASK, q.mask), Bytes(PKTPAT_PATTERN, q.val), U32(PKTPAT_OFFSET, p.offset)])
  }

  /** Patterns numbered from num + 1 on. */
  function EncodePatterns(ps: seq<PktPattern>, num: nat): (r: seq<Attr>)
    ensures |r| == |ps|
  {
    if ps == [] then [] else [EncodePattern(ps[0], num + 1)] + EncodePatterns(ps[1..], num + 1)
  }

  function EncodeRule(r: Rule, ruleNum: nat, patNum: nat): Attr
  {
    Nest(ruleNum, [U32(RULE_DELAY, r.delay), U32(RULE_CONDITION, r.condition),
                   Nest(RULE_PKT_PATTERN, EncodePatterns(r.patterns, patNum))])
  }

  /** Rules numbered from ruleNum + 1 on, patterns through all of them from patNum + 1 on. */
  function EncodeRules(rs: seq<Rule>, ruleNum: nat, patNum: nat): (r: seq<Attr>)
    ensures |r| == |rs|
  {
    if rs == [] then []
    else [EncodeRule(rs[0], ruleNum + 1, patNum)] + EncodeRules(rs[1..], ruleNum + 1, patNum + |rs[0].patterns|)
  }

  // ---- the state machine ----------------------------------------------------------------

  datatype Phase = Delay | Condition | PatternList

  datatype State = State(phase: Phase, ruleNum: nat, patNum: nat, msg: Msg)

  /** A delay line opens the next rule. */
  function OnDelay(st: State, d: Option<nat>): (r: Outcome<State>)
    ensures r.Got? ==> r.value.phase == Condition
    ensures !r.Outside?
  {
    match d
    case None => Refused
    case Some(v) =>
      Got(State(Condition, st.ruleNum + 1, st.patNum, Put(Start(st.msg, st.ruleNum + 1), U32(RULE_DELAY, v))))
  }

  function OnCondition(st: State, c: Option<nat>): (r: Outcome<State>)
    ensures r.Got? ==> r.value.phase == PatternList
    ensures !r.Outside?
  {
    match c
    case None => Refused
    case Some(v) => Got(st.(phase := PatternList, msg := Put(st.msg, U32(RULE_CONDITION, v))))
  }

  /** A patterns line fills and closes the rule. */
  function OnPatterns(st: State, ps: Outcome<seq<PktPattern>>): (r: Outcome<State>)
    ensures r.Got? ==> r.value.phase == Delay
  {
    if |st.msg| < 2 || ps.Refused? then Refused
    else if ps.Outside? then Outside
    else
      var m := End(PutAll(Start(st.msg, RULE_PKT_PATTERN), EncodePatterns(ps.value, st.patNum)));
      Got(State(Delay, st.ruleNum, st.patNum + |ps.value|, End(m)))
  }

  /** The switch on the parse state for one line; Refused is the jump to `close`. */
  function LineStep(rd: Readers, st: State, line: string): Outcome<State>
  {
    match st.phase
    case Delay => OnDelay(st, Number(rd, "delay=", line))
    case Condition => OnCondition(st, Number(rd, "condition=", line))
    case PatternList => OnPatterns(st, Patterns(rd, line))
  }

  function Run(rd: Readers, st: State, lines: seq<string>): Outcome<State>
    decreases |lines|
  {
    if lines == [] then Got(st)
    else
      match LineStep(rd, st, lines[0])
      case Refused => Refused
      case Outside => Outside
      case Got(st') => Run(rd, st', lines[1..])
  }

  // ---- what the machine builds -----------------------------------------------------------

  /** The three good lines of a rule append exactly its encoding. */
  lemma RuleSteps(rd: Readers, m: Msg, ruleNum: nat, patNum: nat, d: nat, c: nat, ps: seq<PktPattern>)
    ensures var m1 := Put(Start(m, ruleNum), U32(RULE_DELAY, d));
            var m2 := Put(m1, U32(RULE_CONDITION, c));
            var m3 := End(End(PutAll(Start(m2, RULE_PKT_PATTERN), EncodePatterns(ps, patNum))));
            m3 == Put(m, EncodeRule(Rule(d, c, ps), ruleNum, patNum))
  {
    var s := Start(m, ruleNum);
    var a, b := U32(RULE_DELAY, d), U32(RULE_CONDITION, c);
    PutAllNone(s);
    PutAllMore(s, [], a);
    PutAllMore(s, [a], b);
    assert [] + [a] == [a] && [a] + [b] == [a, b];
    var m2 := PutAll(s, [a, b]);
    var kids := EncodePatterns(ps, patNum);
    NestDone(m2, RULE_PKT_PATTERN, kids);
    var n := Nest(RULE_PKT_PATTERN, kids);
    PutAllMore(s, [a, b], n);
    assert [a, b] + [n] == [a, b, n];
    NestDone(m, ruleNum, [a, b, n]);
  }

  function PatternCount(rs: seq<Rule>): nat
  {
    if rs == [] then 0 else |rs[0].patterns| + PatternCount(rs[1..])
  }

  /** The state after the lines of a rule list. */
  function AfterRules(st: State, rs: seq<Rule>): State
  {
    State(Delay, st.ruleNum + |rs|, st.patNum + PatternCount(rs),
          PutAll(st.msg, EncodeRules(rs, st.ruleNum, st.patNum)))
  }

  function AfterRule(st: State, r: Rule): State
  {
    State(Delay, st.ruleNum + 1, st.patNum + |r.patterns|, Put(st.msg, EncodeRule(r, st.ruleNum + 1, st.patNum)))
  }

  /** The rest of a run after a step. */
  function RunOn(rd: Readers, o: Outcome<State>, lines: seq<string>): Outcome<State>
  {
    match o
    case Refused => Refused
    case Outside => Outside
    case Got(st) => Run(rd, st, lines)
  }

  function StepOn(rd: Readers, o: Outcome<State>, line: string): Outcome<State>
  {
    match o
    case Refused => Refused
    case Outside => Outside
    case Got(st) => LineStep(rd, st, line)
  }

  /** The state after three lines. */
  function Three(rd: Readers, st: State, l0: string, l1: string, l2: string): Outcome<State>
  {
    StepOn(rd, StepOn(rd, LineStep(rd, st, l0), l1), l2)
  }

  lemma StepsMakeRule(rd: Readers, st: State, d: nat, c: nat, ps: seq<PktPattern>)
    ensures var st1 := OnDelay(st, Some(d)).value;
            var st2 := OnCondition(st1, Some(c)).value;
            OnPatterns(st2, Got(ps)) == Got(AfterRule(st, Rule(d, c, ps)))
  {
    var num := st.ruleNum + 1;
    var m1 := Put(Start(st.msg, num), U32(RULE_DELAY, d));
    var m2 := Put(m1, U32(RULE_CONDITION, c));
    var st1, st2 := State(Condition, num, st.patNum, m1), State(PatternList, num, st.patNum, m2);
    assert OnDelay(st, Some(d)) == Got(st1) && OnCondition(st1, Some(c)) == Got(st2);
    RuleSteps(rd, st.msg, num, st.patNum, d, c, ps);
  }

  function AfterOutcome(st: State, r: Outcome<Rule>): Outcome<State>
  {
    match r
    case Refused => Refused
    case Outside => Outside
    case Got(rule) => Got(AfterRule(st, rule))
  }

  /** The three values of a rule, taken one after the other. */
  lemma ThreeValues(rd: Readers, st: State, d: Option<nat>, c: Option<nat>, ps: Outcome<seq<PktPattern>>)
    ensures var o1 := OnDelay(st, d);
            var o2 := if o1.Got? then OnCondition(o1.value, c) else o1;
            (if o2.Got? then OnPatterns(o2.value, ps) else o2) == AfterOutcome(st, MakeRule(d, c, ps))
  {
    if d.Some? && c.Some? && ps.Got? {
      StepsMakeRule(rd, st, d.value, c.value, ps.value);
    }
  }

  lemma ThreeIsRule(rd: Readers, st: State, l0: string, l1: string, l2: string)
    requires st.phase == Delay
    ensures Three(rd, st, l0, l1, l2) == AfterOutcome(st, ParseRule(rd, l0, l1, l2))
  {
    var d, c, ps := Number(rd, "delay=", l0), Number(rd, "condition=", l1), Patterns(rd, l2);
    ThreeValues(rd, st, d, c, ps);
    var o1 := OnDelay(st, d);
    assert LineStep(rd, st, l0) == o1;
    var o2 := if o1.Got? then OnCondition(o1.value, c) else o1;
    assert StepOn(rd, o1, l1) == o2;
    assert StepOn(rd, o2, l2) == if o2.Got? then OnPatterns(o2.value, ps) else o2;
  }

  lemma RunUnfold(rd: Readers, st: State, lines: seq<string>)
    requires lines != []
    ensures Run(rd, st, lines) == RunOn(rd, LineStep(rd, st, lines[0]), lines[1..])
  {
  }

  lemma RunOnUnfold(rd: Readers, o: Outcome<State>, lines: seq<string>)
    requires lines != []
    ensures RunOn(rd, o, lines) == RunOn(rd, StepOn(rd, o, lines[0]), lines[1..])
  {
    if o.Got? {
      RunUnfold(rd, o.value, lines);
    }
  }

  lemma RunThree(rd: Readers, st: State, lines: seq<string>)
    requires |lines| >= 3
    ensures Run(rd, st, lines) == RunOn(rd, Three(rd, st, lines[0], lines[1], lines[2]), lines[3..])
  {
    var l1, l2 := lines[1..], lines[2..];
    assert l1[0] == lines[1] && l1[1..] == l2 && l2[0] == lines[2] && l2[1..] == lines[3..];
    RunUnfold(rd, st, lines);
    var o := LineStep(rd, st, lines[0]);
    RunOnUnfold(rd, o, l1);
    RunOnUnfold(rd, StepOn(rd, o, lines[1]), l2);
  }

  /** One or two more lines leave a rule unfinished, and never come to a pattern. */
  lemma RunFew(rd: Readers, st: State, lines: seq<string>)
    requires st.phase == Delay && 1 <= |lines| <= 2
    ensures var r := Run(rd, st, lines); !r.Outside? && (r.Got? ==> r.value.phase != Delay)
  {
    RunUnfold(rd, st, lines);
    var r := LineStep(rd, st, lines[0]);
    if r.Got? && |lines| == 2 {
      RunUnfold(rd, r.value, lines[1..]);
    }
  }

  lemma AfterRuleThenRules(st: State, r: Rule, rs: seq<Rule>)
    ensures AfterRules(AfterRule(st, r), rs) == AfterRules(st, [r] + rs)
  {
    var a := EncodeRule(r, st.ruleNum + 1, st.patNum);
    assert ([r] + rs)[1..] == rs;
    PutAllNone(st.msg);
    PutAllMore(st.msg, [], a);
    assert [] + [a] == [a];
    PutAllTwice(st.msg, [a], EncodeRules(rs, st.ruleNum + 1, st.patNum + |r.patterns|));
  }

  /** What a run from between two rules gives, by what the lines are. */
  ghost predicate RunMeets(r: Outcome<State>, st: State, rules: Outcome<seq<Rule>>)
  {
    match rules
    case Refused => !r.Outside? && (r.Got? ==> r.value.phase != Delay)
    case Outside => r.Outside?
    case Got(rs) => r == Got(AfterRules(st, rs))
  }

  /** The machine ends between rules exactly on files of complete rules. */
  lemma {:induction false} RunRules(rd: Readers, st: State, lines: seq<string>)
    requires st.phase == Delay
    ensures RunMeets(Run(rd, st, lines), st, FileRules(rd, lines))
    decreases |lines|
  {
    if lines == [] {
      PutAllNone(st.msg);
    } else if |lines| < 3 {
      RunFew(rd, st, lines);
    } else {
      RunThree(rd, st, lines);
      ThreeIsRule(rd, st, lines[0], lines[1], lines[2]);
      var r := ParseRule(rd, lines[0], lines[1], lines[2]);
      if r.Got? {
        RunRules(rd, AfterRule(st, r.value), lines[3..]);
        var rest := FileRules(rd, lines[3..]);
        if rest.Got? {
          AfterRuleThenRules(st, r.value, rest.value);
        }
      }
    }
  }

  /**
    A first line of fewer than five characters: the search for its end starts at
    the sixth byte of the line buffer, which nobody has written yet. A later line
    as short finds there what the line before it has left.
   */
  predicate ShortStart(lines: seq<string>) { lines != [] && |lines[0]| < 5 }

  /**
    handle_coalesce_enable: the error code, and the message when it is 0; Outside
    when the call leaves a block of parse_hex_mask or reads unwritten bytes.
   */
  function Handle(rd: Readers, msg: Msg, lines: seq<string>): (r: Outcome<(int, Msg)>)
  {
    if ShortStart(lines) then Outside
    else
      match Run(rd, State(Delay, 0, 0, Start(msg, COALESCE_RULE)), lines)
      case Refused => Got((1, msg))
      case Outside => Outside
      case Got(st) => Got(if st.phase == Delay && |st.msg| >= 2 then (0, End(st.msg)) else (1, msg))
  }

  /** The message of a rule list: one attribute more, with all its nests closed. */
  function RulesMessage(msg: Msg, rs: seq<Rule>): Msg { Put(msg, Nest(COALESCE_RULE, EncodeRules(rs, 0, 0))) }

  /** What follows a keyword is found only on lines that are long enough for it. */
  lemma KeywordLine(key: string, line: string)
    requires After(key, line).Some?
    ensures |line| >= |key|
  {
  }

  lemma RulesStartLong(rd: Readers, lines: seq<string>)
    requires FileRules(rd, lines).Got?
    ensures !ShortStart(lines)
  {
    if lines != [] {
      assert RuleOf(rd)(lines[0], lines[1], lines[2]).Got?;
      KeywordLine("delay=", lines[0]);
    }
  }

  /**
    On every file the handler does exactly one of three things. It returns 0 for
    zero or more complete valid rules whose pattern texts fit their blocks; then
    the message has gained one attribute: the rules numbered 1, 2, ... with their
    patterns numbered 1, 2, ... through the whole file. It touches memory it must
    not exactly when the first line is too short, or else when the first thing
    wrong with the file is a pattern text that does not fit. It returns 1 for all
    others.
   */
  lemma HandleAccepts(rd: Readers, msg: Msg, lines: seq<string>)
    ensures Handle(rd, msg, lines) == if lines != [] && |lines[0]| < 5 then Outside
                                      else match FileRules(rd, lines)
                                           case Refused => Got((1, msg))
                                           case Outside => Outside
                                           case Got(rs) => Got((0, RulesMessage(msg, rs)))
    ensures FileRules(rd, lines).Got? && lines != [] ==> |lines[0]| >= 5
  {
    var st := State(Delay, 0, 0, Start(msg, COALESCE_RULE));
    RunRules(rd, st, lines);
    var rs := FileRules(rd, lines);
    if rs.Got? {
      NestDone(msg, COALESCE_RULE, EncodeRules(rs.value, 0, 0));
      RulesStartLong(rd, lines);
    }
  }

  /** A file that begins with a line of three characters. */
  lemma ShortFirstLine(rd: Readers, msg: Msg)
    ensures Handle(rd, msg, ["ab\n"]) == Outside
  {
  }

  // ---- pattern texts that fit their blocks -------------------------------------------------

  /** The text that a piece hands to parse_hex_mask fits its block. */
  predicate PieceFits(rd: Readers, s: string)
  {
    var cut := CutPiece(rd, s);
    cut.Some? ==> FitsBuffer(cut.value.1)
  }

  predicate PiecesFit(rd: Readers, s: string, pos: nat)
    requires pos <= |s|
    decreases |s| - pos
  {
    var e := IndexFrom(s, ',', pos);
    PieceFits(rd, s[pos..e]) && (e < |s| ==> PiecesFit(rd, s, e + 1))
  }

  predicate LineFits(rd: Readers, line: string)
  {
    var t := After("patterns=", line);
    t.Some? ==> PiecesFit(rd, t.value, 0)
  }

  lemma PieceStaysInside(rd: Readers, s: string)
    ensures PieceFits(rd, s) ==> ParsePattern(rd, s) != Outside
    ensures ParsePattern(rd, s).Got? ==> PieceFits(rd, s)
  {
    var cut := CutPiece(rd, s);
    if cut.Some? {
      ParsesInsideIff(rd.hex, cut.value.1);
    }
  }

  lemma PieceReadInside(rd: Readers, read: PieceReader, s: string)
    requires Reads(rd, read)
    ensures PieceFits(rd, s) ==> read(s) != Outside
    ensures read(s).Got? ==> PieceFits(rd, s)
  {
    assert read(s) == ParsePattern(rd, s);
    PieceStaysInside(rd, s);
  }

  lemma {:induction false} PatternsStayInside(rd: Readers, read: PieceReader, s: string, pos: nat)
    requires pos <= |s| && Reads(rd, read)
    ensures PiecesFit(rd, s, pos) ==> PatternsFrom(read, s, pos) != Outside
    ensures PatternsFrom(read, s, pos).Got? ==> PiecesFit(rd, s, pos)
    decreases |s| - pos
  {
    var e := IndexFrom(s, ',', pos);
    PieceReadInside(rd, read, s[pos..e]);
    if e < |s| {
      PatternsStayInside(rd, read, s, e + 1);
    }
  }

  lemma RuleStaysInside(rd: Readers, l0: string, l1: string, l2: string)
    ensures LineFits(rd, l2) ==> ParseRule(rd, l0, l1, l2) != Outside
    ensures ParseRule(rd, l0, l1, l2).Got? ==> LineFits(rd, l2)
  {
    var t := After("patterns=", l2);
    if t.Some? {
      PatternsStayInside(rd, Piece(rd), t.value, 0);
    }
  }

  lemma {:induction false} RulesStayInside(read: RuleReader, fits: string -> bool, lines: seq<string>)
    requires forall l0, l1, l2 :: fits(l2) ==> read(l0, l1, l2) != Outside
    requires forall l0, l1, l2 :: read(l0, l1, l2).Got? ==> fits(l2)
    ensures (forall k :: 0 <= k < |lines| ==> fits(lines[k])) ==> RulesFrom(read, lines) != Outside
    ensures RulesFrom(read, lines).Got? ==> forall k :: 0 <= k < |lines| && k % 3 == 2 ==> fits(lines[k])
    decreases |lines|
  {
    if |lines| >= 3 {
      var rest := lines[3..];
      RulesStayInside(read, fits, rest);
      assert forall k :: 0 <= k < |rest| ==> rest[k] == lines[k + 3];
      forall k | 0 <= k < |lines| && k % 3 == 2 && RulesFrom(read, lines).Got?
        ensures fits(lines[k])
      {
        if k >= 3 {
          assert fits(rest[k - 3]);
        }
      }
    }
  }

  /**
    When every pattern text of a file fits its block the handler never leaves one,
    and it returns 0 only for files whose pattern texts all fit.
   */
  lemma FileStaysInside(rd: Readers, lines: seq<string>)
    ensures (forall k :: 0 <= k < |lines| ==> LineFits(rd, lines[k])) ==> FileRules(rd, lines) != Outside
    ensures FileRules(rd, lines).Got? ==> forall k :: 0 <= k < |lines| && k % 3 == 2 ==> LineFits(rd, lines[k])
  {
    var read, fits := RuleOf(rd), (l: string) => LineFits(rd, l);
    forall l0, l1, l2
      ensures fits(l2) ==> read(l0, l1, l2) != Outside
      ensures read(l0, l1, l2).Got? ==> fits(l2)
    {
      RuleStaysInside(rd, l0, l1, l2);
    }
    RulesStayInside(read, fits, lines);
  }

  // ---- the parser loops ---------------------------------------------------------------------

  /** The nest of one pattern, built attribute by attribute. */
  method AppendPattern(m: Msg, offset: nat, q: Pattern, num: nat, ghost p: PktPattern) returns (r: Msg)
    requires offset == p.offset && q == PatternOf(p.items)
    ensures r == Put(m, EncodePattern(p, num))
  {
    var a, b, c := Bytes(PKTPAT_MASK, q.mask), Bytes(PKTPAT_PATTERN, q.val), U32(PKTPAT_OFFSET, offset);
    ghost var s := Start(m, num);
    PutAllNone(s);
    r := Start(m, num);
    PutAllMore(s, [], a);
    r := Put(r, a);
    PutAllMore(s, [a], b);
    r := Put(r, b);
    PutAllMore(s, [a, b], c);
    r := Put(r, c);
    assert [] + [a] == [a] && [a] + [b] == [a, b] && [a, b] + [c] == [a, b, c];
    NestDone(m, num, [a, b, c]);
    r := End(r);
  }

  /** What parse_hex_mask makes of a piece: its offset and its blocks. */
  function Blocks(p: PktPattern): (nat, Pattern) { (p.offset, PatternOf(p.items)) }

  function BlocksOf(o: Outcome<PktPattern>): Outcome<(nat, Pattern)>
  {
    match o
    case Refused => Refused
    case Outside => Outside
    case Got(p) => Got(Blocks(p))
  }

  /** One piece: its tokens, its offset, and its text through parse_hex_mask. */
  method TakePiece(rd: Readers, s: string, ghost read: PieceReader) returns (r: Outcome<(nat, Pattern)>)
    requires Reads(rd, read)
    ensures r == BlocksOf(read(s))
  {
    assert read(s) == ParsePattern(rd, s);
    var cut := CutPiece(rd, s);
    if cut.None? {
      return Refused;
    }
    var q := ParseHexMask(rd.hex, cut.value.1);
    match q
    case Refused =>
      r := Refused;
    case Outside =>
      r := Outside;
    case Got(pattern) =>
      r := Got((cut.value.0, pattern));
  }

  /** One round of the pattern loop: parse the piece at pos and append its nest. */
  method TakePattern(rd: Readers, text: string, pos: nat, msg: Msg, n: nat,
                     ghost read: PieceReader, ghost done: seq<PktPattern>)
    returns (r: Outcome<Msg>, e: nat, ghost p: PktPattern)
    requires pos <= |text| && Reads(rd, read)
    ensures r.Refused? ==> PatternsFrom(read, text, pos) == Refused
    ensures r.Outside? ==> PatternsFrom(read, text, pos) == Outside
    ensures r.Got? ==> pos <= e <= |text| && r.value == Put(msg, EncodePattern(p, n + 1))
    ensures r.Got? ==> Onto(done, PatternsFrom(read, text, pos))
                       == if e == |text| then Got(done + [p]) else Onto(done + [p], PatternsFrom(read, text, e + 1))
  {
    e := IndexFrom(text, ',', pos);
    p := PktPattern(0, []);
    var piece := TakePiece(rd, text[pos..e], read);
    ghost var o := read(text[pos..e]);
    match piece
    case Refused =>
      r := Refused;
    case Outside =>
      r := Outside;
    case Got((offset, pattern)) =>
      p := o.value;
      PatternsStep(read, text, pos, done, p);
      var m := AppendPattern(msg, offset, pattern, n + 1, p);
      r := Got(m);
  }

  /** Filing one more pattern nest. */
  lemma FileNext(m: Msg, msg: Msg, done: seq<PktPattern>, p: PktPattern, num: nat)
    requires msg == PutAll(m, EncodePatterns(done, num))
    ensures Put(msg, EncodePattern(p, num + |done| + 1)) == PutAll(m, EncodePatterns(done + [p], num))
  {
    EncodeSnoc(done, p, num);
    PutAllMore(m, EncodePatterns(done, num), EncodePattern(p, num + |done| + 1));
  }

  lemma {:induction false} EncodeSnoc(ps: seq<PktPattern>, p: PktPattern, num: nat)
    ensures EncodePatterns(ps + [p], num) == EncodePatterns(ps, num) + [EncodePattern(p, num + |ps| + 1)]
    decreases |ps|
  {
    if ps == [] {
      assert [] + [p] == [p];
      assert [p][1..] == [];
    } else {
      EncodeSnoc(ps[1..], p, num + 1);
      var all, first := ps + [p], EncodePattern(ps[0], num + 1);
      assert all[0] == ps[0] && all[1..] == ps[1..] + [p];
      assert EncodePatterns(all, num) == [first] + EncodePatterns(all[1..], num + 1);
      assert EncodePatterns(ps, num) == [first] + EncodePatterns(ps[1..], num + 1);
    }
  }

  /** The same round, seen from all patterns filed so far. */
  method FilePattern(rd: Readers, text: string, pos: nat, msg: Msg, n: nat,
                     ghost read: PieceReader, ghost m: Msg, ghost num: nat, ghost done: seq<PktPattern>)
    returns (r: Outcome<Msg>, e: nat, ghost all: seq<PktPattern>)
    requires pos <= |text| && n == num + |done| && msg == PutAll(m, EncodePatterns(done, num))
    requires Reads(rd, read)
    ensures r.Refused? ==> PatternsFrom(read, text, pos) == Refused
    ensures r.Outside? ==> PatternsFrom(read, text, pos) == Outside
    ensures r.Got? ==> pos <= e <= |text| && |all| == |done| + 1 && r.value == PutAll(m, EncodePatterns(all, num))
    ensures r.Got? ==> Onto(done, PatternsFrom(read, text, pos))
                       == if e == |text| then Got(all) else Onto(all, PatternsFrom(read, text, e + 1))
  {
    ghost var p;
    r, e, p := TakePattern(rd, text, pos, msg, n, read, done);
    FileNext(m, msg, done, p, num);
    all := done + [p];
  }

  /** The loop over the comma-separated patterns of a line: the message and the last number, unless it stops. */
  method ReadPatterns(rd: Readers, text: string, m: Msg, num: nat, ghost read: PieceReader)
    returns (r: Outcome<(Msg, nat)>)
    requires Reads(rd, read)
    ensures match PatternsFrom(read, text, 0)
            case Refused => r == Refused
            case Outside => r == Outside
            case Got(ps) => r == Got((PutAll(m, EncodePatterns(ps, num)), num + |ps|))
  {
    var pos, msg, n := 0, m, num;
    ghost var done: seq<PktPattern> := [];
    ghost var whole := PatternsFrom(read, text, 0);
    OntoNothing(whole);
    PutAllNone(m);
    while true
      invariant 0 <= pos <= |text| && n == num + |done|
      invariant whole == Onto(done, PatternsFrom(read, text, pos))
      invariant msg == PutAll(m, EncodePatterns(done, num))
      decreases |text| - pos
    {
      var next, e;
      next, e, done := FilePattern(rd, text, pos, msg, n, read, m, num, done);
      if !next.Got? {
        return if next.Refused? then Refused else Outside;
      }
      msg, n := next.value, n + 1;
      if e == |text| {
        assert whole == Got(done);
        return Got((msg, n));
      }
      pos := e + 1;
    }
  }

  lemma PatternsStep(read: PieceReader, text: string, pos: nat, done: seq<PktPattern>, p: PktPattern)
    requires pos <= |text| && read(text[pos..IndexFrom(text, ',', pos)]) == Got(p)
    ensures var e := IndexFrom(text, ',', pos);
            Onto(done, PatternsFrom(read, text, pos))
            == if e == |text| then Got(done + [p]) else Onto(done + [p], PatternsFrom(read, text, e + 1))
  {
    var e := IndexFrom(text, ',', pos);
    if e < |text| {
      OntoNext(done, p, PatternsFrom(read, text, e + 1));
    }
  }

  /** The text of a patterns line, in the state that expects one. */
  method TakePatternText(rd: Readers, st: State, text: string, ghost read: PieceReader) returns (r: Outcome<State>)
    requires Reads(rd, read)
    ensures r == OnPatterns(st, PatternsFrom(read, text, 0))
  {
    if |st.msg| < 2 {
      return Refused;
    }
    var ps := ReadPatterns(rd, text, Start(st.msg, RULE_PKT_PATTERN), st.patNum, read);
    match ps
    case Refused =>
      r := Refused;
    case Outside =>
      r := Outside;
    case Got((m, n)) =>
      r := Got(State(Delay, st.ruleNum, n, End(End(m))));
  }

  /** One line, in the state the machine is in. */
  method TakeLine(rd: Readers, st: State, line: string) returns (r: Outcome<State>)
    ensures r == LineStep(rd, st, line)
  {
    match st.phase
    case Delay =>
      r := OnDelay(st, Number(rd, "delay=", line));
    case Condition =>
      r := OnCondition(st, Number(rd, "condition=", line));
    case PatternList =>
      var t := After("patterns=", line);
      if t.None? {
        return Refused;
      }
      r := TakePatternText(rd, st, t.value, Piece(rd));
  }

  /** The read loop over the lines of the file. */
  method HandleCoalesceEnable(rd: Readers, msg: Msg, lines: seq<string>) returns (r: Outcome<(int, Msg)>)
    ensures r == Handle(rd, msg, lines)
  {
    var st := State(Delay, 0, 0, Start(msg, COALESCE_RULE));
    ghost var all := Run(rd, st, lines);
    if ShortStart(lines) {
      return Outside;
    }
    var i := 0;
    assert lines[0..] == lines;
    while i < |lines|
      invariant 0 <= i <= |lines|
      invariant all == Run(rd, st, lines[i..])
    {
      RunUnfold(rd, st, lines[i..]);
      assert lines[i..][1..] == lines[i + 1..];
      var next := TakeLine(rd, st, lines[i]);
      if !next.Got? {
        return if next.Refused? then Got((1, msg)) else Outside;
      }
      st := next.value;
      i := i + 1;
    }
    if st.phase == Delay && |st.msg| >= 2 {
      return Got((0, End(st.msg)));
    }
    return Got((1, msg));
  }

  // ---- the show handler ------------------------------------------------------------------------

  datatype ShownPattern = InvalidPattern | ShownPattern(offset: int, text: string)
  datatype ShownRule = ShownRule(delay: int, notMatch: bool, patterns: seq<ShownPattern>)

  /** A 32-bit word printed with %d. */
  function Signed(v: nat): int
  {
    var w: int := ToU32(v);
    if w < 0x8000_0000 then w else w - 0x1_0000_0000
  }

  /** nla_parse: the last attribute with an id. */
  function Find(kids: seq<Attr>, id: nat): Option<Attr>
  {
    if kids == [] then None
    else if kids[|kids| - 1].id == id then Some(kids[|kids| - 1])
    else Find(kids[..|kids| - 1], id)
  }

  function ShowPattern(a: Attr): ShownPattern
  {
    if !a.Nest? then InvalidPattern
    else
      match (Find(a.kids, PKTPAT_MASK), Find(a.kids, PKTPAT_PATTERN), Find(a.kids, PKTPAT_OFFSET))
      case (Some(Bytes(_, mask)), Some(Bytes(_, val)), Some(U32(_, o))) =>
        if DivRoundUp(|val|) != |mask| then InvalidPattern
        else ShownPattern(Signed(o), PrintItems(ItemsOf(Pattern(val, mask))))
      case _ => InvalidPattern
  }

  function ShowPatterns(kids: seq<Attr>): (r: seq<ShownPattern>)
    ensures |r| == |kids|
  {
    if kids == [] then [] else [ShowPattern(kids[0])] + ShowPatterns(kids[1..])
  }

  /** nla_get_u32 of an attribute; None when it is missing and the null pointer is followed. */
  function WordOf(kids: seq<Attr>, id: nat): Option<nat>
  {
    var a := Find(kids, id);
    if a.Some? && a.value.U32? then Some(a.value.word) else None
  }

  /** One rule as shown; None when its delay or its condition, which are read unchecked, is missing. */
  function ShowRule(a: Attr): Option<ShownRule>
  {
    if !a.Nest? then None
    else
      match (WordOf(a.kids, RULE_DELAY), WordOf(a.kids, RULE_CONDITION))
      case (Some(d), Some(c)) =>
        var pats := Find(a.kids, RULE_PKT_PATTERN);
        Some(ShownRule(Signed(d), ToU32(c) != 0,
                       if pats.Some? && pats.value.Nest? then ShowPatterns(pats.value.kids) else []))
      case _ => None
  }

  function ShowRules(kids: seq<Attr>): (r: Option<seq<ShownRule>>)
  {
    if kids == [] then Some([])
    else
      match ShowRule(kids[0])
      case None => None
      case Some(r) => Prepend([r], ShowRules(kids[1..]))
  }

  /** What the show handler prints for a rule of a file. */
  function Showing(r: Rule): ShownRule
  {
    ShownRule(Signed(r.delay), ToU32(r.condition) != 0,
              seq(|r.patterns|, i requires 0 <= i < |r.patterns| =>
                ShownPattern(Signed(r.patterns[i].offset), PrintItems(r.patterns[i].items))))
  }

  lemma ItemsOfPatternOf(items: Items)
    ensures ItemsOf(PatternOf(items)) == items
  {
    PatternOfRepresents(items);
    var p := PatternOf(items);
    forall k | 0 <= k < |items|
      ensures ItemsOf(p)[k] == items[k]
    {
      var n: nat := k;
      assert MaskBit(p.mask, n) <==> n < |items| && items[n].Some?;
    }
  }

  lemma FindLast3(a: Attr, b: Attr, c: Attr)
    requires a.id != b.id && b.id != c.id && a.id != c.id
    ensures Find([a, b, c], a.id) == Some(a) && Find([a, b, c], b.id) == Some(b) && Find([a, b, c], c.id) == Some(c)
  {
    assert [a, b, c][..2] == [a, b] && [a, b][..1] == [a];
    assert Find([a], a.id) == Some(a);
    assert Find([a, b], a.id) == Some(a) && Find([a, b], b.id) == Some(b);
  }

  lemma ShowEncodedPattern(p: PktPattern, num: nat)
    ensures ShowPattern(EncodePattern(p, num)) == ShownPattern(Signed(p.offset), PrintItems(p.items))
  {
    var q := PatternOf(p.items);
    FindLast3(Bytes(PKTPAT_MASK, q.mask), Bytes(PKTPAT_PATTERN, q.val), U32(PKTPAT_OFFSET, p.offset));
    PatternOfRepresents(p.items);
    ItemsOfPatternOf(p.items);
  }

  lemma {:induction false} ShowEncodedPatterns(ps: seq<PktPattern>, num: nat)
    ensures forall i :: 0 <= i < |ps| ==>
              ShowPatterns(EncodePatterns(ps, num))[i] == ShownPattern(Signed(ps[i].offset), PrintItems(ps[i].items))
    decreases |ps|
  {
    if ps != [] {
      ShowEncodedPattern(ps[0], num + 1);
      ShowEncodedPatterns(ps[1..], num + 1);
      assert EncodePatterns(ps, num)[1..] == EncodePatterns(ps[1..], num + 1);
    }
  }

  lemma ShowEncodedRule(r: Rule, ruleNum: nat, patNum: nat)
    ensures ShowRule(EncodeRule(r, ruleNum, patNum)) == Some(Showing(r))
  {
    var n := Nest(RULE_PKT_PATTERN, EncodePatterns(r.patterns, patNum));
    FindLast3(U32(RULE_DELAY, r.delay), U32(RULE_CONDITION, r.condition), n);
    ShowEncodedPatterns(r.patterns, patNum);
    assert ShowPatterns(n.kids) == Showing(r).patterns;
  }

  function ShowingAll(rs: seq<Rule>): (r: seq<ShownRule>)
    ensures |r| == |rs|
  {
    seq(|rs|, i requires 0 <= i < |rs| => Showing(rs[i]))
  }

  /** The rules of a message built from a file are shown rule by rule. */
  lemma {:induction false} ShowEncodedRules(rs: seq<Rule>, ruleNum: nat, patNum: nat)
    ensures ShowRules(EncodeRules(rs, ruleNum, patNum)) == Some(ShowingAll(rs))
    decreases |rs|
  {
    if rs != [] {
      var next := patNum + |rs[0].patterns|;
      ShowEncodedRule(rs[0], ruleNum + 1, patNum);
      ShowEncodedRules(rs[1..], ruleNum + 1, next);
      var kids := EncodeRules(rs, ruleNum, patNum);
      assert kids[1..] == EncodeRules(rs[1..], ruleNum + 1, next);
      assert ShowingAll(rs) == [Showing(rs[0])] + ShowingAll(rs[1..]);
    }
  }

  /** The rules a message carries, when it has coalescing enabled. */
  function RulesIn(kids: seq<Attr>): Option<seq<Attr>>
  {
    match Find(kids, COALESCE_RULE)
    case Some(Nest(_, rules)) => Some(rules)
    case _ => None
  }

  /** What the show handler does with a message: it may follow a null pointer. */
  datatype Shown = Disabled | NullRead | Shown(rules: seq<ShownRule>)

  function ShowMessage(kids: seq<Attr>): Shown
  {
    match RulesIn(kids)
    case None => Disabled
    case Some(rules) =>
      match ShowRules(rules)
      case None => NullRead
      case Some(shown) => Shown(shown)
  }

  /** A rule has the two attributes that are read unchecked. */
  predicate Complete(a: Attr)
  {
    a.Nest? && WordOf(a.kids, RULE_DELAY).Some? && WordOf(a.kids, RULE_CONDITION).Some?
  }

  /** The rules are shown to the end exactly when every one of them has its delay and its condition. */
  lemma {:induction false} ShownIffComplete(kids: seq<Attr>)
    ensures ShowRules(kids).Some? <==> forall i :: 0 <= i < |kids| ==> Complete(kids[i])
    decreases |kids|
  {
    if kids != [] {
      var rest := kids[1..];
      ShownIffComplete(rest);
      assert ShowRule(kids[0]).Some? <==> Complete(kids[0]);
      assert forall i :: 1 <= i < |kids| ==> kids[i] == rest[i - 1];
      if forall i :: 0 <= i < |kids| ==> Complete(kids[i]) {
        assert forall i :: 0 <= i < |rest| ==> rest[i] == kids[i + 1];
      }
    }
  }

  /** On every message: a null pointer is followed exactly when some rule lacks one of the two attributes. */
  lemma NullReadIff(kids: seq<Attr>)
    ensures ShowMessage(kids) == NullRead
            <==> RulesIn(kids).Some? && exists i :: 0 <= i < |RulesIn(kids).value| && !Complete(RulesIn(kids).value[i])
    ensures ShowMessage(kids) == Disabled <==> RulesIn(kids).None?
  {
    if RulesIn(kids).Some? {
      ShownIffComplete(RulesIn(kids).value);
    }
  }

  /** A message with an empty rule. */
  lemma EmptyRuleNullRead()
    ensures ShowMessage([Nest(COALESCE_RULE, [Nest(1, [])])]) == NullRead
  {
    var rule := Nest(1, []);
    var kids := [Nest(COALESCE_RULE, [rule])];
    assert RulesIn(kids) == Some([rule]);
    assert !Complete([rule][0]);
    NullReadIff(kids);
  }

  /** The loop over the patterns of a rule. */
  method PrintPatterns(kids: seq<Attr>) returns (r: seq<ShownPattern>)
    ensures r == ShowPatterns(kids)
  {
    r := [];
    for i := 0 to |kids|
      invariant ShowPatterns(kids) == r + ShowPatterns(kids[i..])
    {
      var s := ShowPattern(kids[i]);
      assert kids[i..][1..] == kids[i + 1..];
      assert r + ([s] + ShowPatterns(kids[i + 1..])) == r + [s] + ShowPatterns(kids[i + 1..]);
      r := r + [s];
    }
    assert r + [] == r;
  }

  /** One round of the rule loop: delay, condition and the pattern loop. */
  method PrintRule(a: Attr) returns (one: Option<ShownRule>)
    ensures one == ShowRule(a)
  {
    if !a.Nest? {
      return None;
    }
    var d, c := WordOf(a.kids, RULE_DELAY), WordOf(a.kids, RULE_CONDITION);
    if d.None? || c.None? {
      return None;
    }
    var pats := Find(a.kids, RULE_PKT_PATTERN);
    var ps: seq<ShownPattern> := [];
    if pats.Some? && pats.value.Nest? {
      ps := PrintPatterns(pats.value.kids);
    }
    one := Some(ShownRule(Signed(d.value), ToU32(c.value) != 0, ps));
  }

  lemma ShowRulesStep(shown: seq<ShownRule>, rules: seq<Attr>, i: nat)
    requires i < |rules|
    ensures Prepend(shown, ShowRules(rules[i..]))
            == if ShowRule(rules[i]).None? then None
               else Prepend(shown + [ShowRule(rules[i]).value], ShowRules(rules[i + 1..]))
  {
    var rest := rules[i..];
    assert rest[0] == rules[i] && rest[1..] == rules[i + 1..];
    if ShowRule(rules[i]).Some? {
      PrependNext(shown, ShowRule(rules[i]).value, ShowRules(rules[i + 1..]));
    }
  }

  /** print_coalesce_handler: the loop over the rules of a message. */
  method PrintCoalesce(kids: seq<Attr>) returns (r: Shown)
    ensures r == ShowMessage(kids)
  {
    var found := RulesIn(kids);
    if found.None? {
      return Disabled;
    }
    var rules := found.value;
    var shown: seq<ShownRule> := [];
    ghost var all := ShowRules(rules);
    PrependNothing(all);
    assert rules[0..] == rules;
    for i := 0 to |rules|
      invariant all == Prepend(shown, ShowRules(rules[i..]))
    {
      var one := PrintRule(rules[i]);
      ShowRulesStep(shown, rules, i);
      if one.None? {
        return NullRead;
      }
      shown := shown + [one.value];
    }
    PrependLast(shown);
    return Shown(shown);
  }

  // ---- enable, then show ------------------------------------------------------------------------

  ghost predicate NoEmptyPattern(ps: seq<PktPattern>) { forall i :: 0 <= i < |ps| ==> ps[i].items != [] }

  lemma PieceNotEmpty(rd: Readers, s: string)
    requires ParsePattern(rd, s).Got?
    ensures ParsePattern(rd, s).value.items != []
  {
    var text := CutPiece(rd, s).value.1;
    ParsesInsideIff(rd.hex, text);
    ItemCount(rd.hex, text, 0);
  }

  lemma {:induction false} PatternsNotEmpty(read: PieceReader, s: string, pos: nat)
    requires pos <= |s| && PatternsFrom(read, s, pos).Got?
    requires forall t :: read(t).Got? ==> read(t).value.items != []
    ensures NoEmptyPattern(PatternsFrom(read, s, pos).value)
    decreases |s| - pos
  {
    var e := IndexFrom(s, ',', pos);
    if e < |s| {
      PatternsNotEmpty(read, s, e + 1);
    }
  }

  lemma LineNotEmpty(rd: Readers, text: string)
    requires PatternsFrom(Piece(rd), text, 0).Got?
    ensures NoEmptyPattern(PatternsFrom(Piece(rd), text, 0).value)
  {
    var read := Piece(rd);
    forall t | read(t).Got?
      ensures read(t).value.items != []
    {
      PieceNotEmpty(rd, t);
    }
    PatternsNotEmpty(read, text, 0);
  }

  lemma RuleNotEmpty(rd: Readers, l0: string, l1: string, l2: string)
    requires ParseRule(rd, l0, l1, l2).Got?
    ensures NoEmptyPattern(ParseRule(rd, l0, l1, l2).value.patterns)
  {
    LineNotEmpty(rd, After("patterns=", l2).value);
  }

  lemma {:induction false} RulesFromNotEmpty(read: RuleReader, lines: seq<string>)
    requires RulesFrom(read, lines).Got?
    requires forall l0, l1, l2 :: read(l0, l1, l2).Got? ==> NoEmptyPattern(read(l0, l1, l2).value.patterns)
    ensures var rs := RulesFrom(read, lines).value;
            forall i :: 0 <= i < |rs| ==> NoEmptyPattern(rs[i].patterns)
    decreases |lines|
  {
    if lines != [] {
      RulesFromNotEmpty(read, lines[3..]);
    }
  }

  lemma RulesNotEmpty(rd: Readers, lines: seq<string>)
    requires FileRules(rd, lines).Got?
    ensures var rs := FileRules(rd, lines).value;
            forall i :: 0 <= i < |rs| ==> NoEmptyPattern(rs[i].patterns)
  {
    var read := RuleOf(rd);
    forall l0, l1, l2 | read(l0, l1, l2).Got?
      ensures NoEmptyPattern(read(l0, l1, l2).value.patterns)
    {
      RuleNotEmpty(rd, l0, l1, l2);
    }
    RulesFromNotEmpty(read, lines);
  }

  /**
    Showing the message of an accepted file gives back its rules: each delay and
    condition, and for each pattern its offset and a text that parses, inside its
    blocks, to exactly the pattern's bytes and wildcards.
   */
  lemma ShowRecoversRules(rd: Readers, msg: Msg, lines: seq<string>)
    requires FileRules(rd, lines).Got? && ReadsBytes(rd.hex)
    ensures var rs := FileRules(rd, lines).value;
            var out := RulesMessage(msg, rs);
            && Handle(rd, msg, lines) == Got((0, out))
            && ShowMessage(out[|out| - 1].kids) == Shown(ShowingAll(rs))
            && (forall i, j :: 0 <= i < |rs| && 0 <= j < |rs[i].patterns| ==>
                  ReadItems(rd.hex, PrintItems(rs[i].patterns[j].items)) == Got(rs[i].patterns[j].items))
  {
    var rs := FileRules(rd, lines).value;
    HandleAccepts(rd, msg, lines);
    ShowEncodedRules(rs, 0, 0);
    RulesNotEmpty(rd, lines);
    forall i, j | 0 <= i < |rs| && 0 <= j < |rs[i].patterns|
      ensures ReadItems(rd.hex, PrintItems(rs[i].patterns[j].items)) == Got(rs[i].patterns[j].items)
    {
      assert NoEmptyPattern(rs[i].patterns);
      PrintedStaysInside(rd.hex, rs[i].patterns[j].items);
    }
  }

  // ---- a file that overruns --------------------------------------------------------------------

  lemma CutColons(rd: Readers)
    ensures CutPiece(rd, ":::") == Some((0, ":::"))
  {
    var t := ":::";
    assert IndexFrom(t, '+', 3) == 3 && IndexFrom(t, '+', 2) == 3;
    assert IndexFrom(t, '+', 1) == 3 && IndexFrom(t, '+', 0) == 3;
    assert t[0..3] == t;
  }

  lemma ColonsLine()
    ensures After("patterns=", "patterns=:::\n") == Some(":::")
  {
    var s := "patterns=:::\n";
    assert IndexFrom(s, '\r', 13) == 13 && IndexFrom(s, '\r', 12) == 13 && IndexFrom(s, '\r', 11) == 13;
    assert IndexFrom(s, '\r', 10) == 13 && IndexFrom(s, '\r', 9) == 13 && IndexFrom(s, '\r', 8) == 13;
    assert IndexFrom(s, '\r', 7) == 13 && IndexFrom(s, '\r', 6) == 13 && IndexFrom(s, '\r', 5) == 13;
    assert s[..13] == s;
    assert IndexFrom(s, '\n', 12) == 12 && IndexFrom(s, '\n', 11) == 12 && IndexFrom(s, '\n', 10) == 12;
    assert IndexFrom(s, '\n', 9) == 12 && IndexFrom(s, '\n', 8) == 12 && IndexFrom(s, '\n', 7) == 12;
    assert IndexFrom(s, '\n', 6) == 12 && IndexFrom(s, '\n', 5) == 12;
    assert s[..12] == "patterns=:::";
    assert "patterns=:::"[9..] == ":::";
  }

  /** With empty components read as bytes, a rule with the pattern ":::" makes the handler leave a block. */
  lemma ColonsOverrun(rd: Readers, msg: Msg, l0: string, l1: string)
    requires rd.hex("").Some? && Number(rd, "delay=", l0).Some? && Number(rd, "condition=", l1).Some?
    ensures Handle(rd, msg, [l0, l1, "patterns=:::\n"]) == Outside
  {
    ColonsLine();
    CutColons(rd);
    ThreeColons(rd.hex);
    ColonsPatterns(rd);
    FirstRuleOverruns(rd, msg, l0, l1, "patterns=:::\n");
  }

  lemma FirstRuleOverruns(rd: Readers, msg: Msg, l0: string, l1: string, l2: string)
    requires Number(rd, "delay=", l0).Some? && Number(rd, "condition=", l1).Some? && Patterns(rd, l2) == Outside
    ensures Handle(rd, msg, [l0, l1, l2]) == Outside
  {
    var lines, read := [l0, l1, l2], RuleOf(rd);
    assert read(lines[0], lines[1], lines[2]) == Outside;
    HandleAccepts(rd, msg, lines);
  }

  lemma ColonsPatterns(rd: Readers)
    requires CutPiece(rd, ":::") == Some((0, ":::")) && Scan(rd.hex, ":::") == Outside
    ensures PatternsFrom(Piece(rd), ":::", 0) == Outside
  {
    var t := ":::";
    assert IndexFrom(t, ',', 3) == 3 && IndexFrom(t, ',', 2) == 3;
    assert IndexFrom(t, ',', 1) == 3 && IndexFrom(t, ',', 0) == 3;
    assert t[0..3] == t;
    assert Piece(rd)(t) == Outside;
  }
}
