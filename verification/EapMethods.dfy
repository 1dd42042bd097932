/**
  The EAP methods of a nai_realm line: method numbers separated by commas, each
  with any number of [id:value] authentication parameters behind it.
 */
module EapMethods {
  import opened Bits
  import opened CStrings
  import opened Spelling

  const MAX_NAI_EAP_METHODS: nat := 5
  const MAX_NAI_AUTH_TYPES: nat := 4

  datatype Auth = Auth(id: byte, val: byte)
  datatype Eap = Eap(method_: byte, auths: seq<Auth>)

  /** What atoi makes of a text. */
  type NumberReader = string -> int

  /** An int stored in a u8. */
  function ToByte(v: int): byte { v % 256 }

  // ---- the parameters of one method ------------------------------------------------------

  /** What the search for a parameter ends in: a parameter and the position behind it. */
  datatype Step = NoMore | Broken | Found(auth: Auth, next: nat)

  /** The next [id:value] that begins before `end`; all three of its marks must lie there. */
  function NextAuth(atoi: NumberReader, s: string, pos: nat, end: nat): Step
    requires pos <= |s|
  {
    var open := IndexFrom(s, '[', pos);
    if open == |s| || open > end then NoMore
    else
      var colon := IndexFrom(s, ':', open + 1);
      if colon == |s| || colon > end then Broken
      else
        var close := IndexFrom(s, ']', colon + 1);
        if close == |s| || close > end then Broken
        else Found(Auth(ToByte(atoi(s[open + 1..])), ToByte(atoi(s[colon + 1..]))), close + 1)
  }

  /** How the next parameter of a method is found. */
  type StepReader = (string, nat, nat) -> Step

  function StepOf(atoi: NumberReader): StepReader
  {
    (s: string, pos: nat, end: nat) => if pos <= |s| then NextAuth(atoi, s, pos, end) else NoMore
  }

  /** The parameters from a position on, when `count` are already taken; None when they are refused. */
  function AuthsFrom(step: StepReader, s: string, pos: nat, end: nat, count: nat): Option<seq<Auth>>
    decreases MAX_NAI_AUTH_TYPES - count
  {
    match step(s, pos, end)
    case NoMore => Some([])
    case Broken => None
    case Found(a, next) =>
      if count >= MAX_NAI_AUTH_TYPES then None else Prepend([a], AuthsFrom(step, s, next, end, count + 1))
  }

  /**
    The step agrees with NextAuth. Proofs about the loop speak of `step` only, so
    that the solver does not unfold the search at every use.
   */
  ghost predicate IsStep(atoi: NumberReader, step: StepReader)
  {
    forall s: string, pos: nat, end: nat {:trigger NextAuth(atoi, s, pos, end)} ::
      pos <= |s| ==> step(s, pos, end) == NextAuth(atoi, s, pos, end)
  }

  /** One round of the loop over the parameters. */
  method TakeAuth(atoi: NumberReader, s: string, pos: nat, end: nat, ghost step: StepReader) returns (r: Step)
    requires IsStep(atoi, step) && pos <= |s|
    ensures r == step(s, pos, end) && (r.Found? ==> pos < r.next <= |s|)
  {
    assert step(s, pos, end) == NextAuth(atoi, s, pos, end);
    var open := IndexFrom(s, '[', pos);
    if open == |s| || open > end {
      return NoMore;
    }
    var colon := IndexFrom(s, ':', open + 1);
    if colon == |s| || colon > end {
      return Broken;
    }
    var close := IndexFrom(s, ']', colon + 1);
    if close == |s| || close > end {
      return Broken;
    }
    return Found(Auth(ToByte(atoi(s[open + 1..])), ToByte(atoi(s[colon + 1..]))), close + 1);
  }

  /** The loop over the parameters of a method. */
  method ReadAuths(atoi: NumberReader, s: string, start: nat, end: nat, ghost step: StepReader)
    returns (r: Option<seq<Auth>>)
    requires IsStep(atoi, step) && start <= |s|
    ensures r == AuthsFrom(step, s, start, end, 0)
  {
    var pos, auths := start, [];
    ghost var all := AuthsFrom(step, s, start, end, 0);
    PrependNothing(all);
    while true
      invariant 0 <= pos <= |s|
      invariant all == Prepend(auths, AuthsFrom(step, s, pos, end, |auths|))
      decreases |s| - pos
    {
      var m := TakeAuth(atoi, s, pos, end, step);
      if m.NoMore? {
        PrependLast(auths);
        return Some(auths);
      }
      if m.Broken? || |auths| >= MAX_NAI_AUTH_TYPES {
        return None;
      }
      PrependNext(auths, m.auth, AuthsFrom(step, s, m.next, end, |auths| + 1));
      auths, pos := auths + [m.auth], m.next;
    }
  }

  // ---- the methods of a line ----------------------------------------------------------------

  /** The method at a position and the comma or the end behind it; None when it is refused. */
  function MethodAt(atoi: NumberReader, step: StepReader, s: string, pos: nat): Option<(Eap, nat)>
    requires pos <= |s|
  {
    var end := IndexFrom(s, ',', pos);
    match AuthsFrom(step, s, pos, end, 0)
    case None => None
    case Some(auths) => Some((Eap(ToByte(atoi(s[pos..])), auths), end))
  }

  /** How the method at a position is read. */
  type MethodReader = (string, nat) -> Option<(Eap, nat)>

  function MethodOf(atoi: NumberReader): MethodReader
  {
    (s: string, pos: nat) => if pos <= |s| then MethodAt(atoi, StepOf(atoi), s, pos) else None
  }

  /** The methods from a position on, when `count` are already taken. */
  function MethodsFrom(read: MethodReader, s: string, pos: nat, count: nat): Option<seq<Eap>>
    decreases MAX_NAI_EAP_METHODS - count
  {
    if pos >= |s| then Some([])
    else if count >= MAX_NAI_EAP_METHODS then None
    else
      match read(s, pos)
      case None => None
      case Some((eap, end)) =>
        if end >= |s| then Some([eap]) else Prepend([eap], MethodsFrom(read, s, end + 1, count + 1))
  }

  function EapsFrom(atoi: NumberReader, s: string, pos: nat): Option<seq<Eap>>
  {
    MethodsFrom(MethodOf(atoi), s, pos, 0)
  }

  /** How the EAP methods behind a position are read. */
  type EapReader = (string, nat) -> Option<seq<Eap>>

  function EapsOf(atoi: NumberReader): EapReader { (s: string, pos: nat) => EapsFrom(atoi, s, pos) }

  /** The reader agrees with EapsFrom, whose body stays hidden in the proofs about `read`. */
  ghost predicate IsEapReader(atoi: NumberReader, read: EapReader)
  {
    forall s: string, pos: nat {:trigger EapsFrom(atoi, s, pos)} :: read(s, pos) == EapsFrom(atoi, s, pos)
  }

  lemma EapsOfReads(atoi: NumberReader)
    ensures IsEapReader(atoi, EapsOf(atoi))
  {
  }

  lemma StepOfIsStep(atoi: NumberReader)
    ensures IsStep(atoi, StepOf(atoi)) && IsMethod(atoi, StepOf(atoi), MethodOf(atoi))
  {
  }

  /** The reader agrees with MethodAt, whose body stays hidden in the proofs about `read`. */
  ghost predicate IsMethod(atoi: NumberReader, step: StepReader, read: MethodReader)
  {
    forall s: string, pos: nat {:trigger MethodAt(atoi, step, s, pos)} ::
      pos <= |s| ==> read(s, pos) == MethodAt(atoi, step, s, pos)
  }

  /** One round of the loop over the methods. */
  method TakeMethod(atoi: NumberReader, s: string, pos: nat, ghost step: StepReader, ghost read: MethodReader)
    returns (r: Option<(Eap, nat)>)
    requires IsStep(atoi, step) && IsMethod(atoi, step, read) && pos <= |s|
    ensures r == read(s, pos) && (r.Some? ==> pos <= r.value.1 <= |s|)
  {
    assert read(s, pos) == MethodAt(atoi, step, s, pos);
    var end := IndexFrom(s, ',', pos);
    var auths := ReadAuths(atoi, s, pos, end, step);
    if auths.None? {
      return None;
    }
    return Some((Eap(ToByte(atoi(s[pos..])), auths.value), end));
  }

  lemma MethodsStep(read: MethodReader, s: string, pos: nat, done: seq<Eap>, eap: Eap, end: nat)
    requires pos < |s| && |done| < MAX_NAI_EAP_METHODS && read(s, pos) == Some((eap, end))
    ensures Prepend(done, MethodsFrom(read, s, pos, |done|))
            == if end >= |s| then Some(done + [eap])
               else Prepend(done + [eap], MethodsFrom(read, s, end + 1, |done| + 1))
  {
    if end < |s| {
      PrependNext(done, eap, MethodsFrom(read, s, end + 1, |done| + 1));
    }
  }

  /** The loop over the EAP methods of a line. */
  method ReadEaps(atoi: NumberReader, s: string, start: nat, ghost eaps: EapReader) returns (r: Option<seq<Eap>>)
    requires IsEapReader(atoi, eaps)
    ensures r == eaps(s, start)
  {
    assert eaps(s, start) == EapsFrom(atoi, s, start);
    StepOfIsStep(atoi);
    r := ReadMethods(atoi, s, start, StepOf(atoi), MethodOf(atoi));
  }

  method ReadMethods(atoi: NumberReader, s: string, start: nat, ghost step: StepReader, ghost read: MethodReader)
    returns (r: Option<seq<Eap>>)
    requires IsStep(atoi, step) && IsMethod(atoi, step, read)
    ensures r == MethodsFrom(read, s, start, 0)
  {
    var pos, eaps := start, [];
    ghost var all := MethodsFrom(read, s, start, 0);
    PrependNothing(all);
    while pos < |s|
      invariant 0 <= pos
      invariant all == Prepend(eaps, MethodsFrom(read, s, pos, |eaps|))
      decreases |s| - pos
    {
      if |eaps| >= MAX_NAI_EAP_METHODS {
        return None;
      }
      var m := TakeMethod(atoi, s, pos, step, read);
      if m.None? {
        return None;
      }
      var (eap, end) := m.value;
      MethodsStep(read, s, pos, eaps, eap, end);
      eaps := eaps + [eap];
      if end == |s| {
        return Some(eaps);
      }
      pos := end + 1;
    }
    PrependLast(eaps);
    return Some(eaps);
  }

  // ---- spelling -----------------------------------------------------------------------------

  /** How numbers are spelled. */
  type NumberWriter = byte -> string

  predicate IsMark(c: char) { c == '[' || c == ':' || c == ']' || c == ',' }

  /** Spelled numbers hold no marks, and are read back whatever mark follows. */
  ghost predicate Inverse(atoi: NumberReader, num: NumberWriter)
  {
    && (forall n: byte, i :: 0 <= i < |num(n)| ==> !IsMark(num(n)[i]))
    && (forall n: byte, t: string {:trigger num(n) + t} :: t == "" || IsMark(t[0]) ==> atoi(num(n) + t) == n)
  }

  /** How a parameter and a method are spelled. */
  type AuthWriter = Auth -> string
  type EapWriter = Eap -> string

  function AuthText(num: NumberWriter): AuthWriter
  {
    (a: Auth) => ['['] + num(a.id) + [':'] + num(a.val) + [']']
  }

  function SpellAuths(spell: AuthWriter, auths: seq<Auth>): string
  {
    if auths == [] then "" else spell(auths[0]) + SpellAuths(spell, auths[1..])
  }

  function EapText(num: NumberWriter): EapWriter
  {
    (e: Eap) => num(e.method_) + SpellAuths(AuthText(num), e.auths)
  }

  function SpellMethods(spell: EapWriter, eaps: seq<Eap>): string
  {
    if eaps == [] then ""
    else if |eaps| == 1 then spell(eaps[0])
    else spell(eaps[0]) + [','] + SpellMethods(spell, eaps[1..])
  }

  function SpellEaps(num: NumberWriter, eaps: seq<Eap>): string { SpellMethods(EapText(num), eaps) }

  // ---- texts at positions -------------------------------------------------------------------

  ghost predicate At(s: string, pos: nat, t: string) { pos + |t| <= |s| && s[pos..pos + |t|] == t }

  lemma AtChar(s: string, pos: nat, t: string, i: nat)
    requires At(s, pos, t) && i < |t|
    ensures s[pos + i] == t[i]
  {
    assert s[pos..pos + |t|][i] == s[pos + i];
  }

  lemma AtParts(s: string, pos: nat, a: string, b: string)
    requires At(s, pos, a + b)
    ensures At(s, pos, a) && At(s, pos + |a|, b)
  {
    var w := s[pos..pos + |a| + |b|];
    assert s[pos..pos + |a|] == w[..|a|];
    assert s[pos + |a|..pos + |a| + |b|] == w[|a|..];
  }

  /** The next c after a text without it. */
  lemma {:induction false} SkipTo(s: string, pos: nat, e: nat, c: char)
    requires pos <= e <= |s| && (e < |s| ==> s[e] == c)
    requires forall i :: pos <= i < e ==> s[i] != c
    ensures IndexFrom(s, c, pos) == e
    decreases e - pos
  {
    if pos < e {
      SkipTo(s, pos + 1, e, c);
    }
  }

  /** No marks between two positions. */
  ghost predicate Plain(s: string, pos: nat, e: nat)
    requires pos <= e <= |s|
  {
    forall i :: pos <= i < e ==> !IsMark(s[i])
  }

  /** A spelled number in front of a mark or the end is read. */
  lemma NumberAt(atoi: NumberReader, num: NumberWriter, s: string, pos: nat, n: byte)
    requires Inverse(atoi, num) && At(s, pos, num(n))
    requires var e := pos + |num(n)|; e == |s| || IsMark(s[e])
    ensures ToByte(atoi(s[pos..])) == n && Plain(s, pos, pos + |num(n)|)
  {
    var e := pos + |num(n)|;
    assert s[pos..] == num(n) + s[e..];
    forall i | pos <= i < e
      ensures !IsMark(s[i])
    {
      AtChar(s, pos, num(n), i - pos);
      assert !IsMark(num(n)[i - pos]);
    }
  }

  // ---- one parameter ---------------------------------------------------------------------------

  lemma Brackets(s: string, pos: nat, x: string, y: string)
    requires At(s, pos, ['['] + x + [':'] + y + [']'])
    ensures var c, e := pos + 1 + |x|, pos + 2 + |x| + |y|;
            e < |s| && s[pos] == '[' && At(s, pos + 1, x) && s[c] == ':' && At(s, c + 1, y) && s[e] == ']'
  {
    var t := ['['] + x + [':'] + y;
    AtParts(s, pos, t, [']']);
    AtParts(s, pos, ['['] + x + [':'], y);
    AtParts(s, pos, ['['] + x, [':']);
    AtParts(s, pos, ['['], x);
    AtChar(s, pos, ['['], 0);
    AtChar(s, pos + 1 + |x|, [':'], 0);
    AtChar(s, pos + |t|, [']'], 0);
  }

  /** A spelled parameter at a position. */
  ghost predicate AuthHere(spell: AuthWriter, s: string, pos: nat, end: nat, a: Auth)
  {
    At(s, pos, spell(a)) && pos + |spell(a)| <= end <= |s|
  }

  lemma FindAuth(atoi: NumberReader, num: NumberWriter, s: string, pos: nat, end: nat, a: Auth)
    requires Inverse(atoi, num) && AuthHere(AuthText(num), s, pos, end, a)
    ensures NextAuth(atoi, s, pos, end) == Found(a, pos + |AuthText(num)(a)|)
  {
    var x, y := num(a.id), num(a.val);
    var c, e := pos + 1 + |x|, pos + 2 + |x| + |y|;
    Brackets(s, pos, x, y);
    NumberAt(atoi, num, s, pos + 1, a.id);
    NumberAt(atoi, num, s, c + 1, a.val);
    FindMarks(atoi, s, pos, c, e, end);
  }

  lemma FindMarks(atoi: NumberReader, s: string, pos: nat, c: nat, e: nat, end: nat)
    requires pos < c < e < |s| && e <= end && s[pos] == '[' && s[c] == ':' && s[e] == ']'
    requires Plain(s, pos + 1, c) && Plain(s, c + 1, e)
    ensures NextAuth(atoi, s, pos, end) == Found(Auth(ToByte(atoi(s[pos + 1..])), ToByte(atoi(s[c + 1..]))), e + 1)
  {
    SkipTo(s, pos, pos, '[');
    SkipTo(s, pos + 1, c, ':');
    SkipTo(s, c + 1, e, ']');
  }

  /** No '[' before the end of a method. */
  ghost predicate Bare(s: string, pos: nat, end: nat)
  {
    pos <= end <= |s| && (end < |s| ==> s[end] == ',') && forall i :: pos <= i < end ==> s[i] != '['
  }

  lemma NoMoreAuth(atoi: NumberReader, s: string, pos: nat, end: nat)
    requires Bare(s, pos, end)
    ensures NextAuth(atoi, s, pos, end) == NoMore
  {
    var open := IndexFrom(s, '[', pos);
    assert open < |s| ==> s[open] == '[';
  }

  /** A step that finds spelled parameters. */
  ghost predicate FindsAuths(step: StepReader, spell: AuthWriter)
  {
    && (forall s: string, pos: nat, end: nat, a: Auth {:trigger AuthHere(spell, s, pos, end, a)} ::
          AuthHere(spell, s, pos, end, a) ==> step(s, pos, end) == Found(a, pos + |spell(a)|))
    && (forall s: string, pos: nat, end: nat {:trigger Bare(s, pos, end)} ::
          Bare(s, pos, end) ==> step(s, pos, end) == NoMore)
  }

  lemma StepFindsAuths(atoi: NumberReader, num: NumberWriter)
    requires Inverse(atoi, num)
    ensures FindsAuths(StepOf(atoi), AuthText(num))
  {
    var step, spell := StepOf(atoi), AuthText(num);
    forall s: string, pos: nat, end: nat, a: Auth | AuthHere(spell, s, pos, end, a)
      ensures step(s, pos, end) == Found(a, pos + |spell(a)|)
    {
      FindAuth(atoi, num, s, pos, end, a);
    }
    forall s: string, pos: nat, end: nat | Bare(s, pos, end)
      ensures step(s, pos, end) == NoMore
    {
      NoMoreAuth(atoi, s, pos, end);
    }
  }

  lemma {:induction false} AuthsRead(step: StepReader, spell: AuthWriter, s: string, pos: nat, end: nat,
                                     auths: seq<Auth>, count: nat)
    requires FindsAuths(step, spell) && At(s, pos, SpellAuths(spell, auths))
    requires end == pos + |SpellAuths(spell, auths)| && (end < |s| ==> s[end] == ',')
    requires count + |auths| <= MAX_NAI_AUTH_TYPES
    ensures AuthsFrom(step, s, pos, end, count) == Some(auths)
    decreases |auths|
  {
    if auths == [] {
      assert Bare(s, pos, end);
    } else {
      var a, rest := auths[0], auths[1..];
      AtParts(s, pos, spell(a), SpellAuths(spell, rest));
      assert AuthHere(spell, s, pos, end, a);
      AuthsRead(step, spell, s, pos + |spell(a)|, end, rest, count + 1);
      assert auths == [a] + rest;
    }
  }

  // ---- one method ----------------------------------------------------------------------------------

  lemma {:induction false} SkipFront(s: string, pos: nat, p: nat)
    requires pos <= p <= |s| && Plain(s, pos, p)
    ensures IndexFrom(s, '[', pos) == IndexFrom(s, '[', p)
    decreases p - pos
  {
    if pos < p {
      SkipFront(s, pos + 1, p);
    }
  }

  /** The number in front of the parameters is skipped. */
  lemma SkipNumber(atoi: NumberReader, s: string, pos: nat, p: nat, end: nat)
    requires pos <= p <= |s| && Plain(s, pos, p)
    ensures StepOf(atoi)(s, pos, end) == StepOf(atoi)(s, p, end)
  {
    SkipFront(s, pos, p);
  }

  lemma SameFirstStep(step: StepReader, s: string, pos: nat, p: nat, end: nat, count: nat)
    requires step(s, pos, end) == step(s, p, end)
    ensures AuthsFrom(step, s, pos, end, count) == AuthsFrom(step, s, p, end, count)
  {
  }

  lemma NoCommaInNumber(atoi: NumberReader, num: NumberWriter, n: byte)
    requires Inverse(atoi, num)
    ensures ',' !in num(n)
  {
    forall i | 0 <= i < |num(n)|
      ensures num(n)[i] != ','
    {
      assert !IsMark(num(n)[i]);
    }
  }

  lemma AuthTextPlain(atoi: NumberReader, num: NumberWriter, a: Auth)
    requires Inverse(atoi, num)
    ensures ',' !in AuthText(num)(a) && AuthText(num)(a) != "" && AuthText(num)(a)[0] == '['
  {
    NoCommaInNumber(atoi, num, a.id);
    NoCommaInNumber(atoi, num, a.val);
  }

  lemma {:induction false} AuthsPlain(atoi: NumberReader, num: NumberWriter, auths: seq<Auth>)
    requires Inverse(atoi, num)
    ensures var t := SpellAuths(AuthText(num), auths); ',' !in t && (t != "" ==> t[0] == '[')
    decreases |auths|
  {
    if auths != [] {
      AuthTextPlain(atoi, num, auths[0]);
      AuthsPlain(atoi, num, auths[1..]);
    }
  }

  /** A spelled method at a position, up to a comma or the end. */
  ghost predicate EapHere(spell: EapWriter, s: string, pos: nat, e: Eap)
  {
    At(s, pos, spell(e)) && var end := pos + |spell(e)|; end == |s| || s[end] == ','
  }

  lemma NumberThenAuths(atoi: NumberReader, num: NumberWriter, s: string, pos: nat, n: byte, t: string)
    requires Inverse(atoi, num) && At(s, pos, num(n) + t) && ',' !in t && (t != "" ==> t[0] == '[')
    requires var end := pos + |num(n)| + |t|; end == |s| || s[end] == ','
    ensures var p := pos + |num(n)|;
            && At(s, p, t) && ToByte(atoi(s[pos..])) == n && Plain(s, pos, p)
            && IndexFrom(s, ',', pos) == p + |t|
  {
    var p := pos + |num(n)|;
    AtParts(s, pos, num(n), t);
    if t != "" {
      AtChar(s, p, t, 0);
    }
    NumberAt(atoi, num, s, pos, n);
    CommaAt(s, pos, p, t);
  }

  /** The comma behind a text without one. */
  lemma CommaAt(s: string, pos: nat, p: nat, t: string)
    requires pos <= p <= |s| && Plain(s, pos, p) && At(s, p, t) && ',' !in t
    requires p + |t| == |s| || s[p + |t|] == ','
    ensures IndexFrom(s, ',', pos) == p + |t|
  {
    var end := p + |t|;
    forall i | pos <= i < end
      ensures s[i] != ','
    {
      if i >= p {
        AtChar(s, p, t, i - p);
      }
    }
    SkipTo(s, pos, end, ',');
  }

  /** A step that passes over a text without marks. */
  ghost predicate SkipsPlain(step: StepReader)
  {
    forall s: string, pos: nat, p: nat, end: nat {:trigger step(s, pos, end), step(s, p, end)} ::
      pos <= p <= |s| && Plain(s, pos, p) ==> step(s, pos, end) == step(s, p, end)
  }

  lemma StepSkipsPlain(atoi: NumberReader)
    ensures SkipsPlain(StepOf(atoi))
  {
    forall s: string, pos: nat, p: nat, end: nat | pos <= p <= |s| && Plain(s, pos, p)
      ensures StepOf(atoi)(s, pos, end) == StepOf(atoi)(s, p, end)
    {
      SkipNumber(atoi, s, pos, p, end);
    }
  }

  /** A method that is a number and its parameters, for any step and spelling that fit each other. */
  lemma ReadMethodText(atoi: NumberReader, num: NumberWriter, step: StepReader, spell: AuthWriter,
                       s: string, pos: nat, e: Eap, t: string)
    requires Inverse(atoi, num) && FindsAuths(step, spell) && SkipsPlain(step) && |e.auths| <= MAX_NAI_AUTH_TYPES
    requires t == SpellAuths(spell, e.auths) && ',' !in t && (t != "" ==> t[0] == '[') && At(s, pos, num(e.method_) + t)
    requires var end := pos + |num(e.method_)| + |t|; end == |s| || s[end] == ','
    ensures MethodAt(atoi, step, s, pos) == Some((e, pos + |num(e.method_)| + |t|))
  {
    var p := pos + |num(e.method_)|;
    NumberThenAuths(atoi, num, s, pos, e.method_, t);
    assert step(s, pos, p + |t|) == step(s, p, p + |t|);
    MethodFrom(atoi, step, spell, s, pos, p, p + |t|, e);
  }

  lemma ReadOneMethod(atoi: NumberReader, num: NumberWriter, step: StepReader, spell: AuthWriter, text: EapWriter,
                      s: string, pos: nat, e: Eap)
    requires Inverse(atoi, num) && FindsAuths(step, spell) && SkipsPlain(step) && |e.auths| <= MAX_NAI_AUTH_TYPES
    requires WritesEap(num, spell, text, e) && EapHere(text, s, pos, e)
    ensures MethodAt(atoi, step, s, pos) == Some((e, pos + |text(e)|))
  {
    ReadMethodText(atoi, num, step, spell, s, pos, e, SpellAuths(spell, e.auths));
  }

  lemma MethodFrom(atoi: NumberReader, step: StepReader, spell: AuthWriter,
                   s: string, pos: nat, p: nat, end: nat, e: Eap)
    requires FindsAuths(step, spell) && pos <= p <= |s| && step(s, pos, end) == step(s, p, end)
    requires IndexFrom(s, ',', pos) == end && ToByte(atoi(s[pos..])) == e.method_
    requires At(s, p, SpellAuths(spell, e.auths)) && end == p + |SpellAuths(spell, e.auths)|
    requires |e.auths| <= MAX_NAI_AUTH_TYPES
    ensures MethodAt(atoi, step, s, pos) == Some((e, end))
  {
    SameFirstStep(step, s, pos, p, end, 0);
    AuthsRead(step, spell, s, p, end, e.auths, 0);
  }

  // ---- all methods -----------------------------------------------------------------------------------

  /** A reader of spelled methods. */
  ghost predicate FindsMethods(read: MethodReader, spell: EapWriter)
  {
    forall s: string, pos: nat, e: Eap {:trigger EapHere(spell, s, pos, e)} ::
      EapHere(spell, s, pos, e) && |e.auths| <= MAX_NAI_AUTH_TYPES ==> read(s, pos) == Some((e, pos + |spell(e)|))
  }

  /** A method is spelled as its number and its parameters, without a comma. */
  ghost predicate WritesEap(num: NumberWriter, spell: AuthWriter, text: EapWriter, e: Eap)
  {
    var t := SpellAuths(spell, e.auths);
    text(e) == num(e.method_) + t && ',' !in t && (t != "" ==> t[0] == '[')
  }

  lemma FindsSpelled(atoi: NumberReader, num: NumberWriter, step: StepReader, spell: AuthWriter, text: EapWriter,
                     read: MethodReader)
    requires Inverse(atoi, num) && FindsAuths(step, spell) && SkipsPlain(step) && IsMethod(atoi, step, read)
    requires forall e {:trigger WritesEap(num, spell, text, e)} :: WritesEap(num, spell, text, e)
    ensures FindsMethods(read, text)
  {
    forall s: string, pos: nat, e: Eap | EapHere(text, s, pos, e) && |e.auths| <= MAX_NAI_AUTH_TYPES
      ensures read(s, pos) == Some((e, pos + |text(e)|))
    {
      assert WritesEap(num, spell, text, e);
      ReadOneMethod(atoi, num, step, spell, text, s, pos, e);
      assert read(s, pos) == MethodAt(atoi, step, s, pos);
    }
  }

  lemma EapTextWrites(atoi: NumberReader, num: NumberWriter, e: Eap)
    requires Inverse(atoi, num)
    ensures WritesEap(num, AuthText(num), EapText(num), e)
  {
    AuthsPlain(atoi, num, e.auths);
  }

  lemma MethodOfFinds(atoi: NumberReader, num: NumberWriter)
    requires Inverse(atoi, num)
    ensures FindsMethods(MethodOf(atoi), EapText(num))
  {
    StepOfIsStep(atoi);
    StepSkipsPlain(atoi);
    StepFindsAuths(atoi, num);
    forall e
      ensures WritesEap(num, AuthText(num), EapText(num), e)
    {
      EapTextWrites(atoi, num, e);
    }
    FindsSpelled(atoi, num, StepOf(atoi), AuthText(num), EapText(num), MethodOf(atoi));
  }

  ghost predicate Spellable(spell: EapWriter, eaps: seq<Eap>)
  {
    forall i :: 0 <= i < |eaps| ==> |eaps[i].auths| <= MAX_NAI_AUTH_TYPES && spell(eaps[i]) != ""
  }

  lemma {:induction false} MethodsRead(read: MethodReader, spell: EapWriter, s: string, pos: nat,
                                       eaps: seq<Eap>, count: nat)
    requires FindsMethods(read, spell) && Spellable(spell, eaps) && count + |eaps| <= MAX_NAI_EAP_METHODS
    requires pos <= |s| && s[pos..] == SpellMethods(spell, eaps)
    ensures MethodsFrom(read, s, pos, count) == Some(eaps)
    decreases |eaps|
  {
    if eaps != [] {
      var e, rest, w := eaps[0], eaps[1..], s[pos..];
      var t := spell(e);
      var end := pos + |t|;
      assert |eaps| > 1 ==> w == t + ([','] + SpellMethods(spell, rest));
      assert s[pos..end] == w[..|t|] == t;
      if |eaps| == 1 {
        assert EapHere(spell, s, pos, e);
        assert eaps == [e];
      } else {
        assert s[end] == w[|t|] == ',';
        assert EapHere(spell, s, pos, e);
        assert s[end + 1..] == w[|t| + 1..] == SpellMethods(spell, rest);
        MethodsRead(read, spell, s, end + 1, rest, count + 1);
        assert eaps == [e] + rest;
      }
    }
  }

  /** Numbers of parameters and methods that a line can have, and method numbers that are spelled out. */
  ghost predicate FitsLine(num: NumberWriter, eaps: seq<Eap>)
  {
    && |eaps| <= MAX_NAI_EAP_METHODS
    && forall i :: 0 <= i < |eaps| ==> |eaps[i].auths| <= MAX_NAI_AUTH_TYPES && num(eaps[i].method_) != ""
  }

  /**
    Behind any text, every list of up to 5 methods with up to 4 parameters each is
    read from its spelling.
   */
  lemma SpelledEapsRead(atoi: NumberReader, num: NumberWriter, s: string, pos: nat, eaps: seq<Eap>)
    requires Inverse(atoi, num) && FitsLine(num, eaps) && pos <= |s| && s[pos..] == SpellEaps(num, eaps)
    ensures EapsFrom(atoi, s, pos) == Some(eaps)
  {
    MethodOfFinds(atoi, num);
    MethodsRead(MethodOf(atoi), EapText(num), s, pos, eaps, 0);
  }

  // ---- atoi as the reader ----------------------------------------------------------------------------

  /** atoi and every decimal spelling of the numbers satisfy what the round trip asks for. */
  lemma AtoiInverse(num: NumberWriter)
    requires forall n: byte :: SpellsDecimal(num(n), n)
    ensures Inverse(Atoi, num)
  {
    var atoi: NumberReader := Atoi;
    forall n: byte, t: string {:trigger num(n) + t} | t == "" || IsMark(t[0])
      ensures atoi(num(n) + t) == n
    {
      assert SpellsDecimal(num(n), n);
      AtoiReads(num(n), n, t);
    }
    forall n: byte, i | 0 <= i < |num(n)|
      ensures !IsMark(num(n)[i])
    {
      assert SpellsDecimal(num(n), n);
      DecimalDigits(num(n), n);
    }
  }

  /** A byte with three decimal digits. */
  function ThreeDigits(n: byte): (s: string)
    ensures |s| == 3
  {
    var digits := "0123456789";
    [digits[n / 100], digits[n / 10 % 10], digits[n % 10]]
  }

  /** One such spelling, with leading zeros. */
  lemma ThreeDigitsSpell(n: byte)
    ensures SpellsDecimal(ThreeDigits(n), n)
  {
    var s := ThreeDigits(n);
    assert n / 10 / 10 == n / 100;
    assert s[..2][..1] == s[..1];
    assert SpellsDecimal(s[..1], n / 100);
    assert SpellsDecimal(s[..2], n / 10);
  }
}
