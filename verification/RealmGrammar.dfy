/**
  Which nai_realm lines are accepted: the grammar of the line, told by its
  separators and brackets, and the numbers of realms, methods and parameters.
 */
module RealmGrammar {
  import opened Bits
  import opened CStrings
  import opened EapMethods
  import opened NaiRealm

  // ---- the parameters of a method ----------------------------------------------------------

  /** A parameter with whatever stands before its bracket. */
  datatype Group = Group(gap: string, id: string, val: string)

  predicate Good(g: Group) { '[' !in g.gap && ':' !in g.id && ']' !in g.val }

  function GroupText(g: Group): string { g.gap + (['['] + g.id + [':'] + g.val + [']']) }

  function PartText(groups: seq<Group>, tail: string): string
  {
    if groups == [] then tail else GroupText(groups[0]) + PartText(groups[1..], tail)
  }

  predicate AllGood(groups: seq<Group>) { groups == [] || (Good(groups[0]) && AllGood(groups[1..])) }

  /** A method with n complete parameters and no further bracket. */
  ghost predicate HasParameters(part: string, n: nat)
  {
    exists groups: seq<Group>, tail: string {:trigger PartText(groups, tail)} ::
      |groups| == n && AllGood(groups) && '[' !in tail && part == PartText(groups, tail)
  }

  /** The end of a method: a comma or the end of the line. */
  ghost predicate EndsAt(s: string, end: nat) { end <= |s| && (end < |s| ==> s[end] == ',') }

  /** The parts of a group and the marks between them. */
  lemma GroupAt(s: string, pos: nat, g: Group)
    requires At(s, pos, GroupText(g))
    ensures var open := pos + |g.gap|;
            var colon := open + 1 + |g.id|;
            var close := colon + 1 + |g.val|;
            && close + 1 == pos + |GroupText(g)| <= |s|
            && At(s, pos, g.gap) && At(s, open + 1, g.id) && At(s, colon + 1, g.val)
            && s[open] == '[' && s[colon] == ':' && s[close] == ']'
  {
    AtParts(s, pos, g.gap, ['['] + g.id + [':'] + g.val + [']']);
    Brackets(s, pos + |g.gap|, g.id, g.val);
  }

  lemma FirstBehind(s: string, pos: nat, t: string, c: char)
    requires At(s, pos, t) && c !in t && pos + |t| < |s| && s[pos + |t|] == c
    ensures IndexFrom(s, c, pos) == pos + |t|
  {
    forall i | pos <= i < pos + |t|
      ensures s[i] != c
    {
      AtChar(s, pos, t, i - pos);
    }
    SkipTo(s, pos, pos + |t|, c);
  }

  lemma GroupFound(atoi: NumberReader, s: string, pos: nat, end: nat, g: Group)
    requires At(s, pos, GroupText(g)) && Good(g) && pos + |GroupText(g)| <= end <= |s|
    ensures var r := NextAuth(atoi, s, pos, end); r.Found? && r.next == pos + |GroupText(g)|
  {
    var open := pos + |g.gap|;
    var colon := open + 1 + |g.id|;
    GroupAt(s, pos, g);
    PartsFound(atoi, s, pos, end, g.gap, open, g.id, colon, g.val, colon + 1 + |g.val|);
  }

  lemma PartsFound(atoi: NumberReader, s: string, pos: nat, end: nat, gap: string, open: nat, id: string, colon: nat,
                   val: string, close: nat)
    requires open == pos + |gap| && colon == open + 1 + |id| && close == colon + 1 + |val| && close < end <= |s|
    requires At(s, pos, gap) && At(s, open + 1, id) && At(s, colon + 1, val)
    requires '[' !in gap && ':' !in id && ']' !in val && s[open] == '[' && s[colon] == ':' && s[close] == ']'
    ensures var r := NextAuth(atoi, s, pos, end); r.Found? && r.next == close + 1
  {
    FirstBehind(s, pos, gap, '[');
    FirstBehind(s, open + 1, id, ':');
    FirstBehind(s, colon + 1, val, ']');
    MarksFound(atoi, s, pos, end, open, colon, close);
  }

  lemma MarksFound(atoi: NumberReader, s: string, pos: nat, end: nat, open: nat, colon: nat, close: nat)
    requires pos <= open < colon < close < end <= |s| && IndexFrom(s, '[', pos) == open
    requires IndexFrom(s, ':', open + 1) == colon && IndexFrom(s, ']', colon + 1) == close
    ensures var r := NextAuth(atoi, s, pos, end); r.Found? && r.next == close + 1
  {
  }

  lemma FoundMarks(atoi: NumberReader, s: string, pos: nat, end: nat) returns (open: nat, colon: nat, close: nat)
    requires pos <= end && EndsAt(s, end) && NextAuth(atoi, s, pos, end).Found?
    ensures pos <= open < colon < close < end && s[open] == '[' && s[colon] == ':' && s[close] == ']'
    ensures NextAuth(atoi, s, pos, end).next == close + 1
    ensures '[' !in s[pos..open] && ':' !in s[open + 1..colon] && ']' !in s[colon + 1..close]
  {
    open := IndexFrom(s, '[', pos);
    colon := IndexFrom(s, ':', open + 1);
    close := IndexFrom(s, ']', colon + 1);
    NoneBefore(s, '[', pos);
    NoneBefore(s, ':', open + 1);
    NoneBefore(s, ']', colon + 1);
  }

  /** What the search for a parameter finds is a group. */
  lemma FoundGroup(atoi: NumberReader, s: string, pos: nat, end: nat) returns (g: Group, next: nat)
    requires pos <= end && EndsAt(s, end) && NextAuth(atoi, s, pos, end).Found?
    ensures Good(g) && pos <= next == NextAuth(atoi, s, pos, end).next <= end
    ensures s[pos..next] == GroupText(g)
  {
    var open, colon, close := FoundMarks(atoi, s, pos, end);
    g, next := Group(s[pos..open], s[open + 1..colon], s[colon + 1..close]), close + 1;
    CutGroup(s, pos, open, colon, close);
  }

  lemma NoneBefore(s: string, c: char, pos: nat)
    requires pos <= |s|
    ensures c !in s[pos..IndexFrom(s, c, pos)]
  {
    FirstFrom(s, c, pos);
  }

  lemma CutGroup(s: string, pos: nat, open: nat, colon: nat, close: nat)
    requires pos <= open < colon < close < |s| && s[open] == '[' && s[colon] == ':' && s[close] == ']'
    ensures s[pos..close + 1] == GroupText(Group(s[pos..open], s[open + 1..colon], s[colon + 1..close]))
  {
    var id, val := s[open + 1..colon], s[colon + 1..close];
    assert s[open..close + 1] == ['['] + id + [':'] + val + [']'];
    assert s[pos..close + 1] == s[pos..open] + s[open..close + 1];
  }

  lemma NoneLeft(atoi: NumberReader, s: string, pos: nat, end: nat)
    requires pos <= end && EndsAt(s, end)
    ensures NextAuth(atoi, s, pos, end) == NoMore <==> '[' !in s[pos..end]
  {
    var open := IndexFrom(s, '[', pos);
    FirstFrom(s, '[', pos);
    if open < end {
      assert s[pos..end][open - pos] == '[';
    }
  }

  /** How the search fares with groups and with texts without brackets. */
  ghost predicate FindsGroups(step: StepReader)
  {
    && (forall s: string, pos: nat, end: nat, g: Group {:trigger At(s, pos, GroupText(g)), step(s, pos, end)} ::
          At(s, pos, GroupText(g)) && Good(g) && pos + |GroupText(g)| <= end <= |s| ==>
            step(s, pos, end).Found? && step(s, pos, end).next == pos + |GroupText(g)|)
    && (forall s: string, pos: nat, end: nat {:trigger step(s, pos, end)} :: pos <= end && EndsAt(s, end) ==>
          (step(s, pos, end) == NoMore <==> '[' !in s[pos..end]))
  }

  lemma StepFindsGroups(atoi: NumberReader)
    ensures FindsGroups(StepOf(atoi))
  {
    var step := StepOf(atoi);
    forall s: string, pos: nat, end: nat, g: Group
      | At(s, pos, GroupText(g)) && Good(g) && pos + |GroupText(g)| <= end <= |s|
      ensures step(s, pos, end).Found? && step(s, pos, end).next == pos + |GroupText(g)|
    {
      GroupFound(atoi, s, pos, end, g);
    }
    forall s: string, pos: nat, end: nat | pos <= end && EndsAt(s, end)
      ensures step(s, pos, end) == NoMore <==> '[' !in s[pos..end]
    {
      NoneLeft(atoi, s, pos, end);
    }
  }

  /** Complete parameters are read, up to four of them. */
  lemma {:induction false} PartRead(step: StepReader, s: string, pos: nat, end: nat, groups: seq<Group>, tail: string,
                                    count: nat)
    requires FindsGroups(step) && pos <= end && EndsAt(s, end) && s[pos..end] == PartText(groups, tail)
    requires AllGood(groups) && '[' !in tail && count <= 4
    ensures var r := AuthsFrom(step, s, pos, end, count);
            if count + |groups| <= 4 then r.Some? && |r.value| == |groups| else r == None
    decreases |groups|
  {
    if groups == [] {
      NothingNext(step, s, pos, end, count);
    } else {
      PartFront(s, pos, end, groups, tail);
      var next := GroupNext(step, s, pos, end, groups[0]);
      AuthsNext(step, s, pos, end, count);
      if count < 4 {
        PartRead(step, s, next, end, groups[1..], tail, count + 1);
      }
    }
  }

  lemma NothingNext(step: StepReader, s: string, pos: nat, end: nat, count: nat)
    requires FindsGroups(step) && pos <= end && EndsAt(s, end) && '[' !in s[pos..end]
    ensures AuthsFrom(step, s, pos, end, count) == Some([])
  {
    assert step(s, pos, end) == NoMore;
  }

  lemma GroupNext(step: StepReader, s: string, pos: nat, end: nat, g: Group) returns (next: nat)
    requires FindsGroups(step) && At(s, pos, GroupText(g)) && Good(g) && pos + |GroupText(g)| <= end <= |s|
    ensures step(s, pos, end).Found? && step(s, pos, end).next == next == pos + |GroupText(g)|
  {
    next := pos + |GroupText(g)|;
    assert step(s, pos, end).Found?;
  }

  lemma PartFront(s: string, pos: nat, end: nat, groups: seq<Group>, tail: string)
    requires groups != [] && pos <= end <= |s| && s[pos..end] == PartText(groups, tail)
    ensures var next := pos + |GroupText(groups[0])|;
            next <= end && At(s, pos, GroupText(groups[0])) && s[next..end] == PartText(groups[1..], tail)
  {
    var g, w := GroupText(groups[0]), s[pos..end];
    var next := pos + |g|;
    assert w == g + PartText(groups[1..], tail);
    assert s[pos..next] == w[..|g|] && s[next..end] == w[|g|..];
  }

  lemma AuthsNext(step: StepReader, s: string, pos: nat, end: nat, count: nat)
    requires step(s, pos, end).Found? && count <= 4
    ensures AuthsFrom(step, s, pos, end, count)
            == if count == 4 then None
               else Prepend([step(s, pos, end).auth], AuthsFrom(step, s, step(s, pos, end).next, end, count + 1))
  {
  }

  /** Whatever is read was complete parameters, at most four of them. */
  lemma {:induction false} ReadPart(atoi: NumberReader, step: StepReader, s: string, pos: nat, end: nat, count: nat)
    returns (groups: seq<Group>, tail: string)
    requires IsStep(atoi, step) && pos <= end && EndsAt(s, end) && count <= 4
    requires AuthsFrom(step, s, pos, end, count).Some?
    ensures AllGood(groups) && '[' !in tail && s[pos..end] == PartText(groups, tail)
    ensures |groups| == |AuthsFrom(step, s, pos, end, count).value| && count + |groups| <= 4
    decreases 4 - count
  {
    assert step(s, pos, end) == NextAuth(atoi, s, pos, end);
    NoneLeft(atoi, s, pos, end);
    if step(s, pos, end) == NoMore {
      groups, tail := [], s[pos..end];
    } else {
      AuthsNext(step, s, pos, end, count);
      var g, next := FoundGroup(atoi, s, pos, end);
      var rest;
      rest, tail := ReadPart(atoi, step, s, next, end, count + 1);
      groups := [g] + rest;
      PartCons(s, pos, next, end, g, rest, tail);
    }
  }

  lemma PartCons(s: string, pos: nat, next: nat, end: nat, g: Group, rest: seq<Group>, tail: string)
    requires pos <= next <= end <= |s| && s[pos..next] == GroupText(g) && s[next..end] == PartText(rest, tail)
    requires Good(g) && AllGood(rest)
    ensures s[pos..end] == PartText([g] + rest, tail) && AllGood([g] + rest)
  {
    assert ([g] + rest)[1..] == rest;
    assert s[pos..end] == s[pos..next] + s[next..end];
  }

  /** A method has n parameters, and is accepted, exactly when it is n complete brackets and n is at most four. */
  lemma PartIff(atoi: NumberReader, s: string, pos: nat, end: nat, n: nat)
    requires pos <= end && EndsAt(s, end)
    ensures var r := AuthsFrom(StepOf(atoi), s, pos, end, 0);
            r.Some? && |r.value| == n <==> HasParameters(s[pos..end], n) && n <= 4
  {
    var r := AuthsFrom(StepOf(atoi), s, pos, end, 0);
    StepFindsGroups(atoi);
    StepOfIsStep(atoi);
    if HasParameters(s[pos..end], n) {
      var groups: seq<Group>, tail: string :| |groups| == n && AllGood(groups) && '[' !in tail
        && s[pos..end] == PartText(groups, tail);
      PartRead(StepOf(atoi), s, pos, end, groups, tail, 0);
    }
    if r.Some? && |r.value| == n {
      var groups, tail := ReadPart(atoi, StepOf(atoi), s, pos, end, 0);
      assert s[pos..end] == PartText(groups, tail);
    }
  }

  // ---- the methods and the line -----------------------------------------------------------------

  /** The comma-separated parts from a position on; a comma at the very end begins no further part. */
  function CommaParts(s: string, pos: nat): seq<string>
    decreases |s| - pos
  {
    if pos >= |s| then []
    else
      var e := IndexFrom(s, ',', pos);
      [s[pos..e]] + CommaParts(s, e + 1)
  }

  /** Up to four complete parameters and nothing else in brackets. */
  ghost predicate Accepted(part: string) { exists n: nat :: n <= 4 && HasParameters(part, n) }

  ghost predicate AllAccepted(parts: seq<string>)
  {
    parts == [] || (Accepted(parts[0]) && AllAccepted(parts[1..]))
  }

  /** A reader that takes exactly the accepted parts. */
  ghost predicate TakesAccepted(read: MethodReader)
  {
    forall s: string, pos: nat {:trigger read(s, pos)} :: pos < |s| ==>
      var e := IndexFrom(s, ',', pos);
      (read(s, pos).Some? <==> Accepted(s[pos..e])) && (read(s, pos).Some? ==> read(s, pos).value.1 == e)
  }

  lemma MethodTakesAccepted(atoi: NumberReader)
    ensures TakesAccepted(MethodOf(atoi))
  {
    var read := MethodOf(atoi);
    forall s: string, pos: nat | pos < |s|
      ensures var e := IndexFrom(s, ',', pos);
              (read(s, pos).Some? <==> Accepted(s[pos..e])) && (read(s, pos).Some? ==> read(s, pos).value.1 == e)
    {
      AcceptedIff(atoi, s, pos, IndexFrom(s, ',', pos));
    }
  }

  lemma AcceptedIff(atoi: NumberReader, s: string, pos: nat, e: nat)
    requires pos < |s| && e == IndexFrom(s, ',', pos)
    ensures AuthsFrom(StepOf(atoi), s, pos, e, 0).Some? <==> Accepted(s[pos..e])
  {
    var r := AuthsFrom(StepOf(atoi), s, pos, e, 0);
    if r.Some? {
      PartIff(atoi, s, pos, e, |r.value|);
    }
    if Accepted(s[pos..e]) {
      var n: nat :| n <= 4 && HasParameters(s[pos..e], n);
      PartIff(atoi, s, pos, e, n);
    }
  }

  lemma {:induction false} MethodsIff(read: MethodReader, s: string, pos: nat, count: nat)
    requires TakesAccepted(read) && count <= 5
    ensures MethodsFrom(read, s, pos, count).Some?
            <==> count + |CommaParts(s, pos)| <= 5 && AllAccepted(CommaParts(s, pos))
    decreases 5 - count
  {
    if pos < |s| && count < 5 {
      var e := IndexFrom(s, ',', pos);
      PartsUnfold(s, pos);
      if read(s, pos).Some? {
        MethodsNext(read, s, pos, e, count);
        MethodsIff(read, s, e + 1, count + 1);
      }
    }
  }

  lemma PartsUnfold(s: string, pos: nat)
    requires pos < |s|
    ensures var e := IndexFrom(s, ',', pos);
            && CommaParts(s, pos) == [s[pos..e]] + CommaParts(s, e + 1)
            && (AllAccepted(CommaParts(s, pos)) <==> Accepted(s[pos..e]) && AllAccepted(CommaParts(s, e + 1)))
  {
    var e := IndexFrom(s, ',', pos);
    assert CommaParts(s, pos)[1..] == CommaParts(s, e + 1);
  }

  lemma MethodsNext(read: MethodReader, s: string, pos: nat, e: nat, count: nat)
    requires pos < |s| && count < 5 && read(s, pos).Some? && read(s, pos).value.1 == e <= |s|
    ensures MethodsFrom(read, s, pos, count).Some? <==> MethodsFrom(read, s, e + 1, count + 1).Some?
  {
  }

  /**
    A line is accepted exactly when it has a comma, a realm list of at most 255
    characters and ten realms behind it, and at most five methods behind that, each
    with at most four parameters, all of them complete.
   */
  lemma LineAcceptedIff(atoi: NumberReader, read: EapReader, line: string)
    requires IsEapReader(atoi, read)
    ensures ParseLine(atoi, read, line).Some?
            <==> ',' in line
                 && var c := IndexOf(line, ',');
                    c < |line| &&
                    var e := IndexFrom(line, ',', c + 1);
                    && e - (c + 1) <= 255 && |SplitRealms(line[c + 1..e])| <= 10
                    && |CommaParts(line, e + 1)| <= 5 && AllAccepted(CommaParts(line, e + 1))
  {
    var c := IndexOf(line, ',');
    FirstIndex(line, ',');
    if c < |line| {
      var e := IndexFrom(line, ',', c + 1);
      EapsIff(atoi, read, line, e + 1);
      PartsOfLine(atoi, read, line, c, e);
    } else {
      assert line[..c] == line;
    }
  }

  lemma EapsIff(atoi: NumberReader, read: EapReader, line: string, pos: nat)
    requires IsEapReader(atoi, read)
    ensures read(line, pos).Some? <==> |CommaParts(line, pos)| <= 5 && AllAccepted(CommaParts(line, pos))
  {
    assert read(line, pos) == EapsFrom(atoi, line, pos);
    MethodTakesAccepted(atoi);
    MethodsIff(MethodOf(atoi), line, pos, 0);
  }

  lemma PartsOfLine(atoi: NumberReader, read: EapReader, line: string, c: nat, e: nat)
    requires c == IndexOf(line, ',') < |line| && e == IndexFrom(line, ',', c + 1)
    ensures ParseLine(atoi, read, line).Some?
            <==> e - (c + 1) <= 255 && |SplitRealms(line[c + 1..e])| <= 10 && read(line, e + 1).Some?
  {
  }
}
