/**
  Access list files as they are written: comments, empty lines, addresses with or
  without a VLAN id, and addresses to be taken off. Every line is understood as it
  is meant, and refused exactly when no address stands where one is expected.
 */
module MacListFile {
  import opened Bits
  import opened CStrings
  import opened Spelling
  import opened MacAcl

  // ---- addresses ------------------------------------------------------------------------

  /** Bytes in hex, in either case, with ':' between them. */
  predicate SpellsAddr(t: string, a: seq<byte>)
    decreases |a|
  {
    if a == [] then t == ""
    else if |a| == 1 then |t| == 2 && SpellsByte(t[0], t[1], a[0])
    else |t| > 3 && SpellsByte(t[0], t[1], a[0]) && t[2] == ':' && SpellsAddr(t[3..], a[1..])
  }

  lemma PairRead(s: string, pos: nat, b: byte)
    requires pos + 2 <= |s| && SpellsByte(s[pos], s[pos + 1], b)
    ensures HexByteAt(s, pos) == Some(b)
  {
    HexByteValue(s[pos], s[pos + 1], b);
  }

  lemma {:induction false} AddrReads(s: string, pos: nat, t: string, a: seq<byte>)
    requires SpellsAddr(t, a) && StandsAt(t, s, pos)
    ensures HwaddrFrom(s, pos, |a|) == Some(a)
    decreases |a|
  {
    if a != [] {
      AddrFront(s, pos, t, a);
      if |a| == 1 {
        assert a == [a[0]];
      } else {
        AddrReads(s, pos + 3, t[3..], a[1..]);
        NextByte(s, pos, a, |a|);
      }
    }
  }

  lemma AddrFront(s: string, pos: nat, t: string, a: seq<byte>)
    requires SpellsAddr(t, a) && StandsAt(t, s, pos) && a != []
    ensures HexByteAt(s, pos) == Some(a[0])
    ensures |a| > 1 ==> |t| > 3 && s[pos + 2] == ':' && SpellsAddr(t[3..], a[1..]) && StandsAt(t[3..], s, pos + 3)
  {
    var w := s[pos..pos + |t|];
    assert s[pos] == w[0] && s[pos + 1] == w[1];
    PairRead(s, pos, a[0]);
    if |a| > 1 {
      assert s[pos + 2] == w[2] && s[pos + 3..pos + 3 + |t[3..]|] == w[3..];
    }
  }

  lemma NextByte(s: string, pos: nat, a: seq<byte>, n: nat)
    requires n == |a| > 1 && HexByteAt(s, pos) == Some(a[0]) && pos + 2 < |s| && s[pos + 2] == ':'
    requires HwaddrFrom(s, pos + 3, n - 1) == Some(a[1..])
    ensures HwaddrFrom(s, pos, n) == Some(a)
  {
    assert a == [a[0]] + a[1..];
  }

  lemma PairSpells(s: string, pos: nat)
    requires HexByteAt(s, pos).Some?
    ensures SpellsByte(s[pos], s[pos + 1], HexByteAt(s, pos).value)
  {
    PairIsByte(s[pos], s[pos + 1], HexByteAt(s, pos).value);
  }

  /** Whatever is read as an address spells it. */
  lemma {:induction false} AddrSpelled(s: string, pos: nat, n: nat) returns (t: string)
    requires HwaddrFrom(s, pos, n).Some? && n > 0
    ensures SpellsAddr(t, HwaddrFrom(s, pos, n).value) && StandsAt(t, s, pos) && |t| >= 2
    decreases n
  {
    var a := HwaddrFrom(s, pos, n).value;
    PairSpells(s, pos);
    if n == 1 {
      t := s[pos..pos + 2];
    } else {
      var rest := AddrSpelled(s, pos + 3, n - 1);
      t := s[pos..pos + 3] + rest;
      assert a[1..] == HwaddrFrom(s, pos + 3, n - 1).value;
      assert t[3..] == rest && s[pos..pos + |t|] == t;
    }
  }

  /** An address stands at a position. */
  ghost predicate AddrAt(s: string, pos: nat, a: Mac)
  {
    exists t: string :: SpellsAddr(t, a) && StandsAt(t, s, pos)
  }

  /** hwaddr_aton succeeds exactly where an address stands, and gives that address. */
  lemma AtonIff(s: string, pos: nat, a: Mac)
    ensures HwaddrAton(s, pos) == Some(a) <==> AddrAt(s, pos, a)
  {
    if AddrAt(s, pos, a) {
      var t: string :| SpellsAddr(t, a) && StandsAt(t, s, pos);
      AddrReads(s, pos, t, a);
    }
    if HwaddrAton(s, pos) == Some(a) {
      var t := AddrSpelled(s, pos, 6);
    }
  }

  // ---- lines ---------------------------------------------------------------------------------

  /** A line as it is meant, with its spelling. */
  datatype AclLine =
    | Comment(text: string)
    | EmptyLine
    | Listed(a: Mac, addr: string)
    | InVlan(a: Mac, addr: string, gap: string, vlan: nat, digits: string, tail: string)
    | Withdrawn(a: Mac, addr: string, tail: string)

  function TextOf(l: AclLine): string
  {
    match l
    case Comment(t) => "#" + t
    case EmptyLine => ""
    case Listed(_, t) => t
    case InVlan(_, t, gap, _, d, tail) => t + (gap + (d + tail))
    case Withdrawn(_, t, tail) => "-" + (t + tail)
  }

  predicate AllBlank(s: string) { forall i :: 0 <= i < |s| ==> s[i] == ' ' || s[i] == '\t' }

  predicate Legal(l: AclLine)
  {
    match l
    case Comment(t) => '\n' !in t
    case EmptyLine => true
    case Listed(a, t) => SpellsAddr(t, a)
    case InVlan(a, t, gap, n, d, tail) =>
      SpellsAddr(t, a) && gap != "" && AllBlank(gap) && SpellsDecimal(d, n) && EndsNumber(tail) && '\n' !in tail
    case Withdrawn(a, t, tail) => SpellsAddr(t, a) && '\n' !in tail
  }

  /** A VLAN id of 0 is the same as none. */
  function MeaningOf(l: AclLine): Op
  {
    match l
    case Comment(_) => Skip
    case EmptyLine => Skip
    case Listed(a, _) => Add(Entry(a, 0, false))
    case InVlan(a, _, _, n, _, _) => Add(Entry(a, n, n > 0))
    case Withdrawn(a, _, _) => Remove(a)
  }

  lemma {:induction false} AddrTextChars(t: string, a: seq<byte>)
    requires SpellsAddr(t, a)
    ensures forall i :: 0 <= i < |t| ==> AddrChar(t[i])
    ensures a != [] ==> t != "" && HexVal(t[0]) >= 0
    decreases |a|
  {
    if a != [] {
      HexByteValue(t[0], t[1], a[0]);
      if |a| > 1 {
        var rest := t[3..];
        AddrTextChars(rest, a[1..]);
        assert forall i :: 3 <= i < |t| ==> t[i] == rest[i - 3];
      }
    }
  }

  lemma NoAddrChars()
    ensures !AddrChar('\n') && !AddrChar(' ') && !AddrChar('\t') && !AddrChar('#') && !AddrChar('-')
  {
  }

  /** What is made of a line whose text is s. */
  lemma OpOfText(atoi: string -> int, s: string, eol: string, a: Mac)
    requires s != "" && s[0] != '#' && '\n' !in s && (eol == "" || eol == "\n")
    requires HwaddrAton(s, if s[0] == '-' then 1 else 0) == Some(a)
    ensures OpOf(atoi, s + eol)
            == if s[0] == '-' then Remove(a) else Add(Entry(a, VlanOf(atoi, s), VlanOf(atoi, s) != 0))
  {
    var line := s + eol;
    IndexOfIs(line, '\n', |s|);
    assert line[..|s|] == s;
  }

  lemma {:induction false} SkipsWord(s: string, i: nat, e: nat)
    requires i <= e <= |s| && (forall k :: i <= k < e ==> !IsBlank(s[k])) && (e < |s| ==> IsBlank(s[e]))
    ensures SkipWord(s, i) == e
    decreases e - i
  {
    if i < e {
      SkipsWord(s, i + 1, e);
    }
  }

  lemma {:induction false} SkipsGap(s: string, i: nat, e: nat)
    requires i <= e <= |s| && (forall k :: i <= k < e ==> IsBlank(s[k])) && (e < |s| ==> !IsBlank(s[e]))
    ensures SkipBlanks(s, i) == e
    decreases e - i
  {
    if i < e {
      SkipsGap(s, i + 1, e);
    }
  }

  /** The VLAN id behind a word and a gap. */
  lemma VlanBehind(t: string, gap: string, more: string)
    requires (forall i :: 0 <= i < |t| ==> !IsBlank(t[i])) && gap != "" && AllBlank(gap)
    requires more != "" && !IsBlank(more[0])
    ensures VlanOf(Atoi, t + (gap + more)) == Atoi(more)
  {
    var s := t + (gap + more);
    var p, q := |t|, |t| + |gap|;
    assert forall k :: p <= k < q ==> s[k] == gap[k - p];
    assert s[q] == more[0] && s[q..] == more;
    SkipsWord(s, 0, p);
    SkipsGap(s, p, q);
  }

  lemma NoVlan(t: string)
    requires forall i :: 0 <= i < |t| ==> !IsBlank(t[i])
    ensures VlanOf(Atoi, t) == 0
  {
    SkipsWord(t, 0, |t|);
  }

  lemma ListedMeans(a: Mac, t: string, eol: string)
    requires SpellsAddr(t, a) && (eol == "" || eol == "\n")
    ensures OpOf(Atoi, t + eol) == Add(Entry(a, 0, false))
  {
    AddrTextChars(t, a);
    NoAddrChars();
    assert t[0..0 + |t|] == t;
    AddrReads(t, 0, t, a);
    NoVlan(t);
    OpOfText(Atoi, t, eol, a);
  }

  lemma InVlanMeans(a: Mac, t: string, gap: string, n: nat, d: string, tail: string, eol: string)
    requires Legal(InVlan(a, t, gap, n, d, tail)) && (eol == "" || eol == "\n")
    ensures OpOf(Atoi, t + (gap + (d + tail)) + eol) == Add(Entry(a, n, n > 0))
  {
    var s := t + (gap + (d + tail));
    AddrTextChars(t, a);
    NoAddrChars();
    DecimalDigits(d, n);
    assert s[0..0 + |t|] == t && s[0] == t[0];
    AddrReads(s, 0, t, a);
    VlanBehind(t, gap, d + tail);
    AtoiReads(d, n, tail);
    OpOfText(Atoi, s, eol, a);
  }

  lemma WithdrawnMeans(a: Mac, t: string, tail: string, eol: string)
    requires SpellsAddr(t, a) && '\n' !in tail && (eol == "" || eol == "\n")
    ensures OpOf(Atoi, "-" + (t + tail) + eol) == Remove(a)
  {
    var s := "-" + (t + tail);
    AddrTextChars(t, a);
    NoAddrChars();
    assert s[1..1 + |t|] == t;
    AddrReads(s, 1, t, a);
    OpOfText(Atoi, s, eol, a);
  }

  /** Every line is understood as it is meant, with or without a newline at its end. */
  lemma LineMeans(l: AclLine, eol: string)
    requires Legal(l) && (eol == "" || eol == "\n")
    ensures OpOf(Atoi, TextOf(l) + eol) == MeaningOf(l)
  {
    match l
    case Comment(t) => assert (TextOf(l) + eol)[0] == '#';
    case EmptyLine => assert TextOf(l) + eol == eol;
    case Listed(a, t) => ListedMeans(a, t, eol);
    case InVlan(a, t, gap, n, d, tail) => InVlanMeans(a, t, gap, n, d, tail, eol);
    case Withdrawn(a, t, tail) => WithdrawnMeans(a, t, tail, eol);
  }

  // ---- files --------------------------------------------------------------------------------------

  function LinesOf(ls: seq<AclLine>): (lines: seq<string>)
    ensures |lines| == |ls|
  {
    if ls == [] then [] else LinesOf(ls[..|ls| - 1]) + [TextOf(ls[|ls| - 1]) + "\n"]
  }

  function MeaningsOf(ls: seq<AclLine>): (ops: seq<Op>)
    ensures |ops| == |ls| && Bad !in ops
  {
    if ls == [] then [] else MeaningsOf(ls[..|ls| - 1]) + [MeaningOf(ls[|ls| - 1])]
  }

  lemma {:induction false} FileMeans(ls: seq<AclLine>)
    requires forall k :: 0 <= k < |ls| ==> Legal(ls[k])
    ensures OpsOf(Atoi, LinesOf(ls)) == MeaningsOf(ls)
    decreases |ls|
  {
    if ls != [] {
      var front, last := ls[..|ls| - 1], ls[|ls| - 1];
      FileMeans(front);
      LineMeans(last, "\n");
      OpsSnoc(LinesOf(front), TextOf(last) + "\n");
    }
  }

  lemma OpsSnoc(lines: seq<string>, line: string)
    ensures OpsOf(Atoi, lines + [line]) == OpsOf(Atoi, lines) + [OpOf(Atoi, line)]
  {
  }

  /**
    Loading a written file and asking for an address: it is found exactly when, after
    the last line that withdraws it, it is listed, or when it was on the list before
    and is never withdrawn; what is found is one of these entries, with its VLAN id.
   */
  method LoadWritten(list: MacList, ls: seq<AclLine>, a: Mac) returns (r: Option<Entry>)
    requires list.Valid() && forall k :: 0 <= k < |ls| ==> Legal(ls[k])
    modifies list, list.acl
    ensures var meant := Meant(old(list.Entries()), MeaningsOf(ls), a);
            (r.Some? <==> meant != []) && (r.Some? ==> r.value in meant)
  {
    FileMeans(ls);
    r := LoadThenAsk(list, Atoi, LinesOf(ls), a);
  }

  // ---- lines that are refused -------------------------------------------------------------------

  /** The text of a line, in front of its newline. */
  function Body(line: string): string { line[..IndexOf(line, '\n')] }

  /** Where an address is expected. */
  function AddrPos(s: string): nat { if s != "" && s[0] == '-' then 1 else 0 }

  /**
    Every line: a comment or an empty one is skipped, and any other is refused
    exactly when no address stands at its beginning, or behind a '-' there.
   */
  lemma RefusedIff(atoi: string -> int, line: string)
    ensures var s := Body(line);
            && (OpOf(atoi, line) == Skip <==> s == "" || line[0] == '#')
            && (s != "" && line[0] != '#' ==>
                  (OpOf(atoi, line) == Bad <==> forall a: Mac :: !AddrAt(s, AddrPos(s), a)))
  {
    var s := Body(line);
    if s != "" {
      var pos := AddrPos(s);
      forall a: Mac
        ensures HwaddrAton(s, pos) == Some(a) <==> AddrAt(s, pos, a)
      {
        AtonIff(s, pos, a);
      }
    }
  }
}
