/**
  Coalescing rule files as the help text describes them: a delay, a condition and
  a list of patterns, each with or without an offset. Every such file is read as
  the rules it spells, and its message carries them under their nl80211 numbers.
 */
module RuleFile {
  import opened Bits
  import opened CStrings
  import opened Spelling
  import opened HexMask
  import opened Netlink
  import opened Coalesce
  import SchedScan

  // ---- spellings --------------------------------------------------------------------------

  /** A byte in two hex digits, or one of the three ways to write "any byte". */
  predicate SpellsItem(s: string, item: Option<byte>)
  {
    match item
    case None => s == "-" || s == "--" || s == "xx"
    case Some(b) => |s| == 2 && SpellsByte(s[0], s[1], b)
  }

  predicate SpellsItems(parts: seq<string>, items: Items)
  {
    |parts| == |items| && forall k :: 0 <= k < |items| ==> SpellsItem(parts[k], items[k])
  }

  /** A pattern in a rule file: maybe an offset and '+', then the bytes with ':' between them. */
  datatype PieceText = PieceText(offset: Option<string>, parts: seq<string>)

  function PieceString(t: PieceText): string
  {
    match t.offset
    case None => Join(t.parts, ':')
    case Some(d) => d + "+" + Join(t.parts, ':')
  }

  /** No offset means 0. */
  predicate SpellsPattern(t: PieceText, p: PktPattern)
  {
    && p.items != [] && SpellsItems(t.parts, p.items)
    && match t.offset
       case None => p.offset == 0
       case Some(d) => SpellsNumber(d, p.offset)
  }

  /** A decimal number that an attribute can hold. */
  predicate SpellsNumber(d: string, n: nat) { SpellsDecimal(d, n) && n < 0x1_0000_0000 }

  datatype RuleText = RuleText(delay: string, condition: string, pieces: seq<PieceText>, eol: string)

  predicate SpellsRule(t: RuleText, r: Rule)
  {
    && SpellsNumber(t.delay, r.delay) && SpellsNumber(t.condition, r.condition)
    && |t.pieces| == |r.patterns| >= 1
    && (forall k :: 0 <= k < |r.patterns| ==> SpellsPattern(t.pieces[k], r.patterns[k]))
    && (t.eol == "" || t.eol == "\n" || t.eol == "\r\n")
  }

  function PieceStrings(pieces: seq<PieceText>): (r: seq<string>)
    ensures |r| == |pieces|
  {
    if pieces == [] then [] else [PieceString(pieces[0])] + PieceStrings(pieces[1..])
  }

  function RuleLines(t: RuleText): seq<string>
  {
    ["delay=" + t.delay + t.eol,
     "condition=" + t.condition + t.eol,
     "patterns=" + Join(PieceStrings(t.pieces), ',') + t.eol]
  }

  function FileLines(ts: seq<RuleText>): seq<string>
  {
    if ts == [] then [] else RuleLines(ts[0]) + FileLines(ts[1..])
  }

  ghost predicate SpellsRules(ts: seq<RuleText>, rs: seq<Rule>)
  {
    |ts| == |rs| && forall i :: 0 <= i < |rs| ==> SpellsRule(ts[i], rs[i])
  }

  ghost predicate ReadsPairs(hex: HexReader)
  {
    forall s: string, b: byte :: |s| == 2 && SpellsByte(s[0], s[1], b) ==> hex(s) == Some(b)
  }

  /** Readers that understand decimal numbers and two-digit bytes. */
  ghost predicate Understands(rd: Readers)
  {
    ReadsPairs(rd.hex) && forall d: string, n: nat :: SpellsNumber(d, n) ==> rd.dec(d) == Some(n)
  }

  // ---- a separator and what stands before it ------------------------------------------------

  lemma JoinFirst(text: string, pos: nat, parts: seq<string>, c: char) returns (e: nat)
    requires parts != [] && pos <= |text| && text[pos..] == Join(parts, c) && c !in parts[0]
    ensures pos <= e <= |text| && IndexFrom(text, c, pos) == e && text[pos..e] == parts[0]
    ensures if |parts| == 1 then e == |text| else e < |text| && text[e + 1..] == Join(parts[1..], c)
  {
    var s := text[pos..];
    e := pos + |parts[0]|;
    forall j | pos <= j < e
      ensures text[j] != c
    {
      assert text[j] == s[j - pos] == parts[0][j - pos];
    }
    FirstFrom(text, c, pos);
    assert text[pos..e] == s[..|parts[0]|] == parts[0];
    if |parts| > 1 {
      var rest := Join(parts[1..], c);
      assert s == parts[0] + [c] + rest;
      assert text[e] == s[|parts[0]|] == c;
      assert text[e + 1..] == s[|parts[0]| + 1..] == rest;
    }
  }

  // ---- pattern texts -----------------------------------------------------------------------------

  /** The characters of a pattern. */
  predicate PatternChar(c: char) { HexVal(c) >= 0 || c == '-' || c == 'x' || c == ':' }

  predicate AllPattern(s: string) { forall i :: 0 <= i < |s| ==> PatternChar(s[i]) }

  lemma ItemChars(s: string, item: Option<byte>)
    requires SpellsItem(s, item)
    ensures s != "" && ':' !in s && AllPattern(s)
  {
    assert HexVal(':') == -1;
    match item
    case None =>
    case Some(b) =>
      HexByteValue(s[0], s[1], b);
      assert s == [s[0], s[1]];
  }

  lemma ItemRead(hex: HexReader, s: string, item: Option<byte>)
    requires SpellsItem(s, item)
    requires ReadsPairs(hex)
    ensures Component(hex, s) == Some(item)
  {
    if item.Some? {
      HexByteValue(s[0], s[1], item.value);
      assert HexVal('-') == -1 && HexVal('x') == -1;
    }
  }

  lemma LastItem(hex: HexReader, text: string, pos: nat, items: Items)
    requires pos < |text| && IndexFrom(text, ':', pos) == |text| && |items| == 1
    requires Component(hex, text[pos..]) == Some(items[0])
    ensures ItemsFrom(hex, text, pos) == Some(items) && NoneEmpty(text, pos)
  {
    assert text[pos..|text|] == text[pos..] && items == [items[0]];
  }

  lemma NextItem(hex: HexReader, text: string, pos: nat, e: nat, items: Items)
    requires pos < e < |text| && IndexFrom(text, ':', pos) == e && items != []
    requires Component(hex, text[pos..e]) == Some(items[0])
    requires ItemsFrom(hex, text, e + 1) == Some(items[1..]) && NoneEmpty(text, e + 1)
    ensures ItemsFrom(hex, text, pos) == Some(items) && NoneEmpty(text, pos)
  {
    assert items == [items[0]] + items[1..];
  }

  /** Texts that are read as the items, one each. */
  ghost predicate Components(hex: HexReader, parts: seq<string>, items: Items)
    decreases |items|
  {
    |parts| == |items|
    && (items != [] ==>
          && parts[0] != "" && ':' !in parts[0] && Component(hex, parts[0]) == Some(items[0])
          && Components(hex, parts[1..], items[1..]))
  }

  lemma {:induction false} SpelledComponents(hex: HexReader, parts: seq<string>, items: Items)
    requires SpellsItems(parts, items) && ReadsPairs(hex)
    ensures Components(hex, parts, items)
    decreases |items|
  {
    if items != [] {
      ItemChars(parts[0], items[0]);
      ItemRead(hex, parts[0], items[0]);
      SpelledComponents(hex, parts[1..], items[1..]);
    }
  }

  lemma {:induction false} ItemsRead(hex: HexReader, text: string, pos: nat, parts: seq<string>, items: Items)
    requires items != [] && Components(hex, parts, items) && pos <= |text| && text[pos..] == Join(parts, ':')
    ensures ItemsFrom(hex, text, pos) == Some(items) && NoneEmpty(text, pos)
    decreases |items|
  {
    var e := JoinFirst(text, pos, parts, ':');
    if |items| > 1 {
      ItemsRead(hex, text, e + 1, parts[1..], items[1..]);
      NextItem(hex, text, pos, e, items);
    } else {
      assert text[pos..e] == text[pos..];
      LastItem(hex, text, pos, items);
    }
  }

  lemma {:induction false} JoinedChars(parts: seq<string>, items: Items)
    requires items != [] && SpellsItems(parts, items)
    ensures Join(parts, ':') != "" && AllPattern(Join(parts, ':'))
    decreases |items|
  {
    ItemChars(parts[0], items[0]);
    if |items| > 1 {
      JoinedChars(parts[1..], items[1..]);
    }
  }

  lemma PatternRead(hex: HexReader, parts: seq<string>, items: Items)
    requires items != [] && SpellsItems(parts, items)
    requires ReadsPairs(hex)
    ensures ReadItems(hex, Join(parts, ':')) == Got(items)
  {
    var text := Join(parts, ':');
    assert text[0..] == text;
    SpelledComponents(hex, parts, items);
    ItemsRead(hex, text, 0, parts, items);
    NonEmptyFits(text);
    ParsesInsideIff(hex, text);
  }

  // ---- offsets ---------------------------------------------------------------------------------------

  /** A text without '+' is one token. */
  lemma OnePlusToken(s: string, pos: nat)
    requires pos < |s| && '+' !in s[pos..]
    ensures PlusToken(s, pos) == Some((pos, |s|)) && PlusToken(s, |s|) == None
  {
    assert forall j :: pos <= j < |s| ==> s[j] == s[pos..][j - pos];
  }

  lemma CutWithout(rd: Readers, text: string)
    requires text != "" && '+' !in text
    ensures CutPiece(rd, text) == Some((0, text))
  {
    assert text[0..] == text && text[0..|text|] == text;
    OnePlusToken(text, 0);
  }

  lemma CutWith(rd: Readers, d: string, n: nat, text: string)
    requires d != "" && '+' !in d && text != "" && '+' !in text && rd.dec(d) == Some(n)
    ensures CutPiece(rd, d + "+" + text) == Some((n, text))
  {
    var s := d + "+" + text;
    var i := |d| + 1;
    assert forall j :: 0 <= j < |d| ==> s[j] == d[j];
    FirstFrom(s, '+', 0);
    assert s[|d|] == '+';
    assert IndexFrom(s, '+', 0) == |d| && PlusToken(s, 0) == Some((0, |d|)) && s[0..|d|] == d;
    assert s[i..] == text && s[i] == text[0];
    OnePlusToken(s, i);
    assert SkipPlus(s, |d|) == SkipPlus(s, i) == i;
    assert PlusToken(s, |d|) == Some((i, |s|)) && s[i..|s|] == text;
  }

  /** One piece between commas is read as the pattern it spells. */
  lemma PieceRead(rd: Readers, t: PieceText, p: PktPattern)
    requires Understands(rd) && SpellsPattern(t, p)
    ensures ParsePattern(rd, PieceString(t)) == Got(p)
  {
    var text := Join(t.parts, ':');
    JoinedChars(t.parts, p.items);
    PatternRead(rd.hex, t.parts, p.items);
    assert HexVal('+') == -1;
    assert '+' !in text;
    match t.offset
    case None =>
      CutWithout(rd, text);
    case Some(d) =>
      DecimalDigits(d, p.offset);
      CutWith(rd, d, p.offset, text);
  }

  /** Characters of a piece: those of a pattern, digits and '+'. */
  lemma PieceChars(t: PieceText, p: PktPattern)
    requires SpellsPattern(t, p)
    ensures var s := PieceString(t); ',' !in s && '\r' !in s && '\n' !in s
  {
    JoinedChars(t.parts, p.items);
    assert HexVal(',') == -1 && HexVal('\r') == -1 && HexVal('\n') == -1;
    if t.offset.Some? {
      DecimalDigits(t.offset.value, p.offset);
    }
  }

  // ---- lines ------------------------------------------------------------------------------------------

  ghost predicate OneLine(s: string) { '\r' !in s && '\n' !in s }

  lemma CutNowhere(s: string, c: char)
    requires c !in s
    ensures CutAt(s, c) == s
  {
    if |s| >= 5 {
      assert s[..|s|] == s;
    }
  }

  lemma CutBefore(s: string, c: char, t: string)
    requires c !in s && |s| >= 5 && t != "" && t[0] == c
    ensures CutAt(s + t, c) == s
  {
    var all := s + t;
    assert forall j :: 0 <= j < |s| ==> all[j] == s[j];
    FirstFrom(all, c, 5);
    assert all[|s|] == c;
    assert IndexFrom(all, c, 5) == |s|;
    assert all[..|s|] == s;
  }

  lemma ContentOf(s: string, eol: string)
    requires OneLine(s) && |s| >= 5 && (eol == "" || eol == "\n" || eol == "\r\n")
    ensures Content(s + eol) == s
  {
    if eol == "\r\n" {
      CutBefore(s, '\r', eol);
      CutNowhere(s, '\n');
    } else {
      CutNowhere(s + eol, '\r');
      if eol == "" {
        assert s + eol == s;
        CutNowhere(s, '\n');
      } else {
        CutBefore(s, '\n', eol);
      }
    }
  }

  lemma AfterKey(key: string, body: string, eol: string)
    requires OneLine(key) && OneLine(body) && |key| >= 5 && (eol == "" || eol == "\n" || eol == "\r\n")
    ensures After(key, key + body + eol) == Some(body)
  {
    ContentOf(key + body, eol);
    assert (key + body)[|key|..] == body;
  }

  lemma NumberRead(rd: Readers, key: string, d: string, n: nat, eol: string)
    requires Understands(rd) && SpellsNumber(d, n)
    requires OneLine(key) && |key| >= 5 && (eol == "" || eol == "\n" || eol == "\r\n")
    ensures Number(rd, key, key + d + eol) == Some(n)
  {
    DecimalDigits(d, n);
    AfterKey(key, d, eol);
  }

  // ---- the patterns of a line ------------------------------------------------------------------------

  /** Strings that a reader takes for the patterns, one each. */
  ghost predicate ReadAs(read: PieceReader, parts: seq<string>, ps: seq<PktPattern>)
    decreases |ps|
  {
    |parts| == |ps|
    && (ps != [] ==> ',' !in parts[0] && read(parts[0]) == Got(ps[0]) && ReadAs(read, parts[1..], ps[1..]))
  }

  lemma LastPattern(read: PieceReader, text: string, pos: nat, ps: seq<PktPattern>)
    requires pos <= |text| && IndexFrom(text, ',', pos) == |text| && |ps| == 1 && read(text[pos..]) == Got(ps[0])
    ensures PatternsFrom(read, text, pos) == Got(ps)
  {
    assert text[pos..|text|] == text[pos..] && ps == [ps[0]];
  }

  lemma NextPattern(read: PieceReader, text: string, pos: nat, e: nat, ps: seq<PktPattern>)
    requires pos <= e < |text| && IndexFrom(text, ',', pos) == e && ps != [] && read(text[pos..e]) == Got(ps[0])
    requires PatternsFrom(read, text, e + 1) == Got(ps[1..])
    ensures PatternsFrom(read, text, pos) == Got(ps)
  {
    assert ps == [ps[0]] + ps[1..];
  }

  lemma {:induction false} PatternsRead(read: PieceReader, text: string, pos: nat, parts: seq<string>,
                                        ps: seq<PktPattern>)
    requires ps != [] && ReadAs(read, parts, ps) && pos <= |text| && text[pos..] == Join(parts, ',')
    ensures PatternsFrom(read, text, pos) == Got(ps)
    decreases |ps|
  {
    var e := JoinFirst(text, pos, parts, ',');
    if |ps| > 1 {
      PatternsRead(read, text, e + 1, parts[1..], ps[1..]);
      NextPattern(read, text, pos, e, ps);
    } else {
      assert text[pos..e] == text[pos..];
      LastPattern(read, text, pos, ps);
    }
  }

  ghost predicate SpellsPatterns(pieces: seq<PieceText>, ps: seq<PktPattern>)
  {
    |pieces| == |ps| && forall k :: 0 <= k < |ps| ==> SpellsPattern(pieces[k], ps[k])
  }

  lemma {:induction false} PiecesRead(rd: Readers, read: PieceReader, pieces: seq<PieceText>, ps: seq<PktPattern>)
    requires Understands(rd) && Reads(rd, read) && SpellsPatterns(pieces, ps)
    ensures ReadAs(read, PieceStrings(pieces), ps)
    ensures OneLine(Join(PieceStrings(pieces), ','))
    decreases |ps|
  {
    if ps != [] {
      PiecesRead(rd, read, pieces[1..], ps[1..]);
      PieceChars(pieces[0], ps[0]);
      PieceRead(rd, pieces[0], ps[0]);
      var s, rest := PieceString(pieces[0]), PieceStrings(pieces[1..]);
      assert read(s) == ParsePattern(rd, s);
      ReadAsNext(read, s, ps[0], rest, ps[1..]);
      assert ps == [ps[0]] + ps[1..];
      if rest != [] {
        JoinCons(s, rest, ',');
      }
    }
  }

  lemma ReadAsNext(read: PieceReader, s: string, p: PktPattern, rest: seq<string>, ps: seq<PktPattern>)
    requires ',' !in s && read(s) == Got(p) && ReadAs(read, rest, ps)
    ensures ReadAs(read, [s] + rest, [p] + ps)
  {
  }

  lemma PiecesText(rd: Readers, read: PieceReader, pieces: seq<PieceText>, ps: seq<PktPattern>)
    requires Understands(rd) && Reads(rd, read) && ps != [] && SpellsPatterns(pieces, ps)
    ensures var text := Join(PieceStrings(pieces), ','); OneLine(text) && PatternsFrom(read, text, 0) == Got(ps)
  {
    var text := Join(PieceStrings(pieces), ',');
    PiecesRead(rd, read, pieces, ps);
    assert text[0..] == text;
    PatternsRead(read, text, 0, PieceStrings(pieces), ps);
  }

  lemma PatternsLine(rd: Readers, text: string, ps: seq<PktPattern>, eol: string)
    requires OneLine(text) && PatternsFrom(Piece(rd), text, 0) == Got(ps)
    requires eol == "" || eol == "\n" || eol == "\r\n"
    ensures Patterns(rd, "patterns=" + text + eol) == Got(ps)
  {
    AfterKey("patterns=", text, eol);
  }

  lemma RuleRead(rd: Readers, t: RuleText, r: Rule, l0: string, l1: string, l2: string)
    requires Understands(rd) && SpellsRule(t, r) && RuleLines(t) == [l0, l1, l2]
    ensures ParseRule(rd, l0, l1, l2) == Got(r)
  {
    NumberRead(rd, "delay=", t.delay, r.delay, t.eol);
    NumberRead(rd, "condition=", t.condition, r.condition, t.eol);
    PiecesText(rd, Piece(rd), t.pieces, r.patterns);
    PatternsLine(rd, Join(PieceStrings(t.pieces), ','), r.patterns, t.eol);
  }

  lemma RulesNext(read: RuleReader, l0: string, l1: string, l2: string, rest: seq<string>, r: Rule, rs: seq<Rule>)
    requires read(l0, l1, l2) == Got(r) && RulesFrom(read, rest) == Got(rs)
    ensures RulesFrom(read, [l0, l1, l2] + rest) == Got([r] + rs)
  {
    var lines := [l0, l1, l2] + rest;
    assert lines[3..] == rest;
  }

  /** The reader takes the three lines of a spelled rule for that rule. */
  ghost predicate ReadsRules(read: RuleReader)
  {
    forall t: RuleText, r: Rule, l0: string, l1: string, l2: string
      {:trigger SpellsRule(t, r), read(l0, l1, l2)} ::
      SpellsRule(t, r) && RuleLines(t) == [l0, l1, l2] ==> read(l0, l1, l2) == Got(r)
  }

  lemma {:induction false} SpelledRulesReadBy(read: RuleReader, ts: seq<RuleText>, rs: seq<Rule>)
    requires ReadsRules(read) && SpellsRules(ts, rs)
    ensures RulesFrom(read, FileLines(ts)) == Got(rs)
    decreases |rs|
  {
    if rs != [] {
      SpelledRulesReadBy(read, ts[1..], rs[1..]);
      var l := RuleLines(ts[0]);
      assert SpellsRule(ts[0], rs[0]) && read(l[0], l[1], l[2]) == Got(rs[0]);
      RulesNext(read, l[0], l[1], l[2], FileLines(ts[1..]), rs[0], rs[1..]);
      assert rs == [rs[0]] + rs[1..];
    }
  }

  /** A file that spells rules is read as these rules. */
  lemma SpelledRulesRead(rd: Readers, ts: seq<RuleText>, rs: seq<Rule>)
    requires Understands(rd) && SpellsRules(ts, rs)
    ensures FileRules(rd, FileLines(ts)) == Got(rs)
  {
    forall t: RuleText, r: Rule, l0: string, l1: string, l2: string | SpellsRule(t, r) && RuleLines(t) == [l0, l1, l2]
      ensures RuleOf(rd)(l0, l1, l2) == Got(r)
    {
      RuleRead(rd, t, r, l0, l1, l2);
    }
    SpelledRulesReadBy(RuleOf(rd), ts, rs);
  }

  // ---- the message, by attribute numbers ---------------------------------------------------------------

  /** A pattern nest: the mask as attribute 1, the values as 2, the offset as 3. */
  ghost predicate CarriesPattern(a: Attr, num: nat, p: PktPattern)
  {
    && a.Nest? && a.id == num && |a.kids| == 3
    && a.kids[0].Bytes? && a.kids[0].id == 1 && a.kids[1].Bytes? && a.kids[1].id == 2
    && Represents(Pattern(a.kids[1].data, a.kids[0].data), p.items)
    && a.kids[2] == U32(3, p.offset)
  }

  /** A rule nest: delay 1, condition 2, and in 3 the patterns, numbered on from those of earlier rules. */
  ghost predicate CarriesRule(a: Attr, num: nat, before: nat, r: Rule)
  {
    && a.Nest? && a.id == num && |a.kids| == 3
    && a.kids[0] == U32(1, r.delay) && a.kids[1] == U32(2, r.condition)
    && a.kids[2].Nest? && a.kids[2].id == 3 && |a.kids[2].kids| == |r.patterns|
    && forall j :: 0 <= j < |r.patterns| ==> CarriesPattern(a.kids[2].kids[j], before + j + 1, r.patterns[j])
  }

  /** Rules numbered 1, 2, ... */
  ghost predicate CarriesRules(kids: seq<Attr>, rs: seq<Rule>)
  {
    |kids| == |rs| && forall i :: 0 <= i < |rs| ==> CarriesRule(kids[i], i + 1, PatternCount(rs[..i]), rs[i])
  }

  lemma PatternCarried(p: PktPattern, num: nat)
    ensures CarriesPattern(EncodePattern(p, num), num, p)
  {
    PatternOfRepresents(p.items);
  }

  lemma {:induction false} PatternsCarried(ps: seq<PktPattern>, num: nat, j: nat)
    requires j < |ps|
    ensures CarriesPattern(EncodePatterns(ps, num)[j], num + j + 1, ps[j])
    decreases |ps|
  {
    if j == 0 {
      PatternCarried(ps[0], num + 1);
    } else {
      PatternsCarried(ps[1..], num + 1, j - 1);
    }
  }

  lemma RuleCarried(r: Rule, num: nat, before: nat)
    ensures CarriesRule(EncodeRule(r, num, before), num, before, r)
  {
    forall j | 0 <= j < |r.patterns|
      ensures CarriesPattern(EncodePatterns(r.patterns, before)[j], before + j + 1, r.patterns[j])
    {
      PatternsCarried(r.patterns, before, j);
    }
  }

  lemma {:induction false} RulesCarried(rs: seq<Rule>, ruleNum: nat, patNum: nat, i: nat)
    requires i < |rs|
    ensures CarriesRule(EncodeRules(rs, ruleNum, patNum)[i], ruleNum + i + 1, patNum + PatternCount(rs[..i]), rs[i])
    decreases |rs|
  {
    if i == 0 {
      RuleCarried(rs[0], ruleNum + 1, patNum);
    } else {
      RulesCarried(rs[1..], ruleNum + 1, patNum + |rs[0].patterns|, i - 1);
      assert rs[..i][0] == rs[0] && rs[..i][1..] == rs[1..][..i - 1];
    }
  }

  // ---- what is shown, as text ------------------------------------------------------------------------------

  /** A byte as two lower-case digits, any byte as two dashes. */
  function ItemText(item: Option<byte>): string
  {
    match item
    case None => "--"
    case Some(b) => ["0123456789abcdef"[b / 16], "0123456789abcdef"[b % 16]]
  }

  function ItemTexts(items: Items): seq<string>
  {
    if items == [] then [] else [ItemText(items[0])] + ItemTexts(items[1..])
  }

  lemma ItemPrinted(item: Option<byte>)
    ensures PrintItem(item) == ItemText(item)
  {
    if item.Some? {
      var low := "0123456789abcdef";
      assert forall k :: 0 <= k < 16 ==> HexDigit(k) == low[k];
    }
  }

  lemma {:induction false} ItemsPrinted(items: Items)
    ensures PrintItems(items) == Join(ItemTexts(items), ':')
    decreases |items|
  {
    if items != [] {
      ItemPrinted(items[0]);
      ItemsPrinted(items[1..]);
      if |items| > 1 {
        JoinCons(ItemText(items[0]), ItemTexts(items[1..]), ':');
      }
    }
  }

  /** A 32-bit number as a signed one. */
  function AsSigned(n: nat): int { if n < 0x8000_0000 then n else n - 0x1_0000_0000 }

  ghost predicate ShowsPattern(s: ShownPattern, p: PktPattern)
  {
    s == ShownPattern(AsSigned(p.offset), Join(ItemTexts(p.items), ':'))
  }

  ghost predicate ShowsRule(s: ShownRule, r: Rule)
  {
    && s.delay == AsSigned(r.delay) && (s.notMatch <==> r.condition != 0) && |s.patterns| == |r.patterns|
    && forall j :: 0 <= j < |r.patterns| ==> ShowsPattern(s.patterns[j], r.patterns[j])
  }

  ghost predicate ShowsRules(shown: seq<ShownRule>, rs: seq<Rule>)
  {
    |shown| == |rs| && forall i :: 0 <= i < |rs| ==> ShowsRule(shown[i], rs[i])
  }

  /** All numbers of a rule fit their attributes. */
  predicate Fits32(r: Rule)
  {
    && r.delay < 0x1_0000_0000 && r.condition < 0x1_0000_0000
    && forall j :: 0 <= j < |r.patterns| ==> r.patterns[j].offset < 0x1_0000_0000
  }

  lemma SignedIs(n: nat)
    requires n < 0x1_0000_0000
    ensures Signed(n) == AsSigned(n) && ToU32(n) == n
  {
  }

  lemma RuleShown(r: Rule)
    requires Fits32(r)
    ensures ShowsRule(Showing(r), r)
  {
    SignedIs(r.delay);
    SignedIs(r.condition);
    forall j | 0 <= j < |r.patterns|
      ensures ShowsPattern(Showing(r).patterns[j], r.patterns[j])
    {
      SignedIs(r.patterns[j].offset);
      ItemsPrinted(r.patterns[j].items);
    }
  }

  lemma SpelledFits(t: RuleText, r: Rule)
    requires SpellsRule(t, r)
    ensures Fits32(r)
  {
    forall j | 0 <= j < |r.patterns|
      ensures r.patterns[j].offset < 0x1_0000_0000
    {
      assert SpellsPattern(t.pieces[j], r.patterns[j]);
    }
  }

  /**
    From the text of a rule file to the attributes and to the text that is shown:
    enabling a file that spells rules succeeds, adds one attribute 182 that carries
    exactly these rules, and showing that message prints exactly these rules.
   */
  lemma WrittenRulesEnabledAndShown(rd: Readers, msg: Msg, ts: seq<RuleText>, rs: seq<Rule>)
    requires Understands(rd) && SpellsRules(ts, rs)
    ensures var a := Nest(182, EncodeRules(rs, 0, 0));
            && Handle(rd, msg, FileLines(ts)) == Got((0, Put(msg, a)))
            && CarriesRules(a.kids, rs)
            && ShowMessage(msg[|msg| - 1].kids + [a]) == Shown(ShowingAll(rs))
            && ShowsRules(ShowingAll(rs), rs)
  {
    SpelledRulesRead(rd, ts, rs);
    HandleAccepts(rd, msg, FileLines(ts));
    AllCarried(rs);
    AllShown(ts, rs);
    ShowAdded(msg[|msg| - 1].kids, rs);
  }

  lemma AllCarried(rs: seq<Rule>)
    ensures CarriesRules(EncodeRules(rs, 0, 0), rs)
  {
    forall i | 0 <= i < |rs|
      ensures CarriesRule(EncodeRules(rs, 0, 0)[i], i + 1, PatternCount(rs[..i]), rs[i])
    {
      RulesCarried(rs, 0, 0, i);
    }
  }

  lemma AllShown(ts: seq<RuleText>, rs: seq<Rule>)
    requires SpellsRules(ts, rs)
    ensures ShowsRules(ShowingAll(rs), rs)
  {
    forall i | 0 <= i < |rs|
      ensures ShowsRule(ShowingAll(rs)[i], rs[i])
    {
      SpelledFits(ts[i], rs[i]);
      RuleShown(rs[i]);
    }
  }

  lemma ShowAdded(kids: seq<Attr>, rs: seq<Rule>)
    ensures ShowMessage(kids + [Nest(182, EncodeRules(rs, 0, 0))]) == Shown(ShowingAll(rs))
  {
    ShowEncodedRules(rs, 0, 0);
    var rules := EncodeRules(rs, 0, 0);
    var all := kids + [Nest(182, rules)];
    assert all[|all| - 1] == Nest(182, rules);
    assert RulesIn(all) == Some(rules);
  }

  // ---- strtoul as the reader ---------------------------------------------------------------------------------

  lemma StrtoulPair(s: string, b: byte, high: int, low: int)
    requires |s| == 2 && HexVal(s[0]) == high >= 0 && HexVal(s[1]) == low >= 0 && high * 16 + low == b
    ensures StrtoulByte(s) == Some(b)
  {
    assert SkipSpaces(s, 0) == 0;
    assert SkipDigits(s, 2, 16) == 2 && SkipDigits(s, 1, 16) == 2 && SkipDigits(s, 0, 16) == 2;
    assert DigitsValue(s, 0, 1, 16) == high;
    assert DigitsValue(s, 0, 2, 16) == b;
  }

  /** The C readers understand every decimal number and every byte in two digits. */
  lemma StrtoulUnderstands()
    ensures Understands(Readers(SchedScan.DecText, StrtoulByte))
  {
    forall d: string, n: nat | SpellsNumber(d, n)
      ensures SchedScan.DecText(d) == Some(n)
    {
      StrtoulReads(d, n, "");
      assert d + "" == d;
    }
    forall s: string, b: byte | |s| == 2 && SpellsByte(s[0], s[1], b)
      ensures StrtoulByte(s) == Some(b)
    {
      HexByteValue(s[0], s[1], b);
      StrtoulPair(s, b, HexVal(s[0]), HexVal(s[1]));
    }
  }
}
