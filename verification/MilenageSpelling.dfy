/**
  Milenage files as people write them: comment lines, empty lines, and subscriber
  lines with an IMSI, four hex fields and maybe a decimal RES length. Every such
  file is read as the subscribers it lists, and without RES lengths it survives
  any run of the gateway and the rewriting at its end.
 */
module MilenageSpelling {
  import opened Bits
  import opened CStrings
  import opened Spelling
  import opened Sqn
  import opened Gateway
  import opened GatewayRuns
  import opened MilenageFile

  /** A line as it is meant; `Listed` also has the spelling of its fields. */
  datatype Item =
    | Comment(text: string)
    | EmptyLine
    | Listed(m: Subscriber, ki: string, opc: string, amf: string, sqn: string, res: Option<string>)

  /** The line without its newline. */
  function TextOf(it: Item): string
  {
    match it
    case Comment(t) => "#" + t
    case EmptyLine => ""
    case Listed(m, ki, opc, amf, sqn, res) =>
      m.imsi + " " + (ki + " " + (opc + " " + (amf + " " + (sqn + ResText(res)))))
  }

  function ResText(res: Option<string>): string { if res.None? then "" else " " + res.value }

  function LineOf(it: Item): string { TextOf(it) + "\n" }

  /** The four hex fields say what the subscriber has. */
  predicate SpellsFields(it: Item)
    requires it.Listed?
  {
    && SpellsHex(it.ki, it.m.ki) && SpellsHex(it.opc, it.m.opc)
    && SpellsHex(it.amf, it.m.amf) && SpellsHex(it.sqn, it.m.sqn)
  }

  /** A word that a line can begin with. */
  predicate FirstWord(imsi: string) { imsi != "" && ' ' !in imsi && '\n' !in imsi && imsi[0] != '#' }

  /** An IMSI has at most 19 characters. */
  predicate GoodImsi(imsi: string) { FirstWord(imsi) && |imsi| <= 19 }

  predicate GoodResLen(n: nat) { n == 0 || 4 <= n <= 16 }

  /** The spelling of a RES length: no field is 0. */
  predicate SpellsResLen(res: Option<string>, n: nat)
  {
    match res
    case None => n == 0
    case Some(d) => SpellsDecimal(d, n)
  }

  /** Lines that can stand in a file. */
  predicate Legal(it: Item)
  {
    match it
    case Comment(t) => '\n' !in t
    case EmptyLine => true
    case Listed(m, _, _, _, _, res) =>
      GoodImsi(m.imsi) && SpellsFields(it) && SpellsResLen(res, m.resLen) && GoodResLen(m.resLen)
  }

  /** The subscribers that lines list, the last one first. */
  function ListedBy(items: seq<Item>): seq<Subscriber>
  {
    if items == [] then []
    else
      var front, last := ListedBy(items[..|items| - 1]), items[|items| - 1];
      if last.Listed? then [last.m] + front else front
  }

  function LinesOf(items: seq<Item>): (lines: seq<string>)
    ensures |lines| == |items|
  {
    if items == [] then [] else LinesOf(items[..|items| - 1]) + [LineOf(items[|items| - 1])]
  }

  // ---- one line ---------------------------------------------------------------------------

  lemma HexHasNo(s: string, data: seq<byte>)
    requires SpellsHex(s, data)
    ensures |s| == 2 * |data| && ' ' !in s && '\n' !in s && NUL !in s
  {
    HexSpelling(s, data);
    assert HexVal(' ') == -1 && HexVal('\n') == -1 && HexVal(NUL) == -1;
  }

  lemma SpelledField(t: string, b: seq<byte>, rest: string)
    requires b != [] && SpellsHex(t, b)
    ensures HexField(t + " " + rest, |b|) == Some((b, rest))
    ensures HexField(t, |b|) == Some((b, ""))
  {
    HexHasNo(t, b);
    HexStr2BinReads(t, b, t, |b|);
    TokenThenSpace(t, rest);
    LastToken(t);
  }

  /** The fields of a listed subscriber, for what follows the SQN. */
  lemma FieldsParse(it: Item, more: string)
    requires it.Listed? && SpellsFields(it)
    requires more == ResText(it.res)
    ensures var s := it.ki + " " + (it.opc + " " + (it.amf + " " + (it.sqn + more)));
            var after := if it.res.None? then "" else it.res.value;
            ParseFields(it.m.imsi, s)
            == match ResLenField(after)
               case None => Invalid
               case Some(n) => Entry(it.m.(resLen := n))
  {
    var m := it.m;
    var s5 := it.sqn + more;
    var s4 := it.amf + " " + s5;
    var s3 := it.opc + " " + s4;
    SpelledField(it.ki, m.ki, s3);
    SpelledField(it.opc, m.opc, s4);
    SpelledField(it.amf, m.amf, s5);
    if it.res.Some? {
      SpelledField(it.sqn, m.sqn, it.res.value);
      assert s5 == it.sqn + " " + it.res.value;
    } else {
      SpelledField(it.sqn, m.sqn, "");
      assert s5 == it.sqn;
    }
  }

  lemma SpelledResLen(res: Option<string>, n: nat)
    requires SpellsResLen(res, n)
    ensures ResLenField(if res.None? then "" else res.value)
            == if n == 0 || 4 <= n <= 16 then Some(n) else None
  {
    if res.Some? {
      var d := res.value;
      DecimalDigits(d, n);
      LastToken(d);
      AtoiReads(d, n, "");
      assert d + "" == d;
    }
  }

  lemma ResTextHasNo(res: Option<string>, n: nat)
    requires SpellsResLen(res, n)
    ensures '\n' !in ResText(res) && NUL !in ResText(res)
  {
    if res.Some? {
      DecimalDigits(res.value, n);
    }
  }

  lemma ListedHasNoNewline(it: Item)
    requires it.Listed? && '\n' !in it.m.imsi && SpellsFields(it) && SpellsResLen(it.res, it.m.resLen)
    ensures '\n' !in TextOf(it)
  {
    HexHasNo(it.ki, it.m.ki);
    HexHasNo(it.opc, it.m.opc);
    HexHasNo(it.amf, it.m.amf);
    HexHasNo(it.sqn, it.m.sqn);
    ResTextHasNo(it.res, it.m.resLen);
  }

  /** A subscriber line is read as its subscriber, unless its IMSI is too long or its RES length out of range. */
  lemma ListedParses(it: Item)
    requires it.Listed? && FirstWord(it.m.imsi) && SpellsFields(it) && SpellsResLen(it.res, it.m.resLen)
    ensures ParseLine(LineOf(it)) == if GoodImsi(it.m.imsi) && GoodResLen(it.m.resLen) then Entry(it.m) else Invalid
  {
    var fields := it.ki + " " + (it.opc + " " + (it.amf + " " + (it.sqn + ResText(it.res))));
    ListedHasNoNewline(it);
    FirstWordTaken(it.m.imsi, fields, TextOf(it));
    FieldsParse(it, ResText(it.res));
    SpelledResLen(it.res, it.m.resLen);
  }

  lemma FirstWordTaken(imsi: string, fields: string, s: string)
    requires FirstWord(imsi) && s == imsi + " " + fields && '\n' !in s
    ensures ParseLine(s + "\n") == if |imsi| <= 19 then ParseFields(imsi, fields) else Invalid
  {
    var line := s + "\n";
    IndexOfIs(line, '\n', |s|);
    assert line[..|s|] == s;
    TokenThenSpace(imsi, fields);
    assert line[0] == s[0] == imsi[0];
  }

  lemma LegalParses(it: Item)
    requires Legal(it)
    ensures ParseLine(LineOf(it)) == if it.Listed? then Entry(it.m) else Skipped
  {
    match it
    case Comment(t) =>
      assert LineOf(it)[0] == '#';
    case EmptyLine =>
      assert LineOf(it) == "\n";
    case Listed(_, _, _, _, _, _) =>
      ListedParses(it);
  }

  // ---- whole files ----------------------------------------------------------------------------

  predicate AllLegal(items: seq<Item>) { forall k :: 0 <= k < |items| ==> Legal(items[k]) }

  /** The subscribers after one more item. */
  lemma ReadItem(lines: seq<string>, subs: seq<Subscriber>, it: Item)
    requires ReadLines(lines) == (true, subs) && Legal(it)
    ensures ReadLines(lines + [LineOf(it)]) == (true, if it.Listed? then [it.m] + subs else subs)
  {
    LegalParses(it);
    ReadSnoc(lines, LineOf(it));
  }

  /** Every file of legal lines is read, as the subscribers it lists with their RES lengths. */
  lemma {:induction false} SpelledFileReads(items: seq<Item>)
    requires AllLegal(items)
    ensures ReadLines(LinesOf(items)) == (true, ListedBy(items))
    decreases |items|
  {
    if items != [] {
      var front := items[..|items| - 1];
      SpelledFileReads(front);
      ReadItem(LinesOf(front), ListedBy(front), items[|items| - 1]);
    }
  }

  /**
    An IMSI of 20 characters or more, or a RES length of 1 to 3 or above 16, stops
    the reader; what it has read by then is kept.
   */
  lemma BadLineStops(items: seq<Item>, bad: Item, more: seq<string>)
    requires AllLegal(items) && bad.Listed? && FirstWord(bad.m.imsi) && SpellsFields(bad)
    requires SpellsResLen(bad.res, bad.m.resLen) && (|bad.m.imsi| >= 20 || !GoodResLen(bad.m.resLen))
    ensures ReadLines(LinesOf(items) + [LineOf(bad)] + more) == (false, ListedBy(items))
  {
    SpelledFileReads(items);
    ListedParses(bad);
    ReadSnoc(LinesOf(items), LineOf(bad));
    var lines := LinesOf(items) + [LineOf(bad)] + more;
    assert lines[..|items| + 1] == LinesOf(items) + [LineOf(bad)];
    ReadStopsAtError(lines, |items| + 1);
  }

  // ---- text and back -----------------------------------------------------------------------------

  /** A legal line that fits the reader's buffer, without a RES length. */
  predicate Plain(it: Item)
  {
    Legal(it) && |LineOf(it)| < 200 && NUL !in LineOf(it) && (it.Listed? ==> it.res == None)
  }

  predicate AllPlain(items: seq<Item>) { forall k :: 0 <= k < |items| ==> Plain(items[k]) }

  lemma LineTerminated(it: Item)
    requires Legal(it)
    ensures Terminated(LineOf(it))
  {
    if it.Listed? {
      ListedHasNoNewline(it);
    }
  }

  lemma FiveFieldsLength(it: Item)
    requires it.Listed? && SpellsFields(it) && it.res == None
    ensures |LineOf(it)| == RenderLength(it.m.imsi)
  {
    HexHasNo(it.ki, it.m.ki);
    HexHasNo(it.opc, it.m.opc);
    HexHasNo(it.amf, it.m.amf);
    HexHasNo(it.sqn, it.m.sqn);
  }

  lemma PlainIsClean(it: Item)
    requires Plain(it)
    ensures CleanLine(LineOf(it)) && (ParseLine(LineOf(it)).Entry? ==> StartsWithImsi(LineOf(it)))
  {
    LegalParses(it);
    if it.Listed? {
      FiveFieldsLength(it);
    }
    FiveFieldsClean(LineOf(it));
  }

  /** Complete, clean, short lines that are not indented. */
  ghost predicate Tidy(lines: seq<string>)
  {
    && AllTerminated(lines) && AllClean(lines) && AllShort(lines)
    && (forall k :: 0 <= k < |lines| ==> NUL !in lines[k])
    && forall i :: 0 <= i < |EntryLines(lines)| ==> StartsWithImsi(EntryLines(lines)[i])
  }

  lemma TidyNext(lines: seq<string>, line: string)
    requires Tidy(lines) && Terminated(line) && CleanLine(line) && |line| < READ_SIZE && NUL !in line
    requires ParseLine(line).Entry? ==> StartsWithImsi(line)
    ensures Tidy(lines + [line])
  {
    var all := lines + [line];
    assert all[..|all| - 1] == lines;
  }

  lemma PlainNext(lines: seq<string>, it: Item)
    requires Tidy(lines) && Plain(it)
    ensures Tidy(lines + [LineOf(it)])
  {
    LineTerminated(it);
    PlainIsClean(it);
    TidyNext(lines, LineOf(it));
  }

  lemma {:induction false} PlainFile(items: seq<Item>)
    requires AllPlain(items)
    ensures Tidy(LinesOf(items))
    decreases |items|
  {
    if items != [] {
      var front := items[..|items| - 1];
      PlainFile(front);
      PlainNext(LinesOf(front), items[|items| - 1]);
    }
  }

  lemma {:induction false} ConcatHasNoNul(parts: seq<string>)
    requires forall k :: 0 <= k < |parts| ==> NUL !in parts[k]
    ensures NUL !in Concat(parts)
    decreases |parts|
  {
    if parts != [] {
      ConcatHasNoNul(parts[1..]);
    }
  }

  lemma PlainFileReads(items: seq<Item>)
    requires AllPlain(items)
    ensures var text := Concat(LinesOf(items));
            NUL !in text && WellLaidOut(text) && ReadText(text) == (true, ListedBy(items))
  {
    var lines := LinesOf(items);
    PlainFile(items);
    LinesOfConcat(lines, READ_SIZE);
    ConcatHasNoNul(lines);
    SpelledFileReads(items);
  }

  lemma {:induction false} NoResLens(items: seq<Item>)
    requires AllPlain(items)
    ensures forall i :: 0 <= i < |ListedBy(items)| ==> ListedBy(items)[i].resLen == 0
    decreases |items|
  {
    if items != [] {
      NoResLens(items[..|items| - 1]);
    }
  }

  /**
    Write any file of comments, empty lines and five-field subscriber lines, start
    the gateway with it, run any commands, exit with -u, and read the file again:
    every lookup finds the subscriber as the run left it.
   */
  lemma WrittenFileRoundTrip(cfg: Config, items: seq<Item>, st: Hlr, reqs: seq<Request>, buf: Buffer, imsi: string)
    requires cfg.Valid() && st.Valid() && !st.changed && AllPlain(items) && st.subs == ListedBy(items)
    ensures var text, end := Concat(LinesOf(items)), Run(cfg, st, reqs);
            && ReadText(text) == (true, st.subs) && CanSave(end.subs, text)
            && var (ok, after) := ReadText(TextAfterExit(true, end, buf, text));
               var i := FindSubscriber(end.subs, imsi);
               && ok && |after| == |end.subs| && FindSubscriber(after, imsi) == i
               && (i < |after| ==> after[i] == end.subs[i])
  {
    PlainFileReads(items);
    SaveReloadRoundTrip(cfg, Concat(LinesOf(items)), st, reqs, buf, imsi);
    NoResLens(items);
    RunFollowsHistory(cfg, st, reqs);
  }

  // ---- a line that does not fit ---------------------------------------------------------------------

  /**
    A comment of 200 characters reaches the reader in two pieces, and the second,
    which holds what stands behind the first 199, is no comment: the file is refused.
   */
  lemma LongCommentRefused(t: string, c: char)
    requires |t| == 198 && '\n' !in t && c != '\n' && c != '#' && c != ' '
    ensures ReadText("#" + t + [c] + "\n") == (false, [])
  {
    var first, second := "#" + t, [c] + "\n";
    var text := "#" + t + [c] + "\n";
    assert text == first + second;
    IndexOfIs(text, '\n', 200);
    assert FgetsLength(text, READ_SIZE) == 199 && text[..199] == first && text[199..] == second;
    IndexOfIs(second, '\n', 1);
    assert second[..2] == second && second[2..] == "";
    assert FgetsLength(second, READ_SIZE) == 2;
    assert FgetsLines(second[2..], READ_SIZE) == [];
    assert FgetsLines(second, READ_SIZE) == [second] + [];
    assert FgetsLines(text, READ_SIZE) == [first] + ([second] + []);
    RestIsNoEntry(c);
    ReadSnoc([], first);
    ReadSnoc([first], second);
    assert [] + [first] == [first] && [first] + [second] == [first] + ([second] + []);
  }

  lemma RestIsNoEntry(c: char)
    requires c != '\n' && c != '#' && c != ' '
    ensures ParseLine([c] + "\n") == Invalid
  {
    var line := [c] + "\n";
    IndexOfIs(line, '\n', 1);
    assert line[..1] == [c];
    LastToken([c]);
    assert NextToken("") == None;
  }
}
