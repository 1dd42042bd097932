/**
  The Milenage parameter file: reading it into the subscriber list at start-up
  and rewriting the SQNs into it on exit. A file is the sequence of lines that
  fgets delivers, each with its newline.
 */
module MilenageFile {
  import opened Bits
  import opened CStrings
  import opened Sqn
  import opened Gateway
  import opened GatewayRuns

  const IMSI_SIZE: nat := 20
  const RES_MAX_LEN: nat := 16

  // ---- tokens ---------------------------------------------------------------------

  /** str_token with " ": the next token and what follows its delimiter. */
  function NextToken(s: string): (r: Option<(string, string)>)
    ensures r.Some? ==> r.value.0 != "" && ' ' !in r.value.0
    ensures r.Some? ==> |r.value.1| < |s|
  {
    if s == "" then None
    else if s[0] == ' ' then NextToken(s[1..])
    else
      var e := IndexOf(s, ' ');
      FirstIndex(s, ' ');
      Some((s[..e], if e < |s| then s[e + 1..] else ""))
  }

  lemma TokenThenSpace(t: string, rest: string)
    requires t != "" && ' ' !in t
    ensures NextToken(t + " " + rest) == Some((t, rest))
  {
    var s := t + " " + rest;
    IndexOfIs(s, ' ', |t|);
    assert s[..|t|] == t && s[|t| + 1..] == rest;
  }

  lemma LastToken(t: string)
    requires t != "" && ' ' !in t
    ensures NextToken(t) == Some((t, ""))
  {
    IndexOfIs(t, ' ', |t|);
    assert t[..|t|] == t;
  }

  // ---- reading ----------------------------------------------------------------------

  datatype Line = Skipped | Invalid | Entry(sub: Subscriber)

  /** A hex field of exactly len bytes at the start of s, and the rest. */
  function HexField(s: string, len: nat): (r: Option<(seq<byte>, string)>)
    ensures r.Some? ==> |r.value.0| == len
  {
    match NextToken(s)
    case None => None
    case Some((t, rest)) =>
      if |t| != 2 * len then None
      else
        match HexStr2Bin(t, len)
        case None => None
        case Some(b) => Some((b, rest))
  }

  lemma HexFieldPrinted(b: seq<byte>, rest: string)
    requires b != []
    ensures HexField(HexPrint(b) + " " + rest, |b|) == Some((b, rest))
    ensures HexField(HexPrint(b), |b|) == Some((b, ""))
  {
    var t := HexPrint(b);
    assert HexVal(' ') == -1;
    assert ' ' !in t;
    HexRoundTrip(b, "");
    assert t + "" == t;
    TokenThenSpace(t, rest);
    LastToken(t);
  }

  /** The optional RES length: None when it is out of range. */
  function ResLenField(s: string): Option<nat>
  {
    match NextToken(s)
    case None => Some(0)
    case Some((t, _)) =>
      var n := Atoi(t);
      if n == 0 then Some(0) else if RES_MIN_LEN <= n <= RES_MAX_LEN then Some(n) else None
  }

  /** The fields after the IMSI. */
  function ParseFields(imsi: string, s: string): Line
  {
    match HexField(s, 16)
    case None => Invalid
    case Some((ki, s1)) =>
      match HexField(s1, 16)
      case None => Invalid
      case Some((opc, s2)) =>
        match HexField(s2, 2)
        case None => Invalid
        case Some((amf, s3)) =>
          match HexField(s3, 6)
          case None => Invalid
          case Some((sqn, s4)) =>
            match ResLenField(s4)
            case None => Invalid
            case Some(n) => Entry(Subscriber(imsi, ki, opc, amf, sqn, n))
  }

  /** One line of the file as read_milenage takes it. */
  function ParseLine(line: string): Line
  {
    if line != "" && line[0] == '#' then Skipped
    else
      var s := line[..IndexOf(line, '\n')];
      if s == "" then Skipped
      else
        match NextToken(s)
        case None => Invalid
        case Some((imsi, rest)) => if |imsi| >= IMSI_SIZE then Invalid else ParseFields(imsi, rest)
  }

  /** Whether a file reads without error, and the list it leaves: last line first. */
  function ReadLines(lines: seq<string>): (r: (bool, seq<Subscriber>))
    decreases |lines|
  {
    if lines == [] then (true, [])
    else
      var front := ReadLines(lines[..|lines| - 1]);
      if !front.0 then front
      else
        match ParseLine(lines[|lines| - 1])
        case Skipped => front
        case Invalid => (false, front.1)
        case Entry(m) => (true, [m] + front.1)
  }

  lemma {:induction false} ReadStopsAtError(lines: seq<string>, n: nat)
    requires n <= |lines| && !ReadLines(lines[..n]).0
    ensures ReadLines(lines) == ReadLines(lines[..n])
    decreases |lines| - n
  {
    if n == |lines| {
      assert lines[..n] == lines;
    } else {
      assert lines[..n + 1][..n] == lines[..n];
      ReadStopsAtError(lines, n + 1);
    }
  }

  /** read_milenage: each entry is put in front of the list. */
  method ReadMilenage(lines: seq<string>) returns (ok: bool, db: seq<Subscriber>)
    ensures (ok, db) == ReadLines(lines)
  {
    ok, db := true, [];
    for i := 0 to |lines|
      invariant ok && (ok, db) == ReadLines(lines[..i])
    {
      assert lines[..i + 1][..i] == lines[..i];
      match ParseLine(lines[i])
      case Skipped =>
      case Invalid =>
        ok := false;
        ReadStopsAtError(lines, i + 1);
        return;
      case Entry(m) =>
        db := [m] + db;
    }
    assert lines[..|lines|] == lines;
  }

  // ---- writing ------------------------------------------------------------------------

  /** The line update_milenage_file writes for a subscriber. */
  function Render(m: Subscriber): string
  {
    m.imsi + " " + (HexPrint(m.ki) + " " + (HexPrint(m.opc) + " " + (HexPrint(m.amf) + " " + (HexPrint(m.sqn) + "\n"))))
  }

  /** The length of such a line. */
  function RenderLength(imsi: string): nat { |imsi| + 85 }

  lemma RenderedLength(m: Subscriber)
    ensures |Render(m)| == RenderLength(m.imsi)
  {
  }

  /** The subscriber whose line this is for the updater, or |db| when it leaves the line alone. */
  function OwnerOf(db: seq<Subscriber>, line: string): (i: nat)
    ensures i <= |db|
  {
    var sp := IndexOf(line, ' ');
    if (line != "" && line[0] == '#') || sp == |line| || sp >= IMSI_SIZE then |db|
    else FindSubscriber(db, line[..sp])
  }

  // ---- the line buffer ------------------------------------------------------------------

  const NUL: char := '\0'

  const BUF_SIZE: nat := 500

  type Buffer = b: seq<char> | |b| == BUF_SIZE witness seq(BUF_SIZE, _ => NUL)

  /** A line that fgets can deliver into the buffer. */
  predicate Fits(line: string) { |line| < BUF_SIZE && NUL !in line }

  /** The buffer after fgets: the line and its NUL; what lies behind is what was there. */
  function Fgets(buf: Buffer, line: string): Buffer
    requires Fits(line)
  {
    line + [NUL] + buf[|line| + 1..]
  }

  /** The buffer after a line was written over its front, without a NUL behind it. */
  function Overwrite(buf: Buffer, text: string): Buffer
    requires |text| < BUF_SIZE
  {
    (text + buf[|text|..])[BUF_SIZE - 1 := NUL]
  }

  /** The string in a buffer. */
  function CStr(buf: seq<char>): string { buf[..IndexOf(buf, NUL)] }

  /** A rendered line fits the buffer. */
  predicate Renders(db: seq<Subscriber>)
  {
    forall i :: 0 <= i < |db| ==> |db[i].imsi| < IMSI_SIZE && NUL !in db[i].imsi
  }

  /** The buffer when a line is printed. */
  function BufferFor(db: seq<Subscriber>, buf: Buffer, line: string): Buffer
    requires Renders(db) && Fits(line)
  {
    var i := OwnerOf(db, line);
    if i == |db| then Fgets(buf, line) else Overwrite(Fgets(buf, line), Render(db[i]))
  }

  /** What is printed for the lines, with the buffer reused from line to line. */
  function PrintLines(db: seq<Subscriber>, buf: Buffer, lines: seq<string>): seq<string>
    requires Renders(db) && forall k :: 0 <= k < |lines| ==> Fits(lines[k])
    decreases |lines|
  {
    if lines == [] then []
    else
      var b := BufferFor(db, buf, lines[0]);
      [CStr(b)] + PrintLines(db, b, lines[1..])
  }

  /** A copy into the front of the buffer. */
  method CopyIn(buf: array<char>, text: string)
    requires |text| <= buf.Length
    modifies buf
    ensures buf[..] == text + old(buf[..])[|text|..]
  {
    for k := 0 to |text|
      invariant forall j :: 0 <= j < k ==> buf[j] == text[j]
      invariant forall j :: k <= j < buf.Length ==> buf[j] == old(buf[j])
    {
      buf[k] := text[k];
    }
  }

  /** One round of the loop: read, look up, write over the buffer, print. */
  method UpdateOne(db: seq<Subscriber>, line: string, buf: array<char>) returns (printed: string)
    requires Renders(db) && Fits(line) && buf.Length == 500
    modifies buf
    ensures buf[..] == BufferFor(db, old(buf[..]), line) && printed == CStr(buf[..])
  {
    ghost var before: Buffer := buf[..];
    CopyIn(buf, line + [NUL]);
    assert buf[..] == Fgets(before, line);
    var sp := IndexOf(line, ' ');
    if !(line != "" && line[0] == '#') && sp < |line| && sp < IMSI_SIZE {
      var i := ScanList(db, line[..sp]);
      if i < |db| {
        CopyIn(buf, Render(db[i]));
        buf[BUF_SIZE - 1] := NUL;
        assert buf[..] == Overwrite(Fgets(before, line), Render(db[i]));
      }
    }
    printed := CStr(buf[..]);
  }

  /** update_milenage_file: what it prints into the new file, line by line. */
  method UpdateMilenageFile(db: seq<Subscriber>, lines: seq<string>, buf: array<char>) returns (out: seq<string>)
    requires Renders(db) && buf.Length == 500 && forall k :: 0 <= k < |lines| ==> Fits(lines[k])
    modifies buf
    ensures out == PrintLines(db, old(buf[..]), lines)
  {
    out := [];
    ghost var all := PrintLines(db, buf[..], lines);
    assert lines[0..] == lines;
    for n := 0 to |lines|
      invariant all == out + PrintLines(db, buf[..], lines[n..])
    {
      ghost var rest := lines[n..];
      assert rest[0] == lines[n] && rest[1..] == lines[n + 1..];
      ghost var before: Buffer := buf[..];
      var printed := UpdateOne(db, lines[n], buf);
      PrintNext(db, before, rest, out, printed);
      out := out + [printed];
    }
    assert out + [] == out;
  }

  lemma PrintNext(db: seq<Subscriber>, buf: Buffer, lines: seq<string>, out: seq<string>, printed: string)
    requires Renders(db) && lines != [] && forall k :: 0 <= k < |lines| ==> Fits(lines[k])
    requires printed == CStr(BufferFor(db, buf, lines[0]))
    ensures out + PrintLines(db, buf, lines)
            == out + [printed] + PrintLines(db, BufferFor(db, buf, lines[0]), lines[1..])
  {
    var more := PrintLines(db, BufferFor(db, buf, lines[0]), lines[1..]);
    assert out + ([printed] + more) == out + [printed] + more;
  }

  // ---- the file that is printed ------------------------------------------------------------

  /** A complete line: one newline, at its end. */
  ghost predicate Terminated(line: string)
  {
    line != "" && line[|line| - 1] == '\n' && forall k :: 0 <= k < |line| - 1 ==> line[k] != '\n'
  }

  /** The lines the new file has for a line of the old one: the end of a longer line stays behind. */
  function NewLines(db: seq<Subscriber>, line: string): (r: seq<string>)
  {
    var i := OwnerOf(db, line);
    if i == |db| then [line]
    else
      var r := Render(db[i]);
      if |line| <= |r| then [r] else [r, line[|r|..]]
  }

  function FlatMap(f: string -> seq<string>, lines: seq<string>): seq<string>
  {
    if lines == [] then [] else FlatMap(f, lines[..|lines| - 1]) + f(lines[|lines| - 1])
  }

  function LinesFor(db: seq<Subscriber>): string -> seq<string> { (line: string) => NewLines(db, line) }

  /** The lines of the new file. */
  function NewFile(db: seq<Subscriber>, lines: seq<string>): seq<string> { FlatMap(LinesFor(db), lines) }

  function Concat(parts: seq<string>): string { if parts == [] then "" else parts[0] + Concat(parts[1..]) }

  lemma ConcatOne(s: string)
    ensures Concat([s]) == s
  {
    assert [s][1..] == [] && s + "" == s;
  }

  lemma {:induction false} ConcatTwo(a: seq<string>, b: seq<string>)
    ensures Concat(a + b) == Concat(a) + Concat(b)
    decreases |a|
  {
    if a == [] {
      assert a + b == b && "" + Concat(b) == Concat(b);
    } else {
      ConcatTwo(a[1..], b);
      assert (a + b)[1..] == a[1..] + b;
      assert a[0] + (Concat(a[1..]) + Concat(b)) == a[0] + Concat(a[1..]) + Concat(b);
    }
  }

  lemma CStrOf(text: string, rest: seq<char>)
    requires NUL !in text
    ensures CStr(text + [NUL] + rest) == text
  {
    var b := text + [NUL] + rest;
    IndexOfIs(b, NUL, |text|);
    assert b[..|text|] == text;
  }

  lemma {:induction false} HexHasNoNul(data: seq<byte>)
    ensures NUL !in HexPrint(data)
  {
    assert HexVal(NUL) == -1;
  }

  lemma RenderHasNoNul(m: Subscriber)
    requires NUL !in m.imsi
    ensures NUL !in Render(m)
  {
    HexHasNoNul(m.ki);
    HexHasNoNul(m.opc);
    HexHasNoNul(m.amf);
    HexHasNoNul(m.sqn);
  }

  /** Writing r over a line that is no shorter leaves r and the end of the line. */
  lemma OverwriteLonger(buf: Buffer, line: string, r: string)
    requires Fits(line) && NUL !in r && |r| <= |line|
    ensures CStr(Overwrite(Fgets(buf, line), r)) == r + line[|r|..]
  {
    var s := r + line[|r|..];
    var b, rest := Overwrite(Fgets(buf, line), r), buf[|line| + 1..];
    var rest' := if rest == [] then [] else rest[|rest| - 1 := NUL];
    assert b == s + [NUL] + rest';
    assert NUL !in s;
    CStrOf(s, rest');
  }

  /** What is printed for a line is its new lines, whatever the buffer held before. */
  lemma PrintedIsNew(db: seq<Subscriber>, buf: Buffer, line: string)
    requires Renders(db) && Fits(line)
    requires var i := OwnerOf(db, line); i < |db| ==> RenderLength(db[i].imsi) <= |line|
    ensures CStr(BufferFor(db, buf, line)) == Concat(NewLines(db, line))
  {
    var i := OwnerOf(db, line);
    if i == |db| {
      CStrOf(line, buf[|line| + 1..]);
      ConcatOne(line);
    } else {
      var r := Render(db[i]);
      RenderHasNoNul(db[i]);
      RenderedLength(db[i]);
      OverwriteLonger(buf, line, r);
      if |line| == |r| {
        ConcatOne(r);
        assert r + line[|r|..] == r;
      } else {
        ConcatOne(line[|r|..]);
        assert [r, line[|r|..]][1..] == [line[|r|..]];
      }
    }
  }

  // ---- save and reload -------------------------------------------------------------------

  /** IMSIs that read_milenage can produce from lines that start with the IMSI. */
  predicate PlainImsi(imsi: string)
  {
    0 < |imsi| < IMSI_SIZE && ' ' !in imsi && '\n' !in imsi && imsi[0] != '#'
  }

  lemma {:induction false} HexHasNoNewline(data: seq<byte>)
    ensures '\n' !in HexPrint(data)
  {
    assert HexVal('\n') == -1;
  }

  lemma RenderedNewline(m: Subscriber)
    requires PlainImsi(m.imsi)
    ensures IndexOf(Render(m), '\n') == |Render(m)| - 1
  {
    HexHasNoNewline(m.ki);
    HexHasNoNewline(m.opc);
    HexHasNoNewline(m.amf);
    HexHasNoNewline(m.sqn);
    var s := Render(m);
    forall j | 0 <= j < |s| - 1
      ensures s[j] != '\n'
    {
      var a := |m.imsi|;
      if j < a {
        assert s[j] == m.imsi[j];
      } else if a < j < a + 33 {
        assert s[j] == HexPrint(m.ki)[j - a - 1];
      } else if a + 33 < j < a + 66 {
        assert s[j] == HexPrint(m.opc)[j - a - 34];
      } else if a + 66 < j < a + 71 {
        assert s[j] == HexPrint(m.amf)[j - a - 67];
      } else if a + 71 < j {
        assert s[j] == HexPrint(m.sqn)[j - a - 72];
      }
    }
    IndexOfIs(s, '\n', |s| - 1);
  }

  /** The fields after the IMSI as they are written. */
  function RenderFields(m: Subscriber): string
  {
    HexPrint(m.ki) + " " + (HexPrint(m.opc) + " " + (HexPrint(m.amf) + " " + HexPrint(m.sqn)))
  }

  lemma ParseRenderedFields(m: Subscriber)
    ensures ParseFields(m.imsi, RenderFields(m)) == Entry(m.(resLen := 0))
  {
    var s5 := HexPrint(m.sqn);
    var s4 := HexPrint(m.amf) + " " + s5;
    var s3 := HexPrint(m.opc) + " " + s4;
    HexFieldPrinted(m.ki, s3);
    HexFieldPrinted(m.opc, s4);
    HexFieldPrinted(m.amf, s5);
    HexFieldPrinted(m.sqn, "");
  }

  lemma RenderSplits(m: Subscriber)
    ensures Render(m) == m.imsi + " " + RenderFields(m) + "\n"
  {
    var a, b, c, d := HexPrint(m.ki), HexPrint(m.opc), HexPrint(m.amf), HexPrint(m.sqn);
    assert c + " " + (d + "\n") == c + " " + d + "\n";
    assert b + " " + (c + " " + (d + "\n")) == b + " " + (c + " " + d) + "\n";
    assert a + " " + (b + " " + (c + " " + (d + "\n"))) == RenderFields(m) + "\n";
    assert m.imsi + " " + (RenderFields(m) + "\n") == m.imsi + " " + RenderFields(m) + "\n";
  }

  /** Reading back a written line gives the subscriber, without its RES length. */
  lemma ParseRendered(m: Subscriber)
    requires PlainImsi(m.imsi)
    ensures ParseLine(Render(m)) == Entry(m.(resLen := 0))
  {
    RenderSplits(m);
    RenderedNewline(m);
    var s := m.imsi + " " + RenderFields(m);
    assert Render(m)[..|s|] == s;
    assert Render(m)[0] == m.imsi[0];
    TokenThenSpace(m.imsi, RenderFields(m));
    ParseRenderedFields(m);
  }

  /** An entry line that starts with its IMSI, as against one indented by spaces. */
  predicate StartsWithImsi(line: string) { line != "" && line[0] != ' ' }

  lemma FieldsKeepImsi(imsi: string, s: string)
    requires ParseFields(imsi, s).Entry?
    ensures ParseFields(imsi, s).sub.imsi == imsi && s != ""
  {
    assert NextToken("") == None;
  }

  function AfterSpace(s: string, e: nat): string { if e < |s| then s[e + 1..] else "" }

  /** A line that starts with its IMSI is parsed by cutting at the first space. */
  lemma LineShape(line: string, s: string, e: nat)
    requires StartsWithImsi(line) && line[0] != '#' && line[0] != '\n'
    requires s == line[..IndexOf(line, '\n')] && e == IndexOf(s, ' ')
    ensures 0 < e <= |s|
    ensures ParseLine(line) == if e >= IMSI_SIZE then Invalid else ParseFields(s[..e], AfterSpace(s, e))
  {
    assert s != "" && s[0] == line[0];
    assert NextToken(s) == Some((s[..e], AfterSpace(s, e)));
  }

  /** The text before the newline of an entry line, cut at its first space. */
  lemma EntryText(line: string, s: string, e: nat)
    requires ParseLine(line).Entry? && StartsWithImsi(line)
    requires s == line[..IndexOf(line, '\n')] && e == IndexOf(s, ' ')
    ensures 0 < e < |s| && e < IMSI_SIZE && line[0] != '#' && s[..e] == ParseLine(line).sub.imsi
  {
    NotSkipped(line);
    LineShape(line, s, e);
    FieldsKeepImsi(s[..e], AfterSpace(s, e));
  }

  lemma NotSkipped(line: string)
    requires ParseLine(line).Entry? && line != ""
    ensures line[0] != '#' && line[0] != '\n'
  {
  }

  lemma EntryImsi(line: string)
    requires ParseLine(line).Entry? && StartsWithImsi(line)
    ensures var sp := IndexOf(line, ' ');
            sp < |line| && sp < IMSI_SIZE && line[..sp] == ParseLine(line).sub.imsi && PlainImsi(line[..sp])
  {
    var nl := IndexOf(line, '\n');
    var s := line[..nl];
    var e := IndexOf(s, ' ');
    EntryText(line, s, e);
    assert line[e] == ' ';
    FirstIndex(line, '\n');
    FirstIndex(s, ' ');
    forall j | 0 <= j < e
      ensures line[j] != ' ' && line[j] != '\n'
    {
      assert line[j] == s[j];
    }
    IndexOfIs(line, ' ', e);
    assert line[..e] == s[..e];
  }

  /** The entry lines of a file, last one first like the list they fill. */
  function EntryLines(lines: seq<string>): seq<string>
  {
    if lines == [] then []
    else
      var front := EntryLines(lines[..|lines| - 1]);
      if ParseLine(lines[|lines| - 1]).Entry? then [lines[|lines| - 1]] + front else front
  }

  /** The entry that reading back the updated version of an entry line gives. */
  function EntryAfter(db: seq<Subscriber>, line: string, m: Subscriber): Subscriber
  {
    var f := FindSubscriber(db, m.imsi);
    if StartsWithImsi(line) && f < |db| then db[f].(resLen := 0) else m
  }

  /** What stays behind when an entry line is rewritten. */
  function Leftover(line: string, imsi: string): string
  {
    var n := RenderLength(imsi);
    if |line| <= n then "" else line[n..]
  }

  /** A line whose rewriting leaves nothing behind that the reader would take for more than a comment. */
  predicate CleanLine(line: string)
  {
    ParseLine(line).Entry? && StartsWithImsi(line) ==>
      ParseLine(Leftover(line, ParseLine(line).sub.imsi)).Skipped?
  }

  predicate AllClean(lines: seq<string>)
  {
    lines == [] || (AllClean(lines[..|lines| - 1]) && CleanLine(lines[|lines| - 1]))
  }

  ghost predicate AllTerminated(lines: seq<string>) { forall k :: 0 <= k < |lines| ==> Terminated(lines[k]) }

  /** A line of exactly five fields with single spaces between them is clean. */
  lemma FiveFieldsClean(line: string)
    requires ParseLine(line).Entry? ==> |line| == RenderLength(ParseLine(line).sub.imsi)
    ensures CleanLine(line)
  {
    assert ParseLine("").Skipped?;
  }

  lemma OwnerOfEntry(db: seq<Subscriber>, line: string)
    requires ParseLine(line).Entry? && FindSubscriber(db, "") == |db|
    ensures OwnerOf(db, line) == if StartsWithImsi(line) then FindSubscriber(db, ParseLine(line).sub.imsi) else |db|
  {
    if StartsWithImsi(line) {
      EntryImsi(line);
    } else if line != "" {
      assert IndexOf(line, ' ') == 0 && line[..0] == "";
    }
  }

  lemma OwnerOfSkipped(db: seq<Subscriber>, line: string)
    requires ParseLine(line).Skipped? && Terminated(line)
    ensures OwnerOf(db, line) == |db|
  {
    if line[0] != '#' {
      assert IndexOf(line, '\n') == 0;
      assert line == "\n";
      assert IndexFrom(line, ' ', 1) == 1;
    }
  }

  /** The new lines of an entry line: its new entry, and what is left of the old line. */
  lemma NewEntryLines(db: seq<Subscriber>, line: string)
    requires ParseLine(line).Entry? && FindSubscriber(db, "") == |db|
    ensures var m := ParseLine(line).sub;
            var ls, left := NewLines(db, line), Leftover(line, m.imsi);
            && 1 <= |ls| <= 2 && ParseLine(ls[0]) == Entry(EntryAfter(db, line, m))
            && (|ls| == 2 ==> ls[1] == left && StartsWithImsi(line))
            && (|ls| == 1 && StartsWithImsi(line) && FindSubscriber(db, m.imsi) < |db| ==> left == "")
  {
    OwnerOfEntry(db, line);
    var i := OwnerOf(db, line);
    if i < |db| {
      EntryImsi(line);
      ParseRendered(db[i]);
      RenderedLength(db[i]);
    }
  }

  lemma ReadSnoc(lines: seq<string>, line: string)
    ensures var r, front := ReadLines(lines + [line]), ReadLines(lines);
            r == if !front.0 then front
                 else match ParseLine(line)
                      case Skipped => front
                      case Invalid => (false, front.1)
                      case Entry(m) => (true, [m] + front.1)
  {
    assert (lines + [line])[..|lines|] == lines;
  }

  /** Reading the new lines of an entry line after those of the lines before it. */
  lemma ReadNewEntry(db: seq<Subscriber>, front: seq<string>, line: string)
    requires ParseLine(line).Entry? && FindSubscriber(db, "") == |db| && ReadLines(front).0
    ensures var r := ReadLines(front + NewLines(db, line));
            var rest := [EntryAfter(db, line, ParseLine(line).sub)] + ReadLines(front).1;
            && (|NewLines(db, line)| == 1 ==> r == (true, rest))
            && (|NewLines(db, line)| == 2 ==>
                  match ParseLine(Leftover(line, ParseLine(line).sub.imsi))
                  case Skipped => r == (true, rest)
                  case Invalid => !r.0
                  case Entry(x) => r == (true, [x] + rest))
  {
    NewEntryLines(db, line);
    var ls, m := NewLines(db, line), EntryAfter(db, line, ParseLine(line).sub);
    if |ls| == 1 {
      ReadSnoc(front, ls[0]);
      assert ls == [ls[0]];
    } else {
      ReadTwo(front, ls[0], ls[1], m);
      assert ls == [ls[0], ls[1]];
    }
  }

  lemma ReadTwo(front: seq<string>, first: string, second: string, m: Subscriber)
    requires ReadLines(front).0 && ParseLine(first) == Entry(m)
    ensures var r, rest := ReadLines(front + [first, second]), [m] + ReadLines(front).1;
            match ParseLine(second)
            case Skipped => r == (true, rest)
            case Invalid => !r.0
            case Entry(x) => r == (true, [x] + rest)
  {
    ReadSnoc(front, first);
    ReadSnoc(front + [first], second);
    assert front + [first] + [second] == front + [first, second];
  }

  lemma NewFileSnoc(db: seq<Subscriber>, lines: seq<string>)
    requires lines != []
    ensures NewFile(db, lines) == NewFile(db, lines[..|lines| - 1]) + NewLines(db, lines[|lines| - 1])
  {
  }

  /** Reading a new line of a comment or blank line changes nothing. */
  lemma ReadNewSkipped(db: seq<Subscriber>, front: seq<string>, line: string)
    requires ParseLine(line).Skipped? && Terminated(line)
    ensures ReadLines(front + NewLines(db, line)) == ReadLines(front)
  {
    OwnerOfSkipped(db, line);
    ReadSnoc(front, line);
  }

  /** Reading back an updated file of clean lines, entry by entry; it stays readable. */
  lemma {:induction false} UpdateThenRead(db: seq<Subscriber>, lines: seq<string>, read: seq<Subscriber>)
    requires ReadLines(lines) == (true, read) && FindSubscriber(db, "") == |db|
    requires AllTerminated(lines) && AllClean(lines)
    ensures |EntryLines(lines)| == |read|
    ensures var r := ReadLines(NewFile(db, lines));
            && r.0 && |r.1| == |read|
            && forall i :: 0 <= i < |read| ==> r.1[i] == EntryAfter(db, EntryLines(lines)[i], read[i])
    decreases |lines|
  {
    if lines != [] {
      var front, line := lines[..|lines| - 1], lines[|lines| - 1];
      NewFileSnoc(db, lines);
      match ParseLine(line)
      case Skipped =>
        UpdateThenRead(db, front, read);
        ReadNewSkipped(db, NewFile(db, front), line);
      case Entry(m) =>
        assert read == [m] + read[1..];
        UpdateThenRead(db, front, read[1..]);
        ReadNewClean(db, NewFile(db, front), line);
        AfterEach(db, EntryLines(front), read[1..], ReadLines(NewFile(db, front)).1, line, m);
    }
  }

  lemma ReadNewClean(db: seq<Subscriber>, front: seq<string>, line: string)
    requires ParseLine(line).Entry? && CleanLine(line) && FindSubscriber(db, "") == |db| && ReadLines(front).0
    ensures ReadLines(front + NewLines(db, line))
            == (true, [EntryAfter(db, line, ParseLine(line).sub)] + ReadLines(front).1)
  {
    NewEntryLines(db, line);
    ReadNewEntry(db, front, line);
  }

  /** The entries after an update follow their lines, one more in front. */
  lemma AfterEach(db: seq<Subscriber>, lines: seq<string>, read: seq<Subscriber>, after: seq<Subscriber>,
                  line: string, m: Subscriber)
    requires |lines| == |read| == |after|
    requires forall i :: 0 <= i < |read| ==> after[i] == EntryAfter(db, lines[i], read[i])
    ensures var lines', read', after' := [line] + lines, [m] + read, [EntryAfter(db, line, m)] + after;
            forall i :: 0 <= i < |read'| ==> after'[i] == EntryAfter(db, lines'[i], read'[i])
  {
  }

  // ---- which files survive ---------------------------------------------------------------

  /** Every entry that is read is also in the list that is saved. */
  ghost predicate Knows(db: seq<Subscriber>, lines: seq<string>)
  {
    forall k :: 0 <= k < |lines| && ParseLine(lines[k]).Entry? ==>
      FindSubscriber(db, ParseLine(lines[k]).sub.imsi) < |db|
  }

  /** The updated file has as many entries as the old one, more, or cannot be read. */
  ghost predicate Survives(db: seq<Subscriber>, lines: seq<string>)
  {
    var r := ReadLines(NewFile(db, lines));
    r.0 && |r.1| == |ReadLines(lines).1|
  }

  /** Once reading failed it stays failed. */
  lemma FailedStays(a: seq<string>, b: seq<string>)
    requires !ReadLines(a).0
    ensures !ReadLines(a + b).0
  {
    assert (a + b)[..|a|] == a;
    ReadStopsAtError(a + b, |a|);
  }

  /**
    A saved file reads back with the same number of entries exactly when every
    entry line is clean: a rewritten line that was longer leaves its end behind.
   */
  lemma {:induction false} SurvivesIffClean(db: seq<Subscriber>, lines: seq<string>)
    requires ReadLines(lines).0 && FindSubscriber(db, "") == |db| && Knows(db, lines)
    requires AllTerminated(lines)
    ensures Survives(db, lines) <==> AllClean(lines)
    ensures var r := ReadLines(NewFile(db, lines)); r.0 ==> |r.1| >= |ReadLines(lines).1|
    decreases |lines|
  {
    if lines != [] {
      var front, line := lines[..|lines| - 1], lines[|lines| - 1];
      var before := NewFile(db, front);
      NewFileSnoc(db, lines);
      SurvivesIffClean(db, front);
      if !ReadLines(before).0 {
        FailedStays(before, NewLines(db, line));
      } else if ParseLine(line).Skipped? {
        ReadNewSkipped(db, before, line);
      } else {
        NewEntryLines(db, line);
        ReadNewEntry(db, before, line);
        assert ParseLine("").Skipped?;
      }
    }
  }

  /** The line of an entry with a RES length behind its five fields. */
  function WithResLen(m: Subscriber, field: string): string { m.imsi + " " + RenderFields(m) + (" " + field + "\n") }

  /** Such a line is an entry with that RES length. */
  lemma ParseWithResLen(m: Subscriber, field: string)
    requires PlainImsi(m.imsi) && field != "" && ' ' !in field && '\n' !in field && ResLenField(field).Some?
    ensures ParseLine(WithResLen(m, field)) == Entry(m.(resLen := ResLenField(field).value))
  {
    var s := m.imsi + " " + FieldsThen(m, " " + field);
    FieldsThenSplits(m, " " + field);
    assert WithResLen(m, field) == s + "\n";
    NoNewlineIn(m, field);
    ParseTerminated(m.imsi, FieldsThen(m, " " + field), s);
    ParseFieldsThen(m, field);
  }

  lemma ParseTerminated(imsi: string, fields: string, s: string)
    requires PlainImsi(imsi) && s == imsi + " " + fields && '\n' !in s
    ensures ParseLine(s + "\n") == ParseFields(imsi, fields)
  {
    var line := s + "\n";
    IndexOfIs(line, '\n', |s|);
    assert line[..|s|] == s;
    TokenThenSpace(imsi, fields);
    assert line[0] == s[0] == imsi[0];
  }

  lemma ParseFieldsThen(m: Subscriber, field: string)
    requires ResLenField(field).Some?
    ensures ParseFields(m.imsi, FieldsThen(m, " " + field)) == Entry(m.(resLen := ResLenField(field).value))
  {
    var s5 := HexPrint(m.sqn) + (" " + field);
    assert s5 == HexPrint(m.sqn) + " " + field;
    var s4 := HexPrint(m.amf) + " " + s5;
    var s3 := HexPrint(m.opc) + " " + s4;
    HexFieldPrinted(m.ki, s3);
    HexFieldPrinted(m.opc, s4);
    HexFieldPrinted(m.amf, s5);
    HexFieldPrinted(m.sqn, field);
  }

  /** The fields after the IMSI with more text behind them. */
  function FieldsThen(m: Subscriber, more: string): string
  {
    HexPrint(m.ki) + " " + (HexPrint(m.opc) + " " + (HexPrint(m.amf) + " " + (HexPrint(m.sqn) + more)))
  }

  lemma FieldsThenSplits(m: Subscriber, more: string)
    ensures FieldsThen(m, more) == RenderFields(m) + more
    ensures m.imsi + " " + FieldsThen(m, more) + "\n" == m.imsi + " " + RenderFields(m) + (more + "\n")
  {
    var a, b, c, d := HexPrint(m.ki), HexPrint(m.opc), HexPrint(m.amf), HexPrint(m.sqn);
    assert c + " " + (d + more) == c + " " + d + more;
    assert b + " " + (c + " " + d + more) == b + " " + (c + " " + d) + more;
    assert a + " " + (b + " " + (c + " " + d) + more) == RenderFields(m) + more;
  }

  lemma NoNewlineIn(m: Subscriber, field: string)
    requires PlainImsi(m.imsi) && '\n' !in field
    ensures '\n' !in m.imsi + " " + FieldsThen(m, " " + field)
  {
    HexHasNoNewline(m.ki);
    HexHasNoNewline(m.opc);
    HexHasNoNewline(m.amf);
    HexHasNoNewline(m.sqn);
  }

  // ---- a sixth field, however it is spaced --------------------------------------------------

  /** What follows Ki, OPc, AMF and SQN. */
  function AfterFields(s: string): Option<string>
  {
    match HexField(s, 16)
    case None => None
    case Some((_, s1)) =>
      match HexField(s1, 16)
      case None => None
      case Some((_, s2)) =>
        match HexField(s2, 2)
        case None => None
        case Some((_, s3)) =>
          match HexField(s3, 6)
          case None => None
          case Some((_, s4)) => Some(s4)
  }

  /** The token after the five fields of a line that starts with its IMSI. */
  function SixthToken(line: string): Option<string>
  {
    var s := line[..IndexOf(line, '\n')];
    match AfterFields(AfterSpace(s, IndexOf(s, ' ')))
    case None => None
    case Some(r) =>
      match NextToken(r)
      case None => None
      case Some((t, _)) => Some(t)
  }

  predicate Inner(c: char) { c == ' ' || HexVal(c) >= 0 }

  /** The first k characters are spaces and hex digits, and `rest` follows them. */
  ghost predicate Fronted(s: string, k: nat, rest: string)
  {
    k <= |s| && s[k..] == rest && forall i :: 0 <= i < k ==> Inner(s[i])
  }

  lemma FrontedTwice(s: string, k: nat, r: string, j: nat, rest: string)
    requires Fronted(s, k, r) && Fronted(r, j, rest)
    ensures Fronted(s, k + j, rest)
  {
    assert s[k + j..] == s[k..][j..];
    forall i | 0 <= i < k + j
      ensures Inner(s[i])
    {
      if i >= k {
        assert s[i] == r[i - k];
      }
    }
  }

  lemma {:induction false} HexChars(t: string, len: nat)
    requires |t| == 2 * len && HexStr2Bin(t, len).Some?
    ensures forall i :: 0 <= i < |t| ==> HexVal(t[i]) >= 0
    decreases len
  {
    if len > 0 {
      HexChars(t[2..], len - 1);
      forall i | 0 <= i < |t|
        ensures HexVal(t[i]) >= 0
      {
        if i >= 2 {
          assert t[i] == t[2..][i - 2];
        }
      }
    }
  }

  /** A token of hex digits, with the spaces around it. */
  lemma {:induction false} TokenFront(s: string, t: string, rest: string)
    requires NextToken(s) == Some((t, rest)) && forall i :: 0 <= i < |t| ==> HexVal(t[i]) >= 0
    ensures Fronted(s, |s| - |rest|, rest)
    decreases |s|
  {
    if s[0] == ' ' {
      TokenFront(s[1..], t, rest);
      FrontedTwice(s, 1, s[1..], |s| - 1 - |rest|, rest);
    } else {
      var e := IndexOf(s, ' ');
      assert s[..e] == t;
      assert forall i :: 0 <= i < e ==> s[i] == t[i];
    }
  }

  /** A hex field takes spaces and digits only, and at least its digits and a space before what follows. */
  lemma FieldFront(s: string, len: nat)
    requires HexField(s, len).Some?
    ensures var rest := HexField(s, len).value.1;
            Fronted(s, |s| - |rest|, rest) && (rest != "" ==> |s| - |rest| >= 2 * len + 1)
  {
    var (t, rest) := NextToken(s).value;
    HexChars(t, len);
    TokenFront(s, t, rest);
    TokenLength(s);
  }

  lemma TwoFieldsFront(s: string, len1: nat, r1: string, len2: nat, r2: string)
    requires HexField(s, len1).Some? && HexField(s, len1).value.1 == r1
    requires HexField(r1, len2).Some? && HexField(r1, len2).value.1 == r2 && r2 != ""
    ensures Fronted(s, |s| - |r2|, r2) && |s| - |r2| >= 2 * len1 + 2 * len2 + 2
  {
    FieldFront(s, len1);
    FieldFront(r1, len2);
    assert NextToken("") == None;
    FrontedTwice(s, |s| - |r1|, r1, |r1| - |r2|, r2);
  }

  lemma FieldsFront(s: string)
    requires AfterFields(s).Some? && AfterFields(s).value != ""
    ensures var rest := AfterFields(s).value; Fronted(s, |s| - |rest|, rest) && |s| - |rest| >= 84
  {
    var s1 := HexField(s, 16).value.1;
    var s2 := HexField(s1, 16).value.1;
    var s3 := HexField(s2, 2).value.1;
    var s4 := HexField(s3, 6).value.1;
    assert NextToken("") == None;
    TwoFieldsFront(s2, 2, s3, 6, s4);
    TwoFieldsFront(s, 16, s1, 16, s2);
    FrontedTwice(s, |s| - |s2|, s2, |s2| - |s4|, s4);
  }

  lemma FirstOfToken(s: string)
    requires NextToken(s).Some?
    ensures s != "" && (s[0] == ' ' || s[0] == NextToken(s).value.0[0])
  {
  }

  /** A text that begins with anything but a comment or a newline is not skipped. */
  lemma NotSkippedText(text: string)
    requires text != "" && text[0] != '#' && text[0] != '\n'
    ensures !ParseLine(text).Skipped?
  {
    assert IndexOf(text, '\n') > 0;
  }

  /** The character at which the end of the old line stays behind. */
  lemma LeftoverStart(fields: string)
    requires AfterFields(fields).Some? && NextToken(AfterFields(fields).value).Some?
    requires NextToken(AfterFields(fields).value).value.0[0] != '#' && '\n' !in fields
    ensures |fields| > 84 && fields[84] != '#' && fields[84] != '\n'
  {
    var rest := AfterFields(fields).value;
    FirstOfToken(rest);
    FieldsFront(fields);
    var k := |fields| - |rest|;
    assert HexVal('#') == -1;
    if k > 84 {
      assert Inner(fields[84]);
    } else {
      assert fields[84] == fields[k..][0] == rest[0];
    }
  }

  /** An entry line with a sixth field that does not begin a comment leaves a text behind, however it is spaced. */
  lemma SixthFieldNotClean(line: string)
    requires Terminated(line) && ParseLine(line).Entry? && StartsWithImsi(line)
    requires SixthToken(line).Some? && SixthToken(line).value[0] != '#'
    ensures !CleanLine(line)
  {
    var s := line[..IndexOf(line, '\n')];
    var e := IndexOf(s, ' ');
    EntryText(line, s, e);
    FirstIndex(line, '\n');
    LeftoverStart(AfterSpace(s, e));
    LeftoverAt(line, s, e);
    NotSkippedText(Leftover(line, s[..e]));
  }

  lemma LeftoverAt(line: string, s: string, e: nat)
    requires e < |s| <= |line| && s == line[..|s|] && |AfterSpace(s, e)| > 84
    ensures var left := Leftover(line, s[..e]); left != "" && left[0] == AfterSpace(s, e)[84]
  {
    var n := RenderLength(s[..e]);
    assert line[n] == s[n] == s[e + 1..][84];
  }

  /** No file with a RES length survives being saved, whatever the spacing and whatever follows it. */
  lemma ResLenDoesNotSurvive(db: seq<Subscriber>, lines: seq<string>, k: nat)
    requires ReadLines(lines).0 && FindSubscriber(db, "") == |db| && Knows(db, lines) && AllTerminated(lines)
    requires k < |lines| && ParseLine(lines[k]).Entry? && StartsWithImsi(lines[k])
    requires SixthToken(lines[k]).Some? && SixthToken(lines[k]).value[0] != '#'
    ensures !Survives(db, lines)
  {
    SurvivesIffClean(db, lines);
    SixthFieldNotClean(lines[k]);
    NotAllClean(lines, k);
  }

  lemma {:induction false} NotAllClean(lines: seq<string>, k: nat)
    requires k < |lines| && !CleanLine(lines[k])
    ensures !AllClean(lines)
    decreases |lines|
  {
    if k < |lines| - 1 {
      NotAllClean(lines[..|lines| - 1], k);
    }
  }

  // ---- the text of the new file --------------------------------------------------------------

  const READ_SIZE: nat := 200

  /** How much of a text one fgets takes: up to a newline, and less than the buffer holds. */
  function FgetsLength(text: string, size: nat): (n: nat)
    requires text != "" && size >= 2
    ensures 1 <= n <= |text|
  {
    var e := IndexOf(text, '\n');
    var n := if e == |text| then e else e + 1;
    if n < size then n else size - 1
  }

  /** The pieces that fgets delivers from a text into a buffer of the given size. */
  function FgetsLines(text: string, size: nat): seq<string>
    requires size >= 2
    decreases |text|
  {
    if text == "" then []
    else
      var n := FgetsLength(text, size);
      [text[..n]] + FgetsLines(text[n..], size)
  }

  /** Complete lines that fit a buffer are delivered one by one. */
  lemma {:induction false} LinesOfConcat(lines: seq<string>, size: nat)
    requires AllTerminated(lines) && size >= 2 && forall k :: 0 <= k < |lines| ==> |lines[k]| < size
    ensures FgetsLines(Concat(lines), size) == lines
    decreases |lines|
  {
    if lines != [] {
      var l, rest := lines[0], lines[1..];
      LinesOfConcat(rest, size);
      var text := Concat(lines);
      assert Terminated(l) && text == l + Concat(rest);
      IndexOfIs(text, '\n', |l| - 1);
      assert FgetsLength(text, size) == |l|;
      assert text[..|l|] == l && text[|l|..] == Concat(rest);
      assert lines == [l] + rest;
    }
  }

  /** What was delivered makes up the text. */
  lemma {:induction false} ConcatOfLines(text: string, size: nat)
    requires size >= 2
    ensures Concat(FgetsLines(text, size)) == text
    decreases |text|
  {
    if text != "" {
      var n := FgetsLength(text, size);
      var first, rest := text[..n], text[n..];
      ConcatOfLines(rest, size);
      var more := FgetsLines(rest, size);
      assert ([first] + more)[1..] == more;
      assert text == first + rest;
    }
  }

  /** What is delivered fits the buffer. */
  lemma {:induction false} LinesFit(text: string, size: nat)
    requires size >= 2 && NUL !in text
    ensures forall k :: 0 <= k < |FgetsLines(text, size)| ==>
              |FgetsLines(text, size)[k]| < size && NUL !in FgetsLines(text, size)[k]
    decreases |text|
  {
    if text != "" {
      var n := FgetsLength(text, size);
      LinesFit(text[n..], size);
      var first, more := text[..n], FgetsLines(text[n..], size);
      var all := [first] + more;
      forall k | 0 <= k < |all|
        ensures |all[k]| < size && NUL !in all[k]
      {
        if k > 0 {
          assert all[k] == more[k - 1];
        }
      }
    }
  }

  /** A field of an entry takes its own length and the space before the next one. */
  lemma {:induction false} TokenLength(s: string)
    requires NextToken(s).Some?
    ensures var (t, rest) := NextToken(s).value; |s| >= |t| + |rest| + (if rest == "" then 0 else 1)
  {
    if s[0] == ' ' {
      TokenLength(s[1..]);
    }
  }

  lemma FieldsLength(imsi: string, s: string)
    requires ParseFields(imsi, s).Entry?
    ensures |s| >= 83
  {
    var s1 := HexField(s, 16).value.1;
    var s2 := HexField(s1, 16).value.1;
    var s3 := HexField(s2, 2).value.1;
    TokenLength(s);
    TokenLength(s1);
    TokenLength(s2);
    TokenLength(s3);
  }

  /** An entry line is at least as long as its rewriting. */
  lemma EntryLength(line: string)
    requires ParseLine(line).Entry? && StartsWithImsi(line) && Terminated(line)
    ensures |line| >= RenderLength(ParseLine(line).sub.imsi)
  {
    var s := line[..IndexOf(line, '\n')];
    var e := IndexOf(s, ' ');
    EntryText(line, s, e);
    LineShape(line, s, e);
    FieldsLength(s[..e], AfterSpace(s, e));
    IndexOfIs(line, '\n', |line| - 1);
  }

  lemma {:induction false} NoInvalidLine(lines: seq<string>, k: nat)
    requires ReadLines(lines).0 && k < |lines|
    ensures !ParseLine(lines[k]).Invalid?
    decreases |lines|
  {
    if k < |lines| - 1 {
      NoInvalidLine(lines[..|lines| - 1], k);
    }
  }

  /** A line that can be saved: its owner's line is no longer than it is. */
  ghost predicate RoomFor(db: seq<Subscriber>, line: string)
  {
    var i := OwnerOf(db, line);
    i < |db| ==> RenderLength(db[i].imsi) <= |line|
  }

  lemma RoomForLine(db: seq<Subscriber>, line: string)
    requires !ParseLine(line).Invalid? && Terminated(line) && FindSubscriber(db, "") == |db|
    ensures RoomFor(db, line)
  {
    if ParseLine(line).Skipped? {
      OwnerOfSkipped(db, line);
    } else {
      OwnerOfEntry(db, line);
      if StartsWithImsi(line) {
        EntryLength(line);
      }
    }
  }

  lemma {:induction false} FlatMapConcat(f: string -> seq<string>, a: seq<string>, b: seq<string>)
    ensures FlatMap(f, a + b) == FlatMap(f, a) + FlatMap(f, b)
    decreases |b|
  {
    if b == [] {
      assert a + b == a && FlatMap(f, a) + [] == FlatMap(f, a);
    } else {
      var n := |b| - 1;
      var all, front, last := a + b, b[..n], f(b[n]);
      FlatMapConcat(f, a, front);
      assert all[..|all| - 1] == a + front && all[|all| - 1] == b[n];
      assert FlatMap(f, a) + FlatMap(f, front) + last == FlatMap(f, a) + (FlatMap(f, front) + last);
    }
  }

  lemma FlatMapOne(f: string -> seq<string>, line: string)
    ensures FlatMap(f, [line]) == f(line)
  {
    assert [line][..0] == [] && [] + f(line) == f(line);
  }

  lemma NewFileCons(db: seq<Subscriber>, line: string, rest: seq<string>)
    ensures NewFile(db, [line] + rest) == NewLines(db, line) + NewFile(db, rest)
  {
    FlatMapConcat(LinesFor(db), [line], rest);
    FlatMapOne(LinesFor(db), line);
  }

  /** What is printed is the new file, whatever the buffer held at first. */
  lemma {:induction false} PrintedFile(db: seq<Subscriber>, buf: Buffer, lines: seq<string>)
    requires Renders(db) && forall k :: 0 <= k < |lines| ==> Fits(lines[k])
    requires forall k :: 0 <= k < |lines| ==> RoomFor(db, lines[k])
    ensures Concat(PrintLines(db, buf, lines)) == Concat(NewFile(db, lines))
    decreases |lines|
  {
    if lines != [] {
      var line, rest := lines[0], lines[1..];
      var b := BufferFor(db, buf, line);
      PrintedFile(db, b, rest);
      assert RoomFor(db, line);
      PrintedIsNew(db, buf, line);
      assert lines == [line] + rest;
      NewFileCons(db, line, rest);
      ConcatTwo(NewLines(db, line), NewFile(db, rest));
      PrintCons(db, buf, lines);
    }
  }

  lemma PrintCons(db: seq<Subscriber>, buf: Buffer, lines: seq<string>)
    requires Renders(db) && lines != [] && forall k :: 0 <= k < |lines| ==> Fits(lines[k])
    ensures var b := BufferFor(db, buf, lines[0]);
            Concat(PrintLines(db, buf, lines)) == CStr(b) + Concat(PrintLines(db, b, lines[1..]))
  {
    var b := BufferFor(db, buf, lines[0]);
    var more := PrintLines(db, b, lines[1..]);
    assert ([CStr(b)] + more)[1..] == more;
  }

  /** All lines fit the reader's buffer. */
  ghost predicate AllShort(lines: seq<string>) { forall k :: 0 <= k < |lines| ==> |lines[k]| < READ_SIZE }

  lemma NewLinesTerminated(db: seq<Subscriber>, line: string)
    requires Terminated(line) && |line| < READ_SIZE
    requires OwnerOf(db, line) < |db| ==> PlainImsi(db[OwnerOf(db, line)].imsi)
    ensures AllTerminated(NewLines(db, line)) && AllShort(NewLines(db, line))
  {
    var i := OwnerOf(db, line);
    if i < |db| {
      var r := Render(db[i]);
      RenderedNewline(db[i]);
      RenderedLength(db[i]);
      FirstIndex(r, '\n');
      assert Terminated(r);
      if |line| > |r| {
        assert Terminated(line[|r|..]);
      }
    }
  }

  lemma {:induction false} NewFileTerminated(db: seq<Subscriber>, lines: seq<string>)
    requires AllTerminated(lines) && AllShort(lines)
    requires forall k :: 0 <= k < |lines| && OwnerOf(db, lines[k]) < |db| ==> PlainImsi(db[OwnerOf(db, lines[k])].imsi)
    ensures AllTerminated(NewFile(db, lines)) && AllShort(NewFile(db, lines))
    decreases |lines|
  {
    if lines != [] {
      NewFileTerminated(db, lines[..|lines| - 1]);
      NewLinesTerminated(db, lines[|lines| - 1]);
    }
  }

  lemma OwnerIsPlain(db: seq<Subscriber>, line: string)
    requires !ParseLine(line).Invalid? && Terminated(line) && FindSubscriber(db, "") == |db| && OwnerOf(db, line) < |db|
    ensures PlainImsi(db[OwnerOf(db, line)].imsi)
  {
    if ParseLine(line).Skipped? {
      OwnerOfSkipped(db, line);
    } else {
      OwnerOfEntry(db, line);
      EntryImsi(line);
    }
  }

  /** What the updater prints for a readable file is read as the lines of the new file. */
  lemma SavedTextReads(db: seq<Subscriber>, buf: Buffer, lines: seq<string>)
    requires Renders(db) && FindSubscriber(db, "") == |db| && ReadLines(lines).0
    requires AllTerminated(lines) && AllShort(lines) && forall k :: 0 <= k < |lines| ==> Fits(lines[k])
    ensures FgetsLines(Concat(PrintLines(db, buf, lines)), READ_SIZE) == NewFile(db, lines)
  {
    forall k | 0 <= k < |lines|
      ensures RoomFor(db, lines[k])
      ensures OwnerOf(db, lines[k]) < |db| ==> PlainImsi(db[OwnerOf(db, lines[k])].imsi)
    {
      NoInvalidLine(lines, k);
      RoomForLine(db, lines[k]);
      if OwnerOf(db, lines[k]) < |db| {
        OwnerIsPlain(db, lines[k]);
      }
    }
    PrintedFile(db, buf, lines);
    NewFileTerminated(db, lines);
    LinesOfConcat(NewFile(db, lines), READ_SIZE);
  }

  // ---- reload ----------------------------------------------------------------------------------

  lemma {:induction false} ReadImsis(lines: seq<string>)
    ensures FindSubscriber(ReadLines(lines).1, "") == |ReadLines(lines).1|
    decreases |lines|
  {
    if lines != [] {
      ReadImsis(lines[..|lines| - 1]);
      var line := lines[|lines| - 1];
      if ParseLine(line).Entry? {
        EntryHasImsi(line);
      }
    }
  }

  lemma EntryHasImsi(line: string)
    requires ParseLine(line).Entry?
    ensures ParseLine(line).sub.imsi != ""
  {
    var t := NextToken(line[..IndexOf(line, '\n')]).value;
    FieldsKeepImsi(t.0, t.1);
  }

  /**
    Saving any list with the identities of the one read, and reloading: every
    lookup finds the same subscriber with the same Ki, OPc and AMF. It has the
    latest SQN exactly when the line it came from starts with the IMSI or the
    SQN has not changed since it was read. A rewritten line loses its RES length.
   */
  lemma ReloadLookups(lines: seq<string>, read: seq<Subscriber>, db: seq<Subscriber>, imsi: string)
    requires ReadLines(lines) == (true, read) && SameIdentities(read, db)
    requires AllTerminated(lines) && AllClean(lines)
    ensures ReadLines(NewFile(db, lines)).0
    ensures var after := ReadLines(NewFile(db, lines)).1;
            var i := FindSubscriber(db, imsi);
            && |EntryLines(lines)| == |after| == |db|
            && FindSubscriber(after, imsi) == i
            && (i < |db| ==>
                  && after[i].ki == db[i].ki && after[i].opc == db[i].opc && after[i].amf == db[i].amf
                  && (StartsWithImsi(EntryLines(lines)[i]) ==> after[i].resLen == 0)
                  && (after[i].sqn == db[i].sqn <==> StartsWithImsi(EntryLines(lines)[i]) || db[i].sqn == read[i].sqn))
  {
    ReadImsis(lines);
    SameIdentitiesFind(read, db, "");
    UpdateThenRead(db, lines, read);
    var after := ReadLines(NewFile(db, lines)).1;
    forall j | 0 <= j < |after|
      ensures after[j].imsi == read[j].imsi
    {
    }
    var i := FindSubscriber(db, imsi);
    FoundAt(after, imsi, i);
  }

  // ---- from text to text -----------------------------------------------------------------------

  lemma {:induction false} TokenChars(s: string, c: char)
    requires NextToken(s).Some? && c in NextToken(s).value.0
    ensures c in s
  {
    if s[0] == ' ' {
      TokenChars(s[1..], c);
    }
  }

  lemma EntryRenders(line: string)
    requires ParseLine(line).Entry? && NUL !in line
    ensures var imsi := ParseLine(line).sub.imsi; |imsi| < IMSI_SIZE && NUL !in imsi
  {
    var s := line[..IndexOf(line, '\n')];
    var t := NextToken(s).value;
    FieldsKeepImsi(t.0, t.1);
    if NUL in t.0 {
      TokenChars(s, NUL);
    }
  }

  /** Whatever is read from a text can be rendered into the line buffer. */
  lemma {:induction false} ReadRenders(lines: seq<string>)
    requires forall k :: 0 <= k < |lines| ==> NUL !in lines[k]
    ensures Renders(ReadLines(lines).1)
    decreases |lines|
  {
    if lines != [] {
      ReadRenders(lines[..|lines| - 1]);
      var line := lines[|lines| - 1];
      if ParseLine(line).Entry? {
        EntryRenders(line);
      }
    }
  }

  lemma SameRenders(a: seq<Subscriber>, b: seq<Subscriber>)
    requires SameIdentities(a, b) && Renders(a)
    ensures Renders(b)
  {
    forall i | 0 <= i < |b|
      ensures |b[i].imsi| < IMSI_SIZE && NUL !in b[i].imsi
    {
      assert b[i] == a[i].(sqn := b[i].sqn);
    }
  }

  /** A list and a file that update_milenage_file can be called with. */
  ghost predicate CanSave(db: seq<Subscriber>, text: string)
  {
    Renders(db) && forall k :: 0 <= k < |FgetsLines(text, BUF_SIZE)| ==> Fits(FgetsLines(text, BUF_SIZE)[k])
  }

  lemma TextCanSave(db: seq<Subscriber>, text: string)
    requires Renders(db) && NUL !in text
    ensures CanSave(db, text)
  {
    LinesFit(text, BUF_SIZE);
  }

  /** cleanup: the text of the file, rewritten only when asked to and when an SQN changed. */
  ghost function TextAfterExit(update: bool, st: Hlr, buf: Buffer, text: string): string
    requires CanSave(st.subs, text)
  {
    if update && st.changed then Concat(PrintLines(st.subs, buf, FgetsLines(text, BUF_SIZE))) else text
  }

  /** What the reader makes of a file text. */
  function ReadText(text: string): (bool, seq<Subscriber>) { ReadLines(FgetsLines(text, READ_SIZE)) }

  /** A file of complete, clean lines whose entries are not indented. */
  ghost predicate WellLaidOut(text: string)
  {
    var lines := FgetsLines(text, READ_SIZE);
    && AllTerminated(lines) && AllClean(lines)
    && forall i :: 0 <= i < |EntryLines(lines)| ==> StartsWithImsi(EntryLines(lines)[i])
  }

  /** The updater sees the same lines as the reader, and the reader sees the lines the updater means. */
  lemma SavedText(db: seq<Subscriber>, buf: Buffer, text: string)
    requires CanSave(db, text) && FindSubscriber(db, "") == |db| && ReadText(text).0 && NUL !in text
    requires AllTerminated(FgetsLines(text, READ_SIZE))
    ensures FgetsLines(Concat(PrintLines(db, buf, FgetsLines(text, BUF_SIZE))), READ_SIZE)
            == NewFile(db, FgetsLines(text, READ_SIZE))
  {
    var lines := FgetsLines(text, READ_SIZE);
    ConcatOfLines(text, READ_SIZE);
    LinesFit(text, READ_SIZE);
    LinesOfConcat(lines, BUF_SIZE);
    assert FgetsLines(text, BUF_SIZE) == lines;
    SavedTextReads(db, buf, lines);
  }

  /**
    From text to text: load any well laid out file, run any commands, exit with -u,
    whatever the line buffer held, and load what was written. Every IMSI finds the
    same Ki, OPc, AMF and the latest SQN, also when IMSIs repeat in the file.
   */
  lemma SaveReloadRoundTrip(cfg: Config, text: string, st: Hlr, reqs: seq<Request>, buf: Buffer, imsi: string)
    requires cfg.Valid() && st.Valid() && !st.changed
    requires NUL !in text && WellLaidOut(text) && ReadText(text) == (true, st.subs)
    ensures CanSave(Run(cfg, st, reqs).subs, text)
    ensures var end := Run(cfg, st, reqs);
            var (ok, after) := ReadText(TextAfterExit(true, end, buf, text));
            var i := FindSubscriber(end.subs, imsi);
            && ok && |after| == |end.subs| && FindSubscriber(after, imsi) == i
            && (i < |after| ==> after[i] == end.subs[i].(resLen := if end.changed then 0 else end.subs[i].resLen))
  {
    var lines, end := FgetsLines(text, READ_SIZE), Run(cfg, st, reqs);
    RunFollowsHistory(cfg, st, reqs);
    LinesFit(text, READ_SIZE);
    ReadRenders(lines);
    SameRenders(st.subs, end.subs);
    TextCanSave(end.subs, text);
    if end.changed {
      ReadImsis(lines);
      SameIdentitiesFind(st.subs, end.subs, "");
      SavedText(end.subs, buf, text);
      ReloadLookups(lines, st.subs, end.subs, imsi);
    }
  }

  // ---- an indented line ---------------------------------------------------------------------------

  /** An entry indented by one space is read like any other. */
  lemma ParseIndented(m: Subscriber)
    requires PlainImsi(m.imsi)
    ensures ParseLine(" " + Render(m)) == Entry(m.(resLen := 0))
  {
    RenderSplits(m);
    RenderedNewline(m);
    var r, s := Render(m), m.imsi + " " + RenderFields(m);
    var line := " " + r;
    FirstIndex(r, '\n');
    IndexOfIs(line, '\n', |r|);
    assert line[..|r|] == " " + s;
    assert (" " + s)[1..] == s;
    TokenThenSpace(m.imsi, RenderFields(m));
    ParseRenderedFields(m);
  }

  /** It is never rewritten, so the SQN that was read comes back, whatever it has become since. */
  lemma IndentedLineKeepsOldSqn(m: Subscriber, sqn: Sqn6)
    requires PlainImsi(m.imsi) && sqn != m.sqn
    ensures var lines, now := [" " + Render(m)], [m.(resLen := 0, sqn := sqn)];
            && ReadLines(lines) == (true, [m.(resLen := 0)])
            && NewFile(now, lines) == lines
            && ReadLines(NewFile(now, lines)).1[0].sqn != now[0].sqn
  {
    var line, now := " " + Render(m), [m.(resLen := 0, sqn := sqn)];
    ParseIndented(m);
    ReadSnoc([], line);
    var read := m.(resLen := 0);
    assert [] + [line] == [line] && [read] + [] == [read];
    assert ReadLines([line]) == (true, [read]);
    assert IndexOf(line, ' ') == 0 && line[..0] == "";
    FlatMapOne(LinesFor(now), line);
    assert OwnerOf(now, line) == 1;
  }
}
