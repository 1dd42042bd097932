/**
  The NAI realm table of a BSS: an array of fixed-size entries that realloc may
  move, where each entry keeps pointers into its own text buffer. Addresses are
  integers, the array is a base address plus its entries, 0 is the NULL pointer.
 */
module NaiRealm {
  import opened Bits
  import opened CStrings
  import opened EapMethods

  const MAX_NAI_REALMS: nat := 10
  const MAX_NAI_REALMLEN: nat := 255

  /** sizeof(struct hostapd_nai_realm_data) and the offset of its text buffer. */
  const ENTRY_SIZE: nat := 400
  const BUF_OFFSET: nat := 1
  const BUF_SIZE: nat := MAX_NAI_REALMLEN + 1

  const NUL: char := '\0'

  /** An array entry: its buffer and its realm pointers are what memory holds. */
  datatype Entry = Entry(encoding: byte, buf: seq<char>, ptr: seq<int>, eaps: seq<Eap>)

  /** What one nai_realm line says. */
  datatype Parsed = Parsed(encoding: byte, realms: seq<string>, eaps: seq<Eap>)

  // ---- the realm list of a line -------------------------------------------------------

  /** The realms from pos on; a separator at the very end starts no further realm. */
  function SplitFrom(text: string, pos: nat): seq<string>
    requires pos <= |text|
    decreases |text| - pos
  {
    if pos == |text| then []
    else
      var e := IndexFrom(text, ';', pos);
      [text[pos..e]] + (if e == |text| then [] else SplitFrom(text, e + 1))
  }

  function SplitRealms(text: string): seq<string> { SplitFrom(text, 0) }

  /** The text without one separator at its very end. */
  function WithoutTrailing(s: string): string
  {
    if s != "" && s[|s| - 1] == ';' then s[..|s| - 1] else s
  }

  /** Joining the realms from pos on gives the text from pos on. */
  ghost predicate Glued(text: string, pos: nat)
    requires pos <= |text|
  {
    Join(SplitFrom(text, pos), ';') == WithoutTrailing(text[pos..])
  }

  lemma {:induction false} JoinFrom(text: string, pos: nat)
    requires pos <= |text|
    ensures Glued(text, pos)
    decreases |text| - pos
  {
    var e := IndexFrom(text, ';', pos);
    if pos == |text| {
      NothingLeft(text, pos);
    } else if e == |text| {
      NotTrailing(text, pos);
    } else if e + 1 == |text| {
      OnlyTrailing(text, pos, e);
    } else {
      JoinFrom(text, e + 1);
      JoinMiddle(text, pos, e);
    }
  }

  lemma NothingLeft(text: string, pos: nat)
    requires pos == |text|
    ensures Glued(text, pos)
  {
    assert text[pos..] == [];
  }

  lemma OnlyTrailing(text: string, pos: nat, e: nat)
    requires pos < |text| && e == IndexFrom(text, ';', pos) && e + 1 == |text|
    ensures Glued(text, pos)
  {
    var piece := text[pos..e];
    assert [piece] + [] == [piece];
    assert SplitFrom(text, pos) == [piece];
    CutAt(text, pos, e);
  }

  lemma JoinMiddle(text: string, pos: nat, e: nat)
    requires pos < |text| && e == IndexFrom(text, ';', pos) && e + 1 < |text|
    requires Glued(text, e + 1)
    ensures Glued(text, pos)
  {
    var piece, later := text[pos..e], SplitFrom(text, e + 1);
    SplitMore(text, pos, e);
    JoinCons(piece, later, ';');
    CutAt(text, pos, e);
    TrailingCons(piece + [';'], text[e + 1..]);
  }

  lemma SplitMore(text: string, pos: nat, e: nat)
    requires pos < |text| && e == IndexFrom(text, ';', pos) && e + 1 < |text|
    ensures SplitFrom(text, pos) == [text[pos..e]] + SplitFrom(text, e + 1)
    ensures SplitFrom(text, e + 1) != []
  {
  }

  lemma NotTrailing(text: string, pos: nat)
    requires pos < |text| && IndexFrom(text, ';', pos) == |text|
    ensures Glued(text, pos)
  {
    FirstFrom(text, ';', pos);
    var s := text[pos..];
    assert text[pos..|text|] == s && [s] + [] == [s];
    assert s[|s| - 1] == text[|text| - 1] != ';';
  }

  lemma CutAt(text: string, pos: nat, e: nat)
    requires pos <= e < |text| && text[e] == ';'
    ensures text[pos..] == text[pos..e] + [';'] + text[e + 1..]
  {
  }

  lemma TrailingCons(front: string, rest: string)
    requires rest != ""
    ensures WithoutTrailing(front + rest) == front + WithoutTrailing(rest)
  {
    assert (front + rest)[..|front + rest| - 1] == front + rest[..|rest| - 1];
  }

  /**
    Joining the realms of a list gives the list back, exactly, unless it has a
    separator at its end, which is then the only character that is lost.
   */
  lemma JoinRealms(text: string)
    ensures Join(SplitRealms(text), ';') == WithoutTrailing(text)
    ensures Join(SplitRealms(text), ';') == text <==> !(text != "" && text[|text| - 1] == ';')
  {
    JoinFrom(text, 0);
    assert text[0..] == text;
  }

  /** The entry for a realm list, unless it has too many realms or bad methods. */
  function Finish(encoding: byte, text: string, eaps: Option<seq<Eap>>): Option<Parsed>
  {
    if eaps.None? || |SplitRealms(text)| > MAX_NAI_REALMS then None
    else Some(Parsed(encoding, SplitRealms(text), eaps.value))
  }

  /** What a line says: encoding, realm list and EAP methods; None when it is refused. */
  function ParseLine(atoi: NumberReader, eaps: EapReader, line: string): Option<Parsed>
  {
    var c := IndexOf(line, ',');
    if c == |line| then None
    else
      var e := IndexFrom(line, ',', c + 1);
      if e - (c + 1) > MAX_NAI_REALMLEN then None
      else Finish(ToByte(atoi(line)), line[c + 1..e], eaps(line, e + 1))
  }

  // ---- the spelling of a line ------------------------------------------------------------

  /** The documented form: encoding, realms, and the EAP methods if there are any. */
  function SpellLine(num: NumberWriter, p: Parsed): string
  {
    num(p.encoding) + [','] + Join(p.realms, ';') + SpellTail(num, p.eaps)
  }

  function SpellTail(num: NumberWriter, eaps: seq<Eap>): string
  {
    if eaps == [] then "" else [','] + SpellEaps(num, eaps)
  }

  /** Values that one line can hold. */
  ghost predicate FitsOneLine(num: NumberWriter, p: Parsed)
  {
    && |p.realms| <= MAX_NAI_REALMS && |Join(p.realms, ';')| <= MAX_NAI_REALMLEN
    && Joinable(p.realms) && FitsLine(num, p.eaps)
  }

  /** Realms without separators, the last one not empty. */
  predicate Joinable(realms: seq<string>)
  {
    realms == []
    || (';' !in realms[0] && ',' !in realms[0] && if |realms| == 1 then realms[0] != "" else Joinable(realms[1..]))
  }

  /** The first realm of a joined list, and what follows it. */
  lemma FirstRealm(text: string, pos: nat, r: string, rest: seq<string>) returns (e: nat)
    requires pos <= |text| && ';' !in r
    requires text[pos..] == if rest == [] then r else r + [';'] + Join(rest, ';')
    ensures pos <= e <= |text| && text[pos..e] == r && IndexFrom(text, ';', pos) == e
    ensures rest == [] ==> e == |text|
    ensures rest != [] ==> e < |text| && text[e + 1..] == Join(rest, ';')
  {
    var w := text[pos..];
    e := pos + |r|;
    assert text[pos..e] == w[..|r|] == r;
    if rest != [] {
      assert text[e] == w[|r|] == ';';
      assert text[e + 1..] == w[|r| + 1..] == Join(rest, ';');
    }
    RealmEnds(text, pos, e, r);
  }

  lemma SplitUnfold(text: string, pos: nat, e: nat)
    requires pos < |text| && e == IndexFrom(text, ';', pos)
    ensures SplitFrom(text, pos) == [text[pos..e]] + if e == |text| then [] else SplitFrom(text, e + 1)
  {
  }

  lemma {:induction false} SplitOfJoin(text: string, pos: nat, realms: seq<string>)
    requires pos <= |text| && text[pos..] == Join(realms, ';') && Joinable(realms)
    ensures SplitFrom(text, pos) == realms
    decreases |realms|
  {
    if realms != [] {
      var r, rest := realms[0], realms[1..];
      assert realms == [r] + rest;
      JoinUnfold(r, rest);
      var e := FirstRealm(text, pos, r, rest);
      if |realms| == 1 {
        assert rest == [];
        LastRealmSplit(text, pos, r);
      } else {
        SplitOfJoin(text, e + 1, rest);
        FirstRealmSplit(text, pos, e, r, rest);
      }
    }
  }

  lemma JoinUnfold(r: string, rest: seq<string>)
    ensures Join([r] + rest, ';') == if rest == [] then r else r + [';'] + Join(rest, ';')
  {
    if rest == [] {
      assert [r] + rest == [r];
    } else {
      JoinCons(r, rest, ';');
    }
  }

  lemma LastRealmSplit(text: string, pos: nat, r: string)
    requires r != "" && pos <= |text| && text[pos..] == r && IndexFrom(text, ';', pos) == |text|
    ensures SplitFrom(text, pos) == [r]
  {
    SplitUnfold(text, pos, |text|);
    assert text[pos..|text|] == r && [r] + [] == [r];
  }

  lemma FirstRealmSplit(text: string, pos: nat, e: nat, r: string, rest: seq<string>)
    requires pos <= e < |text| && text[pos..e] == r && IndexFrom(text, ';', pos) == e
    requires SplitFrom(text, e + 1) == rest
    ensures SplitFrom(text, pos) == [r] + rest
  {
    SplitUnfold(text, pos, e);
  }

  lemma RealmEnds(text: string, pos: nat, e: nat, r: string)
    requires pos <= e <= |text| && text[pos..e] == r && ';' !in r && (e < |text| ==> text[e] == ';')
    ensures IndexFrom(text, ';', pos) == e
  {
    forall i | pos <= i < e
      ensures text[i] != ';'
    {
      assert text[i] == r[i - pos];
    }
    SkipTo(text, pos, e, ';');
  }

  lemma {:induction false} JoinPlain(realms: seq<string>)
    requires Joinable(realms)
    ensures ',' !in Join(realms, ';')
    decreases |realms|
  {
    if |realms| > 1 {
      JoinPlain(realms[1..]);
    }
  }

  /** Where the two commas of a spelled line are. */
  lemma SpelledCommas(line: string, a: string, text: string, tail: string)
    requires line == a + [','] + text + tail && ',' !in a && ',' !in text && (tail != "" ==> tail[0] == ',')
    ensures var c, e := |a|, |a| + 1 + |text|;
            IndexOf(line, ',') == c < |line| && IndexFrom(line, ',', c + 1) == e <= |line| && line[c + 1..e] == text
  {
    var c, e := |a|, |a| + 1 + |text|;
    IndexOfIs(line, ',', c);
    forall i | c + 1 <= i < e
      ensures line[i] != ','
    {
      assert line[i] == text[i - c - 1];
    }
    assert tail != "" ==> line[e] == tail[0];
    SkipTo(line, c + 1, e, ',');
  }

  /** What follows the realm list in a spelled line is read as its EAP methods. */
  lemma SpelledTailRead(atoi: NumberReader, num: NumberWriter, read: EapReader, line: string, e: nat, eaps: seq<Eap>)
    requires Inverse(atoi, num) && IsEapReader(atoi, read) && FitsLine(num, eaps) && e <= |line|
    requires line[e..] == SpellTail(num, eaps)
    ensures read(line, e + 1) == Some(eaps)
  {
    assert read(line, e + 1) == EapsFrom(atoi, line, e + 1);
    if eaps != [] {
      assert line[e + 1..] == line[e..][1..] == SpellEaps(num, eaps);
      SpelledEapsRead(atoi, num, line, e + 1, eaps);
    }
  }

  /** A line cut into its parts is read part by part. */
  lemma PartsRead(atoi: NumberReader, read: EapReader, line: string, a: string, p: Parsed, tail: string)
    requires var text := Join(p.realms, ';');
             && line == a + [','] + text + tail && |text| <= MAX_NAI_REALMLEN && |p.realms| <= MAX_NAI_REALMS
             && ',' !in a && ',' !in text && (tail != "" ==> tail[0] == ',')
             && SplitRealms(text) == p.realms && read(line, |a| + 1 + |text| + 1) == Some(p.eaps)
    requires ToByte(atoi(line)) == p.encoding
    ensures ParseLine(atoi, read, line) == Some(p)
  {
    var text := Join(p.realms, ';');
    SpelledCommas(line, a, text, tail);
    LineIs(atoi, read, line, |a|, |a| + 1 + |text|);
  }

  lemma EncodingRead(atoi: NumberReader, num: NumberWriter, n: byte, rest: string)
    requires Inverse(atoi, num) && rest != "" && rest[0] == ','
    ensures ToByte(atoi(num(n) + rest)) == n
  {
    assert IsMark(rest[0]);
  }

  /** Every value that fits one line is read from its spelling: encoding, realms and EAP methods. */
  lemma SpelledLineRead(atoi: NumberReader, num: NumberWriter, read: EapReader, p: Parsed)
    requires Inverse(atoi, num) && IsEapReader(atoi, read) && FitsOneLine(num, p)
    ensures ParseLine(atoi, read, SpellLine(num, p)) == Some(p)
  {
    var a, text, tail := num(p.encoding), Join(p.realms, ';'), SpellTail(num, p.eaps);
    var line := SpellLine(num, p);
    NoCommaInNumber(atoi, num, p.encoding);
    JoinPlain(p.realms);
    assert line == a + ([','] + text + tail);
    EncodingRead(atoi, num, p.encoding, [','] + text + tail);
    var e := |a| + 1 + |text|;
    assert line[e..] == tail;
    SpelledTailRead(atoi, num, read, line, e, p.eaps);
    assert text[0..] == text;
    SplitOfJoin(text, 0, p.realms);
    PartsRead(atoi, read, line, a, p, tail);
  }

  // ---- text in a buffer ------------------------------------------------------------------

  /** The C string that starts at an offset of a buffer. */
  function CStr(buf: seq<char>, off: nat): string
    requires off <= |buf|
  {
    buf[off..off + IndexOf(buf[off..], NUL)]
  }

  /** The buffer holds t and its terminating NUL at an offset. */
  predicate Holds(buf: seq<char>, off: nat, t: string)
  {
    off + |t| < |buf| && buf[off..off + |t|] == t && buf[off + |t|] == NUL && NUL !in t
  }

  lemma HoldsSpells(buf: seq<char>, off: nat, t: string)
    requires Holds(buf, off, t)
    ensures CStr(buf, off) == t
  {
    assert forall k :: 0 <= k < |t| ==> buf[off..][k] == t[k];
    IndexOfIs(buf[off..], NUL, |t|);
  }

  /** The address of entry i's buffer in an array at the given base. */
  function BufAddr(base: int, i: nat): int { base + i * ENTRY_SIZE + BUF_OFFSET }

  predicate PointsInto(p: int, addr: int) { p == 0 || addr <= p < addr + BUF_SIZE }

  /** Entry i has a terminated buffer and only pointers into that buffer. */
  ghost predicate EntryOk(base: int, i: nat, r: Entry)
  {
    && |r.buf| == BUF_SIZE && r.buf[BUF_SIZE - 1] == NUL
    && |r.ptr| == MAX_NAI_REALMS
    && forall j :: 0 <= j < MAX_NAI_REALMS ==> PointsInto(r.ptr[j], BufAddr(base, i))
  }

  /** The texts at offsets j, j+1, ... of a buffer, up to the first missing one. */
  ghost function TextsFrom(buf: seq<char>, offs: seq<int>, j: nat): seq<string>
    requires j <= |offs| && forall k :: 0 <= k < |offs| ==> offs[k] < |buf|
    decreases |offs| - j
  {
    if j == |offs| || offs[j] < 0 then [] else [CStr(buf, offs[j])] + TextsFrom(buf, offs, j + 1)
  }

  function OffsetIn(p: int, addr: int): int { if p == 0 then -1 else p - addr }

  function OffsetsIn(ptr: seq<int>, addr: int): (offs: seq<int>)
    ensures |offs| == |ptr|
  {
    seq(|ptr|, k requires 0 <= k < |ptr| => OffsetIn(ptr[k], addr))
  }

  /** The texts that pointers j, j+1, ... spell, up to the first NULL. */
  ghost function SpelledFrom(r: Entry, addr: int, j: nat): seq<string>
    requires |r.buf| == BUF_SIZE && |r.ptr| == MAX_NAI_REALMS && j <= MAX_NAI_REALMS
    requires forall k :: 0 <= k < MAX_NAI_REALMS ==> PointsInto(r.ptr[k], addr)
  {
    var offs := OffsetsIn(r.ptr, addr);
    assert forall k :: 0 <= k < |offs| ==> PointsInto(r.ptr[k], addr) && offs[k] < BUF_SIZE;
    TextsFrom(r.buf, offs, j)
  }

  /** What the memory of entry i says, read through its pointers. */
  ghost function Meaning(base: int, i: nat, r: Entry): Parsed
    requires EntryOk(base, i, r)
  {
    Parsed(r.encoding, SpelledFrom(r, BufAddr(base, i), 0), r.eaps)
  }

  /** The same entry with the same offsets in it, at another address. */
  ghost predicate Moved(r: Entry, addr: int, r': Entry, addr': int)
  {
    && r' == r.(ptr := r'.ptr) && |r.ptr| == |r'.ptr|
    && forall j :: 0 <= j < |r.ptr| ==>
         if r.ptr[j] == 0 then r'.ptr[j] == 0 else r'.ptr[j] == r.ptr[j] - addr + addr'
  }

  lemma MovedPointsIn(r: Entry, addr: int, r': Entry, addr': int)
    requires addr > 0 && addr' > 0 && Moved(r, addr, r', addr') && |r.ptr| == MAX_NAI_REALMS
    requires forall k :: 0 <= k < MAX_NAI_REALMS ==> PointsInto(r.ptr[k], addr)
    ensures forall k :: 0 <= k < MAX_NAI_REALMS ==> PointsInto(r'.ptr[k], addr')
  {
    forall k | 0 <= k < MAX_NAI_REALMS
      ensures PointsInto(r'.ptr[k], addr')
    {
      assert PointsInto(r.ptr[k], addr);
    }
  }

  lemma MovedSpellsSame(r: Entry, addr: int, r': Entry, addr': int, j: nat)
    requires addr > 0 && addr' > 0 && Moved(r, addr, r', addr')
    requires |r.buf| == BUF_SIZE && |r.ptr| == MAX_NAI_REALMS && j <= MAX_NAI_REALMS
    requires forall k :: 0 <= k < MAX_NAI_REALMS ==> PointsInto(r.ptr[k], addr)
    requires forall k :: 0 <= k < MAX_NAI_REALMS ==> PointsInto(r'.ptr[k], addr')
    ensures SpelledFrom(r', addr', j) == SpelledFrom(r, addr, j)
  {
    SameOffsets(r.ptr, addr, r'.ptr, addr');
  }

  lemma SameOffsets(ptr: seq<int>, addr: int, ptr': seq<int>, addr': int)
    requires addr > 0 && addr' > 0 && |ptr| == |ptr'|
    requires forall j :: 0 <= j < |ptr| ==> PointsInto(ptr[j], addr)
    requires forall j :: 0 <= j < |ptr| ==> if ptr[j] == 0 then ptr'[j] == 0 else ptr'[j] == ptr[j] - addr + addr'
    ensures OffsetsIn(ptr', addr') == OffsetsIn(ptr, addr)
  {
    forall j | 0 <= j < |ptr|
      ensures OffsetIn(ptr'[j], addr') == OffsetIn(ptr[j], addr)
    {
      assert PointsInto(ptr[j], addr);
    }
  }

  // ---- the steps of parse_nai_realm ----------------------------------------------------------

  /** The offsets of an entry's pointers, -1 for NULL. */
  method OffsetsOf(r: Entry, addr: int) returns (offs: seq<int>)
    requires addr > 0 && |r.ptr| == MAX_NAI_REALMS
    requires forall k :: 0 <= k < MAX_NAI_REALMS ==> PointsInto(r.ptr[k], addr)
    ensures OffsetsFor(r, addr, offs)
  {
    offs := [];
    for j := 0 to MAX_NAI_REALMS
      invariant |offs| == j
      invariant forall k :: 0 <= k < j ==> offs[k] == if r.ptr[k] == 0 then -1 else r.ptr[k] - addr
    {
      offs := offs + [if r.ptr[j] == 0 then -1 else r.ptr[j] - addr];
    }
  }

  /** The entry's pointers recomputed from offsets and the buffer's new address. */
  method Patch(r: Entry, offs: seq<int>, addr: int) returns (r': Entry)
    requires |offs| == |r.ptr| == MAX_NAI_REALMS
    ensures r' == r.(ptr := r'.ptr) && |r'.ptr| == MAX_NAI_REALMS
    ensures forall j :: 0 <= j < MAX_NAI_REALMS ==> r'.ptr[j] == if offs[j] >= 0 then addr + offs[j] else 0
  {
    r' := r;
    for j := 0 to MAX_NAI_REALMS
      invariant r' == r.(ptr := r'.ptr) && |r'.ptr| == MAX_NAI_REALMS
      invariant forall k :: 0 <= k < j ==> r'.ptr[k] == if offs[k] >= 0 then addr + offs[k] else 0
    {
      r' := r'.(ptr := r'.ptr[j := if offs[j] >= 0 then addr + offs[j] else 0]);
    }
  }

  /** Realm k is stored where pointer k points. */
  ghost predicate Stored(r: Entry, addr: int, done: seq<string>, limit: nat)
  {
    && |r.ptr| == MAX_NAI_REALMS && |done| <= MAX_NAI_REALMS
    && (forall k :: 0 <= k < |done| ==>
          r.ptr[k] >= addr && Holds(r.buf, r.ptr[k] - addr, done[k]) && r.ptr[k] - addr + |done[k]| < limit)
    && (forall k :: |done| <= k < MAX_NAI_REALMS ==> r.ptr[k] == 0)
  }

  lemma StoredPointsIn(r: Entry, addr: int, done: seq<string>, limit: nat)
    requires addr > 0 && |r.buf| == BUF_SIZE && Stored(r, addr, done, limit)
    ensures forall k :: 0 <= k < MAX_NAI_REALMS ==> PointsInto(r.ptr[k], addr)
  {
    forall k | 0 <= k < MAX_NAI_REALMS
      ensures PointsInto(r.ptr[k], addr)
    {
      if k < |done| {
        assert Holds(r.buf, r.ptr[k] - addr, done[k]);
      }
    }
  }

  /** The offsets lead to these texts, and those after them lead nowhere. */
  ghost predicate LeadTo(buf: seq<char>, offs: seq<int>, done: seq<string>)
  {
    && |done| <= |offs| && (forall k :: 0 <= k < |offs| ==> offs[k] < |buf|)
    && (forall k :: 0 <= k < |done| ==> offs[k] >= 0 && Holds(buf, offs[k], done[k]))
    && (forall k :: |done| <= k < |offs| ==> offs[k] < 0)
  }

  lemma {:induction false} TextsAre(buf: seq<char>, offs: seq<int>, done: seq<string>, j: nat)
    requires LeadTo(buf, offs, done) && j <= |done|
    ensures TextsFrom(buf, offs, j) == done[j..]
    decreases |done| - j
  {
    if j == |done| {
      assert done[j..] == [];
    } else {
      TextsAre(buf, offs, done, j + 1);
      HoldsSpells(buf, offs[j], done[j]);
      assert done[j..] == [done[j]] + done[j + 1..];
    }
  }

  lemma StoredSpells(r: Entry, addr: int, done: seq<string>, limit: nat)
    requires addr > 0 && |r.buf| == BUF_SIZE && Stored(r, addr, done, limit)
    requires forall k :: 0 <= k < MAX_NAI_REALMS ==> PointsInto(r.ptr[k], addr)
    ensures SpelledFrom(r, addr, 0) == done
  {
    var offs := OffsetsIn(r.ptr, addr);
    forall k | 0 <= k < |offs|
      ensures offs[k] < |r.buf|
      ensures k < |done| ==> offs[k] >= 0 && Holds(r.buf, offs[k], done[k])
      ensures k >= |done| ==> offs[k] < 0
    {
      assert PointsInto(r.ptr[k], addr) && offs[k] == OffsetIn(r.ptr[k], addr);
    }
    TextsAre(r.buf, offs, done, 0);
    assert done[0..] == done;
  }

  /** From an offset on the buffer still holds the copied text, then NULs. */
  ghost predicate Tail(buf: seq<char>, from: nat, text: string)
  {
    && |buf| == BUF_SIZE && from <= |text| < BUF_SIZE && NUL !in text
    && (forall k :: from <= k < |text| ==> buf[k] == text[k])
    && (forall k :: |text| <= k < BUF_SIZE ==> buf[k] == NUL)
  }

  /** What the search for the next separator in the buffer finds. */
  lemma {:induction false} FindSeparator(buf: seq<char>, pos: nat, text: string)
    requires Tail(buf, pos, text)
    ensures var e := IndexFrom(text, ';', pos);
            IndexFrom(buf, ';', pos) == if e == |text| then BUF_SIZE else e
    decreases |text| - pos
  {
    if pos == |text| {
      NoSeparator(buf, pos);
    } else if text[pos] != ';' {
      FindSeparator(buf, pos + 1, text);
    }
  }

  lemma {:induction false} NoSeparator(buf: seq<char>, pos: nat)
    requires pos <= |buf| && forall k :: pos <= k < |buf| ==> buf[k] == NUL
    ensures IndexFrom(buf, ';', pos) == |buf|
    decreases |buf| - pos
  {
    if pos < |buf| {
      NoSeparator(buf, pos + 1);
    }
  }

  /** Pointing slot |done| at a string the buffer holds stores one more realm. */
  lemma StoreNext(r: Entry, addr: int, done: seq<string>, rpos: nat, t: string, limit: nat)
    requires addr > 0 && |done| < MAX_NAI_REALMS && Stored(r, addr, done, rpos)
    requires Holds(r.buf, rpos, t) && rpos + |t| < limit
    ensures Stored(r.(ptr := r.ptr[|done| := addr + rpos]), addr, done + [t], limit)
  {
  }

  /** Writing a NUL at or after the limit keeps what is stored before it. */
  lemma StoredKeeps(r: Entry, addr: int, done: seq<string>, rpos: nat, q: nat)
    requires Stored(r, addr, done, rpos) && rpos <= q < |r.buf|
    ensures Stored(r.(buf := r.buf[q := NUL]), addr, done, rpos)
  {
    var buf2 := r.buf[q := NUL];
    forall k | 0 <= k < |done|
      ensures r.ptr[k] >= addr && Holds(buf2, r.ptr[k] - addr, done[k])
    {
      var off := r.ptr[k] - addr;
      assert Holds(r.buf, off, done[k]) && off + |done[k]| < rpos;
      assert buf2[off..off + |done[k]|] == r.buf[off..off + |done[k]|];
    }
  }

  /** The text up to e is a terminated string once a NUL is at e. */
  lemma HoldsPiece(buf: seq<char>, pos: nat, text: string, e: nat)
    requires Tail(buf, pos, text) && pos <= e <= |text|
    ensures Holds(buf[e := NUL], pos, text[pos..e])
  {
    assert buf[e := NUL][pos..e] == text[pos..e];
  }

  /** The last realm is terminated already. */
  lemma CutLast(r: Entry, addr: int, rpos: nat, text: string, done: seq<string>)
    requires addr > 0 && rpos < |text| && |done| < MAX_NAI_REALMS
    requires Tail(r.buf, rpos, text) && Stored(r, addr, done, rpos)
    ensures Stored(r.(ptr := r.ptr[|done| := addr + rpos]), addr, done + [text[rpos..|text|]], BUF_SIZE)
    ensures |r.buf| == BUF_SIZE && r.buf[BUF_SIZE - 1] == NUL
  {
    HoldsPiece(r.buf, rpos, text, |text|);
    assert r.buf[|text| := NUL] == r.buf;
    StoreNext(r, addr, done, rpos, text[rpos..|text|], BUF_SIZE);
  }

  /** Another realm is terminated where its separator was. */
  lemma CutMore(r: Entry, addr: int, rpos: nat, q: nat, text: string, done: seq<string>)
    requires addr > 0 && rpos <= q < |text| && |done| < MAX_NAI_REALMS
    requires Tail(r.buf, rpos, text) && Stored(r, addr, done, rpos)
    ensures var r' := r.(ptr := r.ptr[|done| := addr + rpos], buf := r.buf[q := NUL]);
            && Stored(r', addr, done + [text[rpos..q]], q + 1) && Tail(r'.buf, q + 1, text)
            && |r'.buf| == BUF_SIZE && r'.buf[BUF_SIZE - 1] == NUL
  {
    HoldsPiece(r.buf, rpos, text, q);
    StoredKeeps(r, addr, done, rpos, q);
    StoreNext(r.(buf := r.buf[q := NUL]), addr, done, rpos, text[rpos..q], q + 1);
  }

  /** One round of the loop: point slot i at the next realm and terminate it. */
  method CutOne(r: Entry, addr: int, i: nat, rpos: nat, ghost text: string, ghost done: seq<string>)
    returns (r': Entry, next: nat, ghost done': seq<string>)
    requires addr > 0 && rpos < |text| && i == |done| < MAX_NAI_REALMS
    requires Tail(r.buf, rpos, text) && Stored(r, addr, done, rpos)
    ensures r' == r.(buf := r'.buf, ptr := r'.ptr) && |r'.buf| == BUF_SIZE && r'.buf[BUF_SIZE - 1] == NUL
    ensures |done'| == i + 1 && next > rpos
    ensures next > BUF_SIZE ==>
              done + SplitFrom(text, rpos) == done' && Stored(r', addr, done', BUF_SIZE)
    ensures next <= BUF_SIZE ==>
              && Tail(r'.buf, next, text) && Stored(r', addr, done', next)
              && done + SplitFrom(text, rpos) == done' + SplitFrom(text, next)
  {
    FindSeparator(r.buf, rpos, text);
    SplitStep(text, rpos, done);
    ghost var e := IndexFrom(text, ';', rpos);
    done' := done + [text[rpos..e]];
    r' := r.(ptr := r.ptr[i := addr + rpos]);
    var q := IndexFrom(r.buf, ';', rpos);
    if q == BUF_SIZE {
      CutLast(r, addr, rpos, text, done);
    } else {
      CutMore(r, addr, rpos, q, text, done);
      r' := r'.(buf := r'.buf[q := NUL]);
    }
    next := q + 1;
  }

  /** The loop that cuts the list into NUL-terminated realms, in place. */
  method CutRealms(entry: Entry, addr: int, ghost text: string) returns (ok: bool, r: Entry)
    requires addr > 0 && Tail(entry.buf, 0, text) && Stored(entry, addr, [], 0)
    ensures ok <==> |SplitRealms(text)| <= MAX_NAI_REALMS
    ensures r == entry.(buf := r.buf, ptr := r.ptr) && |r.buf| == BUF_SIZE && r.buf[BUF_SIZE - 1] == NUL
    ensures ok ==> Stored(r, addr, SplitRealms(text), BUF_SIZE)
  {
    r := entry;
    var rpos, i := 0, 0;
    ghost var done: seq<string> := [];
    while r.buf[rpos] != NUL
      invariant r == entry.(buf := r.buf, ptr := r.ptr)
      invariant i == |done| <= MAX_NAI_REALMS
      invariant Tail(r.buf, rpos, text) && Stored(r, addr, done, rpos)
      invariant SplitRealms(text) == done + SplitFrom(text, rpos)
      decreases BUF_SIZE - rpos
    {
      MoreText(r.buf, rpos, text);
      if i >= MAX_NAI_REALMS {
        SplitStep(text, rpos, done);
        return false, r;
      }
      var next;
      r, next, done := CutOne(r, addr, i, rpos, text, done);
      if next > BUF_SIZE {
        return true, r;
      }
      rpos, i := next, i + 1;
    }
    TextEnds(r.buf, rpos, text, done);
    StoredWiden(r, addr, done, rpos);
    ok := true;
  }

  lemma MoreText(buf: seq<char>, pos: nat, text: string)
    requires Tail(buf, pos, text) && buf[pos] != NUL
    ensures pos < |text|
  {
  }

  lemma TextEnds(buf: seq<char>, pos: nat, text: string, done: seq<string>)
    requires Tail(buf, pos, text) && buf[pos] == NUL
    ensures done + SplitFrom(text, pos) == done && buf[BUF_SIZE - 1] == NUL
  {
    assert done + [] == done;
  }

  lemma StoredWiden(r: Entry, addr: int, done: seq<string>, limit: nat)
    requires Stored(r, addr, done, limit) && limit <= BUF_SIZE
    ensures Stored(r, addr, done, BUF_SIZE)
  {
  }

  lemma SplitStep(text: string, pos: nat, done: seq<string>)
    requires pos < |text|
    ensures var e := IndexFrom(text, ';', pos);
            done + SplitFrom(text, pos)
            == if e == |text| then done + [text[pos..e]] else done + [text[pos..e]] + SplitFrom(text, e + 1)
    ensures |SplitFrom(text, pos)| >= 1
  {
  }

  // ---- the table ---------------------------------------------------------------------------

  ghost predicate AllOk(base: int, entries: seq<Entry>)
  {
    (entries != [] ==> base > 0) && forall i :: 0 <= i < |entries| ==> EntryOk(base, i, entries[i])
  }

  /** What the table says, read through all pointers of all counted entries. */
  ghost function Table(base: int, entries: seq<Entry>): (t: seq<Parsed>)
    requires AllOk(base, entries)
    ensures |t| == |entries|
  {
    if entries == [] then []
    else
      var n := |entries| - 1;
      FrontOk(base, entries);
      Table(base, entries[..n]) + [Meaning(base, n, entries[n])]
  }

  lemma FrontOk(base: int, entries: seq<Entry>)
    requires AllOk(base, entries) && entries != []
    ensures AllOk(base, entries[..|entries| - 1]) && EntryOk(base, |entries| - 1, entries[|entries| - 1])
  {
  }

  lemma AllOkSnoc(base: int, entries: seq<Entry>, r: Entry)
    requires base > 0 && AllOk(base, entries) && EntryOk(base, |entries|, r)
    ensures AllOk(base, entries + [r])
  {
    var longer := entries + [r];
    forall i | 0 <= i < |longer|
      ensures EntryOk(base, i, longer[i])
    {
      assert i < |entries| ==> EntryOk(base, i, entries[i]);
    }
  }

  lemma TableSnoc(base: int, entries: seq<Entry>, r: Entry)
    requires base > 0 && AllOk(base, entries) && EntryOk(base, |entries|, r)
    ensures AllOk(base, entries + [r])
    ensures Table(base, entries + [r]) == Table(base, entries) + [Meaning(base, |entries|, r)]
  {
    AllOkSnoc(base, entries, r);
    assert (entries + [r])[..|entries|] == entries;
  }

  /** Entry by entry the same meaning. */
  ghost predicate SameAt(base: int, entries: seq<Entry>, base': int, moved: seq<Entry>, i: nat)
    requires i < |entries| == |moved|
  {
    EntryOk(base, i, entries[i]) && EntryOk(base', i, moved[i])
    && Meaning(base', i, moved[i]) == Meaning(base, i, entries[i])
  }

  lemma {:induction false} TableSame(base: int, entries: seq<Entry>, base': int, moved: seq<Entry>)
    requires AllOk(base, entries) && AllOk(base', moved) && |entries| == |moved|
    requires forall i :: 0 <= i < |entries| ==> SameAt(base, entries, base', moved, i)
    ensures Table(base', moved) == Table(base, entries)
    decreases |entries|
  {
    if entries != [] {
      var n := |entries| - 1;
      FrontOk(base, entries);
      FrontOk(base', moved);
      var e, m := entries[..n], moved[..n];
      forall i | 0 <= i < n
        ensures SameAt(base, e, base', m, i)
      {
        assert SameAt(base, entries, base', moved, i);
      }
      TableSame(base, e, base', m);
      assert SameAt(base, entries, base', moved, n);
    }
  }

  /** Copying an entry to another address and patching it keeps its meaning. */
  lemma MovedMeansSame(base: int, base': int, i: nat, r: Entry, r': Entry)
    requires base > 0 && base' > 0 && EntryOk(base, i, r)
    requires Moved(r, BufAddr(base, i), r', BufAddr(base', i))
    ensures EntryOk(base', i, r') && Meaning(base', i, r') == Meaning(base, i, r)
  {
    MovedPointsIn(r, BufAddr(base, i), r', BufAddr(base', i));
    MovedSpellsSame(r, BufAddr(base, i), r', BufAddr(base', i), 0);
  }

  /** The offset loop, the move by realloc and the patch loop. */
  method Relocate(base: int, entries: seq<Entry>, base': int) returns (moved: seq<Entry>)
    requires AllOk(base, entries) && base' > 0
    ensures AllOk(base', moved) && Table(base', moved) == Table(base, entries)
  {
    var offsets: seq<seq<int>> := [];
    for i := 0 to |entries|
      invariant |offsets| == i
      invariant forall k :: 0 <= k < i ==> OffsetsFor(entries[k], BufAddr(base, k), offsets[k])
    {
      assert EntryOk(base, i, entries[i]);
      var offs := OffsetsOf(entries[i], BufAddr(base, i));
      offsets := offsets + [offs];
    }
    moved := entries;
    for i := 0 to |entries|
      invariant |moved| == |entries|
      invariant forall k :: i <= k < |entries| ==> moved[k] == entries[k]
      invariant forall k :: 0 <= k < i ==> Moved(entries[k], BufAddr(base, k), moved[k], BufAddr(base', k))
    {
      assert EntryOk(base, i, entries[i]) && OffsetsFor(entries[i], BufAddr(base, i), offsets[i]);
      var r := Patch(moved[i], offsets[i], BufAddr(base', i));
      PatchedIsMoved(entries[i], BufAddr(base, i), offsets[i], r, BufAddr(base', i));
      moved := moved[i := r];
    }
    forall i | 0 <= i < |entries|
      ensures EntryOk(base', i, moved[i]) && SameAt(base, entries, base', moved, i)
    {
      assert EntryOk(base, i, entries[i]);
      MovedMeansSame(base, base', i, entries[i], moved[i]);
    }
    TableSame(base, entries, base', moved);
  }

  ghost predicate OffsetsFor(r: Entry, addr: int, offs: seq<int>)
  {
    && |offs| == |r.ptr| == MAX_NAI_REALMS
    && forall j :: 0 <= j < MAX_NAI_REALMS ==> offs[j] == if r.ptr[j] == 0 then -1 else r.ptr[j] - addr
  }

  lemma PatchedIsMoved(r: Entry, addr: int, offs: seq<int>, r': Entry, addr': int)
    requires OffsetsFor(r, addr, offs) && r' == r.(ptr := r'.ptr) && |r'.ptr| == MAX_NAI_REALMS
    requires forall k :: 0 <= k < MAX_NAI_REALMS ==> PointsInto(r.ptr[k], addr)
    requires forall j :: 0 <= j < MAX_NAI_REALMS ==> r'.ptr[j] == if offs[j] >= 0 then addr' + offs[j] else 0
    ensures Moved(r, addr, r', addr')
  {
    forall j | 0 <= j < MAX_NAI_REALMS
      ensures if r.ptr[j] == 0 then r'.ptr[j] == 0 else r'.ptr[j] == r.ptr[j] - addr + addr'
    {
      assert PointsInto(r.ptr[j], addr);
    }
  }

  /** A zeroed entry with the realm list copied to the start of its buffer. */
  function Fresh(encoding: byte, text: string): (r: Entry)
    requires |text| <= MAX_NAI_REALMLEN
  {
    Entry(encoding, text + seq(BUF_SIZE - |text|, _ => NUL), seq(MAX_NAI_REALMS, _ => 0), [])
  }

  lemma FreshHoldsText(encoding: byte, text: string, addr: int)
    requires |text| <= MAX_NAI_REALMLEN && NUL !in text
    ensures Tail(Fresh(encoding, text).buf, 0, text) && Stored(Fresh(encoding, text), addr, [], 0)
  {
  }

  /** Filling in the entry behind the counted ones from a line. */
  method FillEntry(atoi: NumberReader, line: string, base: int, i: nat, ghost read: EapReader)
    returns (r: Option<Entry>)
    requires base > 0 && NUL !in line && IsEapReader(atoi, read)
    ensures r.Some? <==> ParseLine(atoi, read, line).Some?
    ensures r.Some? ==> EntryOk(base, i, r.value) && Meaning(base, i, r.value) == ParseLine(atoi, read, line).value
  {
    var c := IndexOf(line, ',');
    if c == |line| {
      return None;
    }
    var end := IndexFrom(line, ',', c + 1);
    if end - (c + 1) > MAX_NAI_REALMLEN {
      return None;
    }
    var eaps := ReadEaps(atoi, line, end + 1, read);
    var text := line[c + 1..end];
    LineIs(atoi, read, line, c, end);
    if eaps.None? {
      return None;
    }
    assert NUL !in text;
    r := FillRealms(ToByte(atoi(line)), text, eaps.value, base, i);
  }

  lemma LineIs(atoi: NumberReader, read: EapReader, line: string, c: nat, e: nat)
    requires c == IndexOf(line, ',') < |line| && e == IndexFrom(line, ',', c + 1) && e - (c + 1) <= MAX_NAI_REALMLEN
    ensures ParseLine(atoi, read, line) == Finish(ToByte(atoi(line)), line[c + 1..e], read(line, e + 1))
  {
  }

  /** The entry with the realm list copied into its buffer and cut there. */
  method FillRealms(encoding: byte, text: string, eaps: seq<Eap>, base: int, i: nat) returns (r: Option<Entry>)
    requires base > 0 && |text| <= MAX_NAI_REALMLEN && NUL !in text
    ensures r.Some? <==> Finish(encoding, text, Some(eaps)).Some?
    ensures r.Some? ==>
              EntryOk(base, i, r.value) && Meaning(base, i, r.value) == Finish(encoding, text, Some(eaps)).value
  {
    var addr := BufAddr(base, i);
    FreshHoldsText(encoding, text, addr);
    var entry := Fresh(encoding, text).(eaps := eaps);
    var ok, cut := CutRealms(entry, addr, text);
    if !ok {
      return None;
    }
    StoredPointsIn(cut, addr, SplitRealms(text), BUF_SIZE);
    StoredSpells(cut, addr, SplitRealms(text), BUF_SIZE);
    return Some(cut);
  }

  /** The nai_realm part of a BSS configuration. */
  class RealmConfig {
    var base: int
    var entries: seq<Entry>

    ghost predicate Valid()
      reads this
    {
      AllOk(base, entries)
    }

    constructor ()
      ensures Valid() && entries == []
    {
      base, entries := 0, [];
    }

    /**
      parse_nai_realm; realloc moves the array to an arbitrary address or fails.
      Successful or not, every counted entry keeps its meaning, and a successful
      call adds exactly what its line says.
     */
    method ParseNaiRealm(call: Call) returns (ok: bool)
      requires Valid() && CallOk(call)
      modifies this
      ensures Valid()
      ensures ok <==> Added(call).Some?
      ensures base == if call.realloc.Some? then call.realloc.value else old(base)
      ensures Table(base, entries) == old(Table(base, entries)) + (if ok then [Added(call).value] else [])
    {
      if call.realloc.None? {
        return false;
      }
      var moved := Relocate(base, entries, call.realloc.value);
      base, entries := call.realloc.value, moved;
      EapsOfReads(call.atoi);
      var r := FillEntry(call.atoi, call.line, base, |entries|, EapsOf(call.atoi));
      if r.None? {
        return false;
      }
      TableSnoc(base, entries, r.value);
      entries := entries + [r.value];
      return true;
    }

    /** Any sequence of nai_realm lines with any outcomes of realloc. */
    method ParseAll(calls: seq<Call>)
      requires Valid() && forall k :: 0 <= k < |calls| ==> CallOk(calls[k])
      modifies this
      ensures Valid()
      ensures Table(base, entries) == old(Table(base, entries)) + Accepted(calls)
    {
      ghost var before := Table(base, entries);
      for k := 0 to |calls|
        invariant Valid()
        invariant Table(base, entries) == before + Accepted(calls[..k])
      {
        var ok := ParseNaiRealm(calls[k]);
        assert calls[..k + 1][..k] == calls[..k];
      }
      assert calls[..|calls|] == calls;
    }
  }

  /** One call: its line, the library's atoi, and where realloc moves the array. */
  datatype Call = Call(line: string, atoi: NumberReader, realloc: Option<int>)

  predicate CallOk(c: Call) { NUL !in c.line && (c.realloc.Some? ==> c.realloc.value > 0) }

  /** What a call adds to the table, if anything. */
  function Added(c: Call): Option<Parsed>
  {
    if c.realloc.None? then None else ParseLine(c.atoi, EapsOf(c.atoi), c.line)
  }

  /** What the accepted lines of a sequence of calls say, in order. */
  function Accepted(calls: seq<Call>): seq<Parsed>
  {
    if calls == [] then []
    else
      var last := Added(calls[|calls| - 1]);
      Accepted(calls[..|calls| - 1]) + (if last.Some? then [last.value] else [])
  }
}
