/**
  VHT MCS masks: each command line chunk names a number of streams and a range
  or a list of MCS indexes; the masks of the streams collect all of them.
 */
module VhtRates {
  import opened Bits
  import opened CStrings

  const NSS_MAX: nat := 8

  /**
    What sscanf reads from a chunk: a range (with '-'), a list of 1 to 10 numbers, or
    too little. With Unset it read nothing, and the code goes on all the same.
   */
  datatype Chunk = Unreadable | Unset | Range(nss: nat, start: nat, end: nat) | Listing(nss: nat, tab: seq<nat>)

  predicate Valid(c: Chunk)
  {
    match c
    case Unreadable => false
    case Unset => false
    case Range(nss, start, end) => 1 <= nss <= 8 && start <= end <= 9
    case Listing(nss, tab) => 1 <= nss <= 8 && tab != [] && forall i :: 0 <= i < |tab| ==> tab[i] <= 9
  }

  /** The chunk names MCS m for n + 1 streams. */
  predicate Covers(c: Chunk, n: nat, m: nat)
  {
    match c
    case Unreadable => false
    case Unset => false
    case Range(nss, start, end) => nss == n + 1 && start <= m <= end
    case Listing(nss, tab) => nss == n + 1 && m in tab
  }

  // ---- the text of a chunk ---------------------------------------------------------------

  /** What %u reads at a position: the number and where it ends. */
  type Scanner = (string, nat) -> Option<(nat, nat)>

  /** A number that is followed by a character of the format. */
  function ScanThen(scan: Scanner, s: string, pos: nat, c: char): Option<(nat, nat)>
  {
    match scan(s, pos)
    case None => None
    case Some((v, e)) => if e < |s| && s[e] == c then Some((v, e + 1)) else None
  }

  /** Up to `left` numbers with commas between them. */
  function ScanNumbers(scan: Scanner, s: string, pos: nat, left: nat): (r: seq<nat>)
    decreases left
  {
    if left == 0 then []
    else
      match scan(s, pos)
      case None => []
      case Some((v, e)) => [v] + if e < |s| && s[e] == ',' then ScanNumbers(scan, s, e + 1, left - 1) else []
  }

  /** NSS:MCS_START-MCS_END. */
  function ScanRange(scan: Scanner, s: string): Chunk
  {
    match ScanThen(scan, s, 0, ':')
    case None => Unreadable
    case Some((nss, p)) =>
      match ScanThen(scan, s, p, '-')
      case None => Unreadable
      case Some((start, q)) =>
        match scan(s, q)
        case None => Unreadable
        case Some((end, _)) => Range(nss, start, end)
  }

  /** The value of EOF. */
  const EOF: int := -1

  /** sscanf of NSS:MCSx,MCSy,...: its result, and the numbers it has set. It meets the end at once in a blank text. */
  function SscanfList(scan: Scanner, s: string): (int, nat, seq<nat>)
  {
    if SkipSpaces(s, 0) == |s| then (EOF, 0, [])
    else
      match scan(s, 0)
      case None => (0, 0, [])
      case Some((nss, p)) =>
        if p < |s| && s[p] == ':' then
          var tab := ScanNumbers(scan, s, p + 1, 10);
          (1 + |tab|, nss, tab)
        else (1, nss, [])
  }

  /** An int stored in an unsigned int. */
  function ToUnsigned(v: int): nat { v % 0x1_0000_0000 }

  /** NSS:MCSx,MCSy,... with at most ten indexes; the count is unsigned, so EOF is a large one. */
  function ScanList(scan: Scanner, s: string): Chunk
  {
    var (count, nss, tab) := SscanfList(scan, s);
    if ToUnsigned(count) < 2 then Unreadable else if count == EOF then Unset else Listing(nss, tab)
  }

  /** A '-' anywhere decides for the range format. */
  function ChunkOf(scan: Scanner, arg: string): Chunk
  {
    if IndexOf(arg, '-') < |arg| then ScanRange(scan, arg) else ScanList(scan, arg)
  }

  function Chunks(scan: Scanner, argv: seq<string>): (r: seq<Chunk>)
    ensures |r| == |argv|
  {
    seq(|argv|, i requires 0 <= i < |argv| => ChunkOf(scan, argv[i]))
  }

  function Digit(n: nat): (c: char)
    requires n <= 9
    ensures IsDigitIn(c, 10) && HexVal(c) == n
  {
    ('0' as int + n) as char
  }

  function SpellList(tab: seq<nat>): string
    requires forall i :: 0 <= i < |tab| ==> tab[i] <= 9
  {
    if tab == [] then "" else if |tab| == 1 then [Digit(tab[0])] else [Digit(tab[0]), ','] + SpellList(tab[1..])
  }

  /** The documented spelling of a chunk. */
  function SpellChunk(c: Chunk): string
    requires Valid(c)
  {
    match c
    case Range(nss, start, end) => [Digit(nss), ':', Digit(start), '-', Digit(end)]
    case Listing(nss, tab) => [Digit(nss), ':'] + SpellList(tab)
  }

  /** A digit that no other digit follows. */
  predicate LoneDigit(s: string, pos: nat)
  {
    pos < |s| && IsDigitIn(s[pos], 10) && (pos + 1 < |s| ==> !IsDigitIn(s[pos + 1], 10))
  }

  /** A scanner that reads single digits as their values. */
  ghost predicate ReadsDigits(scan: Scanner)
  {
    forall s: string, pos: nat {:trigger LoneDigit(s, pos)} ::
      LoneDigit(s, pos) ==> scan(s, pos) == Some((HexVal(s[pos]), pos + 1))
  }

  lemma DigitAt(scan: Scanner, s: string, pos: nat, n: nat)
    requires ReadsDigits(scan) && n <= 9 && pos < |s| && s[pos] == Digit(n)
    requires pos + 1 < |s| ==> s[pos + 1] == ':' || s[pos + 1] == '-' || s[pos + 1] == ','
    ensures scan(s, pos) == Some((n, pos + 1))
  {
    assert LoneDigit(s, pos);
  }

  lemma {:induction false} ScanSpelledList(scan: Scanner, s: string, pos: nat, tab: seq<nat>, left: nat)
    requires ReadsDigits(scan) && forall i :: 0 <= i < |tab| ==> tab[i] <= 9
    requires tab != [] && |tab| <= left && pos <= |s| && s[pos..] == SpellList(tab)
    ensures ScanNumbers(scan, s, pos, left) == tab
    decreases |tab|
  {
    var t := s[pos..];
    assert s[pos] == t[0] == Digit(tab[0]);
    if |tab| == 1 {
      DigitAt(scan, s, pos, tab[0]);
      assert tab == [tab[0]];
    } else {
      assert s[pos + 1] == t[1] == ',';
      DigitAt(scan, s, pos, tab[0]);
      assert s[pos + 2..] == t[2..] == SpellList(tab[1..]);
      ScanSpelledList(scan, s, pos + 2, tab[1..], left - 1);
      assert tab == [tab[0]] + tab[1..];
    }
  }

  lemma {:induction false} NoDashInList(tab: seq<nat>)
    requires forall i :: 0 <= i < |tab| ==> tab[i] <= 9
    ensures '-' !in SpellList(tab)
  {
    if tab != [] {
      assert Digit(tab[0]) != '-';
      NoDashInList(tab[1..]);
    }
  }

  lemma SpelledRangeRead(scan: Scanner, nss: nat, start: nat, end: nat)
    requires ReadsDigits(scan) && Valid(Range(nss, start, end))
    ensures ChunkOf(scan, SpellChunk(Range(nss, start, end))) == Range(nss, start, end)
  {
    DigitsRead(scan, nss, start, end);
  }

  lemma DigitsRead(scan: Scanner, nss: nat, start: nat, end: nat)
    requires ReadsDigits(scan) && nss <= 9 && start <= 9 && end <= 9
    ensures ChunkOf(scan, [Digit(nss), ':', Digit(start), '-', Digit(end)]) == Range(nss, start, end)
  {
    var s := [Digit(nss), ':', Digit(start), '-', Digit(end)];
    DigitAt(scan, s, 0, nss);
    DigitAt(scan, s, 2, start);
    DigitAt(scan, s, 4, end);
    assert s[3] == '-';
    assert Digit(nss) != '-' && Digit(start) != '-';
    IndexOfIs(s, '-', 3);
  }

  lemma SscanfSpelled(scan: Scanner, s: string, nss: nat, tab: seq<nat>)
    requires ReadsDigits(scan) && nss <= 9 && 1 <= |tab| <= 10 && forall i :: 0 <= i < |tab| ==> tab[i] <= 9
    requires |s| >= 2 && s[0] == Digit(nss) && s[1] == ':' && s[2..] == SpellList(tab)
    ensures SscanfList(scan, s) == (1 + |tab|, nss, tab)
  {
    DigitAt(scan, s, 0, nss);
    assert SkipSpaces(s, 0) == 0;
    ScanSpelledList(scan, s, 2, tab, 10);
    SscanfFrom(scan, s, nss, tab);
  }

  lemma SscanfFrom(scan: Scanner, s: string, nss: nat, tab: seq<nat>)
    requires |s| >= 2 && SkipSpaces(s, 0) == 0 && scan(s, 0) == Some((nss, 1)) && s[1] == ':'
    requires ScanNumbers(scan, s, 2, 10) == tab
    ensures SscanfList(scan, s) == (1 + |tab|, nss, tab)
  {
  }

  lemma SpelledListRead(scan: Scanner, nss: nat, tab: seq<nat>)
    requires ReadsDigits(scan) && Valid(Listing(nss, tab)) && |tab| <= 10
    ensures ChunkOf(scan, SpellChunk(Listing(nss, tab))) == Listing(nss, tab)
  {
    var s := SpellChunk(Listing(nss, tab));
    SpelledListText(nss, tab, s);
    SscanfSpelled(scan, s, nss, tab);
    ListFrom(scan, s, nss, tab);
  }

  lemma SpelledListText(nss: nat, tab: seq<nat>, s: string)
    requires nss <= 9 && (forall i :: 0 <= i < |tab| ==> tab[i] <= 9) && s == [Digit(nss), ':'] + SpellList(tab)
    ensures s[0] == Digit(nss) && s[1] == ':' && s[2..] == SpellList(tab) && IndexOf(s, '-') == |s|
  {
    NoDashInList(tab);
    assert Digit(nss) != '-' && '-' !in s;
    IndexOfIs(s, '-', |s|);
  }

  lemma ListFrom(scan: Scanner, s: string, nss: nat, tab: seq<nat>)
    requires IndexOf(s, '-') == |s| && SscanfList(scan, s) == (1 + |tab|, nss, tab) && 1 <= |tab| <= 10
    ensures ChunkOf(scan, s) == Listing(nss, tab)
  {
  }

  // ---- blank chunks ------------------------------------------------------------------------

  ghost predicate Blank(s: string) { forall i :: 0 <= i < |s| ==> IsSpace(s[i]) }

  lemma {:induction false} SkipsAllIff(s: string, pos: nat)
    requires pos <= |s|
    ensures SkipSpaces(s, pos) == |s| <==> forall i :: pos <= i < |s| ==> IsSpace(s[i])
    decreases |s| - pos
  {
    if pos < |s| && IsSpace(s[pos]) {
      SkipsAllIff(s, pos + 1);
    }
  }

  /** For every text: the code goes on without having read anything exactly when the text is blank. */
  lemma UnsetIffBlank(scan: Scanner, arg: string)
    ensures ChunkOf(scan, arg) == Unset <==> Blank(arg)
  {
    SkipsAllIff(arg, 0);
    if Blank(arg) {
      IndexOfIs(arg, '-', |arg|);
    }
  }

  /** The empty chunk: EOF, taken for a count, passes the test for too few numbers. */
  lemma EmptyChunk(scan: Scanner)
    ensures SscanfList(scan, "").0 == EOF && ToUnsigned(EOF) >= 2 && ChunkOf(scan, "") == Unset
  {
    UnsetIffBlank(scan, "");
  }

  /** Every valid chunk of at most ten indexes is read from its spelling. */
  lemma SpelledChunkRead(scan: Scanner, c: Chunk)
    requires ReadsDigits(scan) && Valid(c) && (c.Listing? ==> |c.tab| <= 10)
    ensures ChunkOf(scan, SpellChunk(c)) == c
  {
    match c
    case Range(nss, start, end) => SpelledRangeRead(scan, nss, start, end);
    case Listing(nss, tab) => SpelledListRead(scan, nss, tab);
  }

  /** "N:A-B" with single digits: valid for 1 to 8 streams and A up to B, and then exactly the indexes from A to B. */
  lemma RangeMeans(scan: Scanner, nss: nat, start: nat, end: nat)
    requires ReadsDigits(scan) && nss <= 9 && start <= 9 && end <= 9
    ensures var c := ChunkOf(scan, [Digit(nss), ':', Digit(start), '-', Digit(end)]);
            && (Valid(c) <==> 1 <= nss <= 8 && start <= end)
            && forall n: nat, m: nat :: Covers(c, n, m) <==> n == nss - 1 && start <= m <= end
  {
    DigitsRead(scan, nss, start, end);
  }

  /** "N:A,B,..." with up to ten single digits: valid for 1 to 8 streams, and then exactly these indexes. */
  lemma ListMeans(scan: Scanner, nss: nat, tab: seq<nat>)
    requires ReadsDigits(scan) && nss <= 9 && 1 <= |tab| <= 10 && forall i :: 0 <= i < |tab| ==> tab[i] <= 9
    ensures var c := ChunkOf(scan, [Digit(nss), ':'] + SpellList(tab));
            && (Valid(c) <==> 1 <= nss <= 8)
            && forall n: nat, m: nat :: Covers(c, n, m) <==> n == nss - 1 && m in tab
  {
    var s := [Digit(nss), ':'] + SpellList(tab);
    SpelledListText(nss, tab, s);
    SscanfSpelled(scan, s, nss, tab);
    ListFrom(scan, s, nss, tab);
  }

  /** %u as strtoul reads it. */
  function ScanNumber(s: string, pos: nat): Option<(nat, nat)>
  {
    if pos > |s| then None
    else
      var (v, len) := Strtoul(s[pos..], 10);
      if len == 0 then None else Some((ToU32(v), pos + len))
  }

  lemma ScanDigit(s: string, pos: nat)
    requires LoneDigit(s, pos)
    ensures ScanNumber(s, pos) == Some((HexVal(s[pos]), pos + 1))
  {
    var t := s[pos..];
    assert t[0] == s[pos] && (|t| > 1 ==> t[1] == s[pos + 1]);
    assert SkipSpaces(t, 0) == 0;
    assert SkipDigits(t, 1, 10) == 1;
    assert SkipDigits(t, 0, 10) == 1;
    assert DigitsValue(t, 0, 0, 10) == 0;
    assert DigitsValue(t, 0, 1, 10) == HexVal(t[0]);
  }

  lemma ScanNumberReadsDigits()
    ensures ReadsDigits(ScanNumber)
  {
    forall s: string, pos: nat | LoneDigit(s, pos)
      ensures ScanNumber(s, pos) == Some((HexVal(s[pos]), pos + 1))
    {
      ScanDigit(s, pos);
    }
  }

  // ---- masks -----------------------------------------------------------------------------

  lemma SetBit(a: nat, j: nat, k: nat)
    ensures Bit(Or(a, Shl(1, j)), k) <==> Bit(a, k) || k == j
  {
    assert Shl(1, j) == Pow2(j);
    OrBit(a, Pow2(j), k);
    Pow2Bit(j, k);
  }

  method SetMcs(mcs: nat, i: nat) returns (r: nat)
    ensures forall m: nat :: Bit(r, m) <==> Bit(mcs, m) || m == i
  {
    r := Or(mcs, Shl(1, i));
    forall m: nat
      ensures Bit(r, m) <==> Bit(mcs, m) || m == i
    {
      SetBit(mcs, i, m);
    }
  }

  method RangeMask(start: nat, end: nat) returns (mcs: nat)
    requires start <= end
    ensures forall m: nat :: Bit(mcs, m) <==> start <= m <= end
  {
    mcs := 0;
    forall m: nat
      ensures !Bit(0, m)
    {
      ZeroBit(m);
    }
    for i := start to end + 1
      invariant forall m: nat :: Bit(mcs, m) <==> start <= m < i
    {
      mcs := SetMcs(mcs, i);
    }
  }

  method ListMask(tab: seq<nat>) returns (ok: bool, mcs: nat)
    ensures ok <==> forall i :: 0 <= i < |tab| ==> tab[i] <= 9
    ensures ok ==> forall m: nat :: Bit(mcs, m) <==> m in tab
  {
    mcs := 0;
    forall m: nat
      ensures !Bit(0, m)
    {
      ZeroBit(m);
    }
    for i := 0 to |tab|
      invariant forall k :: 0 <= k < i ==> tab[k] <= 9
      invariant forall m: nat :: Bit(mcs, m) <==> m in tab[..i]
    {
      if tab[i] > 9 {
        return false, mcs;
      }
      assert tab[..i + 1] == tab[..i] + [tab[i]];
      mcs := SetMcs(mcs, tab[i]);
    }
    assert tab[..|tab|] == tab;
    ok := true;
  }

  /** What parse_vht_chunk does: refuse, go on with variables nobody has set, or give streams and mask. */
  datatype Parse = Rejected | UsesUnset | Masked(nss: nat, mcs: nat)

  /** The result that a chunk must have. */
  ghost predicate Parses(c: Chunk, r: Parse)
  {
    match r
    case Rejected => !Valid(c) && c != Unset
    case UsesUnset => c == Unset
    case Masked(nss, mcs) =>
      && Valid(c) && 1 <= nss <= 8
      && forall n: nat, m: nat :: Covers(c, n, m) <==> nss == n + 1 && Bit(mcs, m)
  }

  /** parse_vht_chunk on every text. */
  method ParseVhtChunk(scan: Scanner, arg: string) returns (r: Parse)
    ensures Parses(ChunkOf(scan, arg), r)
  {
    r := TakeChunk(ChunkOf(scan, arg));
  }

  /** What was scanned, checked and turned into a mask. */
  method TakeChunk(c: Chunk) returns (r: Parse)
    ensures Parses(c, r)
  {
    match c
    case Unreadable =>
      r := Rejected;
    case Unset =>
      r := UsesUnset;
    case Range(inss, start, end) =>
      if inss < 1 || inss > NSS_MAX || start > end || start > 9 || end > 9 {
        return Rejected;
      }
      var mcs := RangeMask(start, end);
      r := Masked(inss, mcs);
    case Listing(inss, tab) =>
      if tab == [] || inss < 1 || inss > NSS_MAX {
        return Rejected;
      }
      var ok, mcs := ListMask(tab);
      r := if ok then Masked(inss, mcs) else Rejected;
  }

  ghost predicate Covered(chunks: seq<Chunk>, n: nat, m: nat)
  {
    exists i :: 0 <= i < |chunks| && Covers(chunks[i], n, m)
  }

  lemma CoveredSnoc(chunks: seq<Chunk>, c: Chunk, n: nat, m: nat)
    ensures Covered(chunks + [c], n, m) <==> Covered(chunks, n, m) || Covers(c, n, m)
  {
    var all := chunks + [c];
    if Covers(c, n, m) {
      assert Covers(all[|chunks|], n, m);
    }
    if Covered(chunks, n, m) {
      var i :| 0 <= i < |chunks| && Covers(chunks[i], n, m);
      assert Covers(all[i], n, m);
    }
  }

  /** The masks hold exactly what the chunks cover. */
  ghost predicate Holds(mcs: seq<nat>, chunks: seq<Chunk>)
  {
    |mcs| == 8 && forall n: nat, m: nat :: n < 8 ==> (Bit(mcs[n], m) <==> Covered(chunks, n, m))
  }

  /** One more chunk, or'ed into the mask of its streams. */
  lemma HoldsNext(mcs: seq<nat>, chunks: seq<Chunk>, c: Chunk, nss: nat, mask: nat)
    requires Holds(mcs, chunks) && 1 <= nss <= NSS_MAX
    requires forall n: nat, m: nat :: Covers(c, n, m) <==> nss == n + 1 && Bit(mask, m)
    ensures Holds(mcs[nss - 1 := Or(mcs[nss - 1], mask)], chunks + [c])
  {
    var r := mcs[nss - 1 := Or(mcs[nss - 1], mask)];
    forall n: nat, m: nat | n < NSS_MAX
      ensures Bit(r[n], m) <==> Covered(chunks + [c], n, m)
    {
      OrBit(mcs[nss - 1], mask, m);
      CoveredSnoc(chunks, c, n, m);
    }
  }

  /** What setup_vht does with all chunks. */
  datatype Setup = Failed | Undefined | Done

  ghost predicate AllValid(chunks: seq<Chunk>, n: nat)
    requires n <= |chunks|
  {
    forall k :: 0 <= k < n ==> Valid(chunks[k])
  }

  /** The loop stops at chunk k, after valid ones only. */
  ghost predicate StopsAt(chunks: seq<Chunk>, k: nat) { k < |chunks| && AllValid(chunks, k) && !Valid(chunks[k]) }

  /**
    The result that a chunk list must have: all chunks are valid, or the first that
    is not decides, and then a blank one makes the code use unset variables.
   */
  ghost predicate SetsUp(chunks: seq<Chunk>, r: Setup)
  {
    match r
    case Done => AllValid(chunks, |chunks|)
    case Undefined => exists k: nat :: StopsAt(chunks, k) && chunks[k] == Unset
    case Failed => exists k: nat :: StopsAt(chunks, k) && chunks[k] != Unset
  }

  /** Exactly one result fits a chunk list. */
  lemma SetsUpOnce(chunks: seq<Chunk>, r: Setup, r': Setup)
    requires SetsUp(chunks, r) && SetsUp(chunks, r')
    ensures r == r'
  {
    if !r.Done? && !r'.Done? {
      var k: nat :| StopsAt(chunks, k) && (chunks[k] == Unset <==> r.Undefined?);
      var k': nat :| StopsAt(chunks, k') && (chunks[k'] == Unset <==> r'.Undefined?);
      assert k == k';
    }
  }

  /** setup_vht: the masks are cleared, then each chunk is added in place. */
  method SetupVht(scan: Scanner, argv: seq<string>, mcs: array<nat>) returns (r: Setup)
    requires mcs.Length == NSS_MAX
    modifies mcs
    ensures SetsUp(Chunks(scan, argv), r)
    ensures r == Done ==> Holds(mcs[..], Chunks(scan, argv))
  {
    ghost var chunks := Chunks(scan, argv);
    forall n | 0 <= n < mcs.Length {
      mcs[n] := 0;
    }
    NothingHeld(mcs[..]);
    for i := 0 to |argv|
      invariant AllValid(chunks, i) && Holds(mcs[..], chunks[..i])
    {
      var p := AddChunk(scan, argv[i], mcs, chunks[..i], chunks[i]);
      if !p.Masked? {
        assert StopsAt(chunks, i);
        return if p.UsesUnset? then Undefined else Failed;
      }
      assert chunks[..i + 1] == chunks[..i] + [chunks[i]];
    }
    assert chunks[..|chunks|] == chunks;
    r := Done;
  }

  /** One round of the loop. */
  method AddChunk(scan: Scanner, arg: string, mcs: array<nat>, ghost done: seq<Chunk>, ghost c: Chunk)
    returns (p: Parse)
    requires mcs.Length == NSS_MAX && Holds(mcs[..], done) && c == ChunkOf(scan, arg)
    modifies mcs
    ensures Parses(c, p)
    ensures p.Masked? ==> Holds(mcs[..], done + [c])
  {
    p := ParseVhtChunk(scan, arg);
    if p.Masked? {
      HoldsNext(mcs[..], done, c, p.nss, p.mcs);
      ghost var before := mcs[..];
      mcs[p.nss - 1] := Or(mcs[p.nss - 1], p.mcs);
      assert mcs[..] == before[p.nss - 1 := mcs[p.nss - 1]];
    }
  }

  lemma NothingHeld(mcs: seq<nat>)
    requires |mcs| == NSS_MAX && forall n :: 0 <= n < NSS_MAX ==> mcs[n] == 0
    ensures Holds(mcs, [])
  {
    forall m: nat
      ensures !Bit(0, m)
    {
      ZeroBit(m);
    }
  }

  // ---- what the masks mean ------------------------------------------------------------------

  /** A number of at least 2^k has a bit from k on. */
  lemma {:induction false} HighBit(a: nat, k: nat) returns (j: nat)
    requires a >= Pow2(k)
    ensures j >= k && Bit(a, j)
  {
    if k > 0 {
      j := HighBit(a / 2, k - 1);
      j := j + 1;
    } else if a % 2 == 1 {
      j := 0;
    } else {
      j := HighBit(a / 2, 0);
      j := j + 1;
    }
  }

  lemma CoveredLow(chunks: seq<Chunk>, n: nat, m: nat)
    requires Covered(chunks, n, m) && forall i :: 0 <= i < |chunks| ==> Valid(chunks[i])
    ensures m <= 9
  {
    var i :| 0 <= i < |chunks| && Covers(chunks[i], n, m);
    assert Valid(chunks[i]);
  }

  /** No mask has a bit above 9. */
  lemma OnlyTenBits(mcs: seq<nat>, chunks: seq<Chunk>, n: nat)
    requires Holds(mcs, chunks) && n < NSS_MAX && forall i :: 0 <= i < |chunks| ==> Valid(chunks[i])
    ensures mcs[n] < Pow2(10)
  {
    if mcs[n] >= Pow2(10) {
      var j := HighBit(mcs[n], 10);
      CoveredLow(chunks, n, j);
    }
  }

  /**
    Chunk lists that cover the same indexes give the same masks: neither the
    order nor the choice between range and list matters.
   */
  lemma SameCoverSameMasks(a: seq<nat>, b: seq<nat>, cs: seq<Chunk>, ds: seq<Chunk>)
    requires Holds(a, cs) && Holds(b, ds)
    requires forall i :: 0 <= i < |cs| ==> Valid(cs[i])
    requires forall i :: 0 <= i < |ds| ==> Valid(ds[i])
    requires forall n: nat, m: nat :: Covered(cs, n, m) <==> Covered(ds, n, m)
    ensures a == b
  {
    forall n: nat | n < NSS_MAX
      ensures a[n] == b[n]
    {
      OnlyTenBits(a, cs, n);
      OnlyTenBits(b, ds, n);
      forall j: nat | j < 10
        ensures Bit(a[n], j) <==> Bit(b[n], j)
      {
        assert Covered(cs, n, j) <==> Covered(ds, n, j);
      }
      SameBits(a[n], b[n], 10);
    }
  }
}
