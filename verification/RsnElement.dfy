/**
  The RSN element (section 7.3.2.25 of IEEE 802.11-2007): a version and a chain
  of fields, each of which may be the last. The parser walks a cursor over the
  element body and reports what is left.
 */
module RsnElement {
  import opened Bits

  /** A suite selector is 4 bytes, a PMKID 16. */
  type Block = seq<byte>

  datatype Field =
    | Version(version: nat)
    | Group(suite: Block)
    | Pairwise(list: seq<Block>)
    | Akm(list: seq<Block>)
    | Capabilities(bits: nat)
    | Pmkids(list: seq<Block>)
    | GroupMgmt(suite: Block)

  /** Positions of the fields in the chain. */
  function Place(f: Field): nat
  {
    match f
    case Version(_) => 0
    case Group(_) => 1
    case Pairwise(_) => 2
    case Akm(_) => 3
    case Capabilities(_) => 4
    case Pmkids(_) => 5
    case GroupMgmt(_) => 6
  }

  const LAST: nat := 7

  // ---- encoding -------------------------------------------------------------------

  function Le16Bytes(v: nat): seq<byte> { [v % 256, v / 256 % 256] }

  function Flatten(blocks: seq<Block>): seq<byte>
  {
    if blocks == [] then [] else blocks[0] + Flatten(blocks[1..])
  }

  function EncodeField(f: Field): seq<byte>
  {
    match f
    case Version(v) => Le16Bytes(v)
    case Group(s) => s
    case Pairwise(l) => Le16Bytes(|l|) + Flatten(l)
    case Akm(l) => Le16Bytes(|l|) + Flatten(l)
    case Capabilities(c) => Le16Bytes(c)
    case Pmkids(l) => Le16Bytes(|l|) + Flatten(l)
    case GroupMgmt(s) => s
  }

  function Encode(fs: seq<Field>): seq<byte>
  {
    if fs == [] then [] else EncodeField(fs[0]) + Encode(fs[1..])
  }

  predicate Blocks(l: seq<Block>, size: Size)
  {
    |l| < 65536 && forall i :: 0 <= i < |l| ==> |l[i]| == size
  }

  predicate ValidField(f: Field)
  {
    match f
    case Version(v) => v < 65536
    case Group(s) => |s| == 4
    case Pairwise(l) => Blocks(l, 4)
    case Akm(l) => Blocks(l, 4)
    case Capabilities(c) => c < 65536
    case Pmkids(l) => Blocks(l, 16)
    case GroupMgmt(s) => |s| == 4
  }

  /** Fields of consecutive places from k on: an element cut after any of them. */
  predicate Chain(k: nat, fs: seq<Field>)
  {
    && k + |fs| <= LAST
    && forall i :: 0 <= i < |fs| ==> ValidField(fs[i]) && Place(fs[i]) == k + i
  }

  // ---- taking one field off the front -----------------------------------------------

  /** Stop: no field here; a silent stop uses defaults and reports no tail. */
  datatype Taken = Stop(silent: bool) | Field(f: Field, rest: seq<byte>)

  /** Suites are 4 bytes long, PMKIDs 16. */
  type Size = x: int | x == 4 || x == 16 witness 4

  /** The length of n blocks. */
  function Span(n: nat, size: Size): nat { if size == 16 then 16 * n else 4 * n }

  /** n blocks of the given size from a position on. */
  function SplitAt(d: seq<byte>, pos: nat, size: Size, n: nat): (l: seq<Block>)
    requires pos + Span(n, size) <= |d|
    ensures |l| == n
    decreases n
  {
    if n == 0 then []
    else
      [d[pos..pos + size]] + SplitAt(d, pos + size, size, n - 1)
  }

  /** A counted list of blocks at the front of d, if it fits. */
  function TakeList(d: seq<byte>, size: Size): (r: (seq<Block>, int))
    requires |d| >= 2
    ensures r.1 == -1 || 2 <= r.1 <= |d|
  {
    var count := Le16(d[0], d[1]);
    if 2 + Span(count, size) > |d| then ([], -1)
    else (SplitAt(d, 2, size, count), 2 + Span(count, size))
  }

  function Take(k: nat, d: seq<byte>): Taken
    requires k < LAST
  {
    if k == 0 then
      if |d| < 2 then Stop(true) else Field(Version(Le16(d[0], d[1])), d[2..])
    else if k == 1 then
      if |d| < 4 then Stop(true) else Field(Group(d[..4]), d[4..])
    else if k == 6 then
      if |d| < 4 then Stop(false) else Field(GroupMgmt(d[..4]), d[4..])
    else if |d| < 2 then
      Stop(k < 4)
    else if k == 4 then
      Field(Capabilities(Le16(d[0], d[1])), d[2..])
    else
      var (l, n) := TakeList(d, if k == 5 then 16 else 4);
      if n < 0 then Stop(false)
      else Field(if k == 2 then Pairwise(l) else if k == 3 then Akm(l) else Pmkids(l), d[n..])
  }

  /** What the parser prints: the fields, the bytes left, and whether it reports them. */
  datatype Outcome = Outcome(fields: seq<Field>, rest: seq<byte>, reported: bool)

  function Parse(k: nat, d: seq<byte>): Outcome
    requires k <= LAST
    decreases LAST - k
  {
    if k == LAST then Outcome([], d, true)
    else
      match Take(k, d)
      case Stop(silent) => Outcome([], d, !silent)
      case Field(f, rest) =>
        var o := Parse(k + 1, rest);
        Outcome([f] + o.fields, o.rest, o.reported)
  }

  // ---- blocks ----------------------------------------------------------------------------

  lemma {:induction false} FlattenSplit(d: seq<byte>, pos: nat, size: Size, n: nat)
    requires pos + Span(n, size) <= |d|
    ensures Flatten(SplitAt(d, pos, size, n)) == d[pos..pos + Span(n, size)]
    ensures forall i :: 0 <= i < n ==> |SplitAt(d, pos, size, n)[i]| == size
    decreases n
  {
    if n > 0 {
      FlattenSplit(d, pos + size, size, n - 1);
      assert SplitAt(d, pos, size, n)[1..] == SplitAt(d, pos + size, size, n - 1);
      assert d[pos..pos + Span(n, size)] == d[pos..pos + size] + d[pos + size..pos + Span(n, size)];
    }
  }

  lemma {:induction false} SplitFlatten(d: seq<byte>, pos: nat, l: seq<Block>, size: Size)
    requires forall i :: 0 <= i < |l| ==> |l[i]| == size
    requires pos <= |d| && Flatten(l) <= d[pos..]
    ensures |Flatten(l)| == Span(|l|, size) && pos + Span(|l|, size) <= |d|
    ensures SplitAt(d, pos, size, |l|) == l
    decreases |l|
  {
    if l != [] {
      var f, rest := Flatten(l), Flatten(l[1..]);
      assert f == l[0] + rest && d[pos..][..|f|] == f;
      assert d[pos..pos + size] == f[..size] == l[0];
      assert d[pos + size..] == d[pos..][size..];
      assert d[pos..][size..][..|rest|] == f[size..] == rest;
      SplitFlatten(d, pos + size, l[1..], size);
      assert l == [l[0]] + l[1..];
    }
  }

  lemma {:induction false} SplitShift(data: seq<byte>, base: nat, pos: nat, size: Size, n: nat)
    requires base <= |data| && base + pos + Span(n, size) <= |data|
    ensures SplitAt(data[base..], pos, size, n) == SplitAt(data, base + pos, size, n)
    decreases n
  {
    if n > 0 {
      SplitShift(data, base, pos + size, size, n - 1);
      assert data[base..][pos..pos + size] == data[base + pos..base + pos + size];
    }
  }

  lemma Le16Decodes(v: nat, rest: seq<byte>)
    requires v < 65536
    ensures var d := Le16Bytes(v) + rest; Le16(d[0], d[1]) == v && d[2..] == rest
  {
  }

  lemma Le16Encodes(b0: byte, b1: byte)
    ensures Le16Bytes(Le16(b0, b1)) == [b0, b1]
  {
  }

  // ---- one field, both ways -----------------------------------------------------------------

  lemma TakeListEncoded(l: seq<Block>, size: Size, rest: seq<byte>)
    requires Blocks(l, size)
    ensures var d := Le16Bytes(|l|) + Flatten(l) + rest;
            TakeList(d, size) == (l, 2 + Span(|l|, size)) && d[2 + Span(|l|, size)..] == rest
  {
    var d, body := Le16Bytes(|l|) + Flatten(l) + rest, Flatten(l) + rest;
    assert d == Le16Bytes(|l|) + body;
    Le16Decodes(|l|, body);
    TakeListAt(d, l, size, rest);
  }

  lemma TakeListAt(d: seq<byte>, l: seq<Block>, size: Size, rest: seq<byte>)
    requires Blocks(l, size) && |d| >= 2 && Le16(d[0], d[1]) == |l| && d[2..] == Flatten(l) + rest
    ensures TakeList(d, size) == (l, 2 + Span(|l|, size)) && d[2 + Span(|l|, size)..] == rest
  {
    var body, f := d[2..], Flatten(l);
    assert f <= body;
    SplitFlatten(d, 2, l, size);
    var n := Span(|l|, size);
    assert body[n..] == rest;
    assert d[2 + n..] == body[n..];
  }

  lemma TakeListTaken(d: seq<byte>, size: Size)
    requires |d| >= 2 && TakeList(d, size).1 >= 0
    ensures var (l, n) := TakeList(d, size);
            Blocks(l, size) && Le16Bytes(|l|) + Flatten(l) == d[..n]
  {
    var count := Le16(d[0], d[1]);
    FlattenSplit(d, 2, size, count);
    Le16Encodes(d[0], d[1]);
    assert d[..2 + Span(count, size)] == [d[0], d[1]] + d[2..2 + Span(count, size)];
  }

  /** An encoded field is taken off the front of whatever follows it. */
  lemma TakeEncoded(k: nat, f: Field, rest: seq<byte>)
    requires k < LAST && ValidField(f) && Place(f) == k
    ensures Take(k, EncodeField(f) + rest) == Field(f, rest)
  {
    match f
    case Version(v) => Le16Decodes(v, rest);
    case Group(s) => assert (s + rest)[..4] == s && (s + rest)[4..] == rest;
    case Pairwise(l) => TakeListEncoded(l, 4, rest);
    case Akm(l) => TakeListEncoded(l, 4, rest);
    case Capabilities(c) => Le16Decodes(c, rest);
    case Pmkids(l) => TakeListEncoded(l, 16, rest);
    case GroupMgmt(s) => assert (s + rest)[..4] == s && (s + rest)[4..] == rest;
  }

  /** A taken field is valid and its encoding is what was consumed. */
  lemma TakenEncodes(k: nat, d: seq<byte>)
    requires k < LAST && Take(k, d).Field?
    ensures var t := Take(k, d);
            ValidField(t.f) && Place(t.f) == k && EncodeField(t.f) + t.rest == d
  {
    if k == 0 || k == 4 {
      Le16Encodes(d[0], d[1]);
      assert d == [d[0], d[1]] + d[2..];
    } else if k == 1 || k == 6 {
      assert d == d[..4] + d[4..];
    } else {
      var size := if k == 5 then 16 else 4;
      TakeListTaken(d, size);
      var n := TakeList(d, size).1;
      assert d == d[..n] + d[n..];
    }
  }

  /** The field for a place does not fit in what is left; behind the last place there is none. */
  predicate TooShort(place: nat, rest: seq<byte>)
  {
    match place
    case 0 => |rest| < 2
    case 1 => |rest| < 4
    case 2 => |rest| < 2 || |rest| < 2 + 4 * (rest[0] as int + 256 * rest[1] as int)
    case 3 => |rest| < 2 || |rest| < 2 + 4 * (rest[0] as int + 256 * rest[1] as int)
    case 4 => |rest| < 2
    case 5 => |rest| < 2 || |rest| < 2 + 16 * (rest[0] as int + 256 * rest[1] as int)
    case 6 => |rest| < 4
    case _ => true
  }

  // ---- the whole element ------------------------------------------------------------------------

  /** Encoding an element cut after any of its fields and parsing it gives it back. */
  lemma {:induction false} ParseEncoded(k: nat, fs: seq<Field>)
    requires Chain(k, fs)
    ensures Parse(k, Encode(fs)) == Outcome(fs, [], k + |fs| >= 4)
    decreases |fs|
  {
    if fs != [] {
      var f, rest := fs[0], fs[1..];
      assert fs == [f] + rest;
      assert Chain(k + 1, rest) by {
        assert forall i :: 0 <= i < |rest| ==> rest[i] == fs[i + 1];
      }
      ParseEncoded(k + 1, rest);
      TakeEncoded(k, f, Encode(rest));
    }
  }

  /**
    On every body the printed fields are a chain that, with the bytes left,
    re-encodes to exactly the input.
   */
  lemma {:induction false} ParseDecomposes(k: nat, d: seq<byte>)
    requires k <= LAST
    ensures var o := Parse(k, d);
            Chain(k, o.fields) && Encode(o.fields) + o.rest == d
    decreases LAST - k
  {
    if k < LAST && Take(k, d).Field? {
      var t := Take(k, d);
      TakenEncodes(k, d);
      ParseDecomposes(k + 1, t.rest);
      var o := Parse(k + 1, t.rest);
      ChainCons(k, t.f, o.fields, o.rest);
    }
  }

  /**
    On every body the parser stops only where the next field does not fit. What is
    left is reported from the capabilities on, and before them only when it begins
    with the count of a list that does not fit.
   */
  lemma {:induction false} ParseStops(k: nat, d: seq<byte>)
    requires k <= LAST
    ensures var o := Parse(k, d);
            var place := k + |o.fields|;
            && place <= 7 && TooShort(place, o.rest)
            && (o.reported <==> place >= 4 || (place >= 2 && |o.rest| >= 2))
    decreases LAST - k
  {
    if k < LAST {
      var t := Take(k, d);
      if t.Field? {
        ParseStops(k + 1, t.rest);
      } else {
        StopsShort(k, d);
      }
    }
  }

  lemma StopsShort(k: nat, d: seq<byte>)
    requires k < LAST && Take(k, d).Stop?
    ensures TooShort(k, d) && (Take(k, d).silent <==> k < 4 && (k < 2 || |d| < 2))
  {
  }

  lemma ChainCons(k: nat, f: Field, fs: seq<Field>, rest: seq<byte>)
    requires k < LAST && ValidField(f) && Place(f) == k && Chain(k + 1, fs)
    ensures Chain(k, [f] + fs)
    ensures Encode([f] + fs) + rest == EncodeField(f) + (Encode(fs) + rest)
  {
    var all := [f] + fs;
    assert all[1..] == fs;
    assert forall i :: 1 <= i < |all| ==> all[i] == fs[i - 1];
    assert EncodeField(f) + (Encode(fs) + rest) == EncodeField(f) + Encode(fs) + rest;
  }

  // ---- the parser -------------------------------------------------------------------------------

  /** The loop over the `count` suites or PMKIDs from a cursor position on. */
  method ReadBlocks(data: seq<byte>, at: nat, size: Size, count: nat) returns (l: seq<Block>)
    requires at + Span(count, size) <= |data|
    ensures l == SplitAt(data, at, size, count)
  {
    l := [];
    var left: nat, pos: nat := count, at;
    while left > 0
      invariant pos + Span(left, size) <= |data|
      invariant SplitAt(data, at, size, count) == l + SplitAt(data, pos, size, left)
    {
      BlockAppended(l, data[pos..pos + size], SplitAt(data, pos + size, size, left - 1));
      l := l + [data[pos..pos + size]];
      left, pos := left - 1, pos + size;
    }
  }

  lemma BlockAppended(l: seq<Block>, b: Block, later: seq<Block>)
    ensures l + ([b] + later) == l + [b] + later
  {
  }

  /** A counted list at the cursor: its blocks and its length, or -1 if it does not fit. */
  method ReadList(data: seq<byte>, pos: nat, len: nat, size: Size) returns (l: seq<Block>, n: int)
    requires pos + len == |data| && len >= 2
    ensures (l, n) == TakeList(data[pos..], size)
  {
    var count := Or(data[pos], Shl(data[pos + 1], 8));
    Le16IsOr(data[pos], data[pos + 1]);
    if 2 + Span(count, size) > len {
      return [], -1;
    }
    l := ReadBlocks(data, pos + 2, size, count);
    SplitShift(data, pos, 2, size, count);
    n := 2 + Span(count, size);
  }

  datatype Found = Halt(silent: bool) | Got(f: Field, n: nat)

  /** The section of the parser for place k, with `len` bytes left at the cursor. */
  method ReadField(data: seq<byte>, pos: nat, len: nat, k: nat) returns (r: Found)
    requires pos + len == |data| && k < LAST
    ensures match r
            case Halt(silent) => Take(k, data[pos..]) == Stop(silent)
            case Got(f, n) => n <= len && Take(k, data[pos..]) == Field(f, data[pos + n..])
  {
    if k == 1 || k == 6 {
      if len < 4 {
        return Halt(k == 1);
      }
      var s := data[pos..pos + 4];
      assert data[pos..][..4] == s && data[pos..][4..] == data[pos + 4..];
      return Got(if k == 1 then Group(s) else GroupMgmt(s), 4);
    }
    if len < 2 {
      return Halt(k < 4);
    }
    if k == 0 || k == 4 {
      var v := Le16(data[pos], data[pos + 1]);
      assert data[pos..][2..] == data[pos + 2..];
      return Got(if k == 0 then Version(v) else Capabilities(v), 2);
    }
    var l, n := ReadList(data, pos, len, if k == 5 then 16 else 4);
    if n < 0 {
      return Halt(false);
    }
    assert data[pos..][n..] == data[pos + n..];
    return Got(if k == 2 then Pairwise(l) else if k == 3 then Akm(l) else Pmkids(l), n);
  }

  /** The sections from place k on; cursor and length always split the body. */
  method PrintFrom(data: seq<byte>, pos: nat, len: nat, k: nat) returns (o: Outcome)
    requires pos + len == |data| && k <= LAST
    ensures o == Parse(k, data[pos..])
    decreases LAST - k
  {
    if k == LAST {
      return Outcome([], data[pos..], true);
    }
    var r := ReadField(data, pos, len, k);
    match r
    case Halt(silent) =>
      return Outcome([], data[pos..], !silent);
    case Got(f, n) =>
      var later := PrintFrom(data, pos + n, len - n, k + 1);
      return Outcome([f] + later.fields, later.rest, later.reported);
  }

  /** _print_rsn_ie: no read leaves the body, and the printed chain is the parser's. */
  method PrintRsn(data: seq<byte>, osen: bool) returns (o: Outcome)
    requires |data| <= 255 && (!osen ==> |data| >= 2)
    ensures o == Parse(if osen then 1 else 0, data)
  {
    assert data[0..] == data;
    o := PrintFrom(data, 0, |data|, if osen then 1 else 0);
  }
}
