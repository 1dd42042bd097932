/**
  Byte patterns with wildcards: the text form "00:11:--:44", its parser into a
  value array and a packed bit mask, and the printer that shows it again.
 */
module HexMask {
  import opened Bits
  import opened CStrings

  /** What strtoul(c, &end, 16) and the range checks make of a component: a byte, or an error. */
  type HexReader = string -> Option<byte>

  /** A pattern as meant: a byte to compare, or None where any byte may be. */
  type Items = seq<Option<byte>>

  predicate Wildcard(c: string) { c == "-" || c == "xx" || c == "--" }

  /** One component: an error, a wildcard, or a byte. */
  function Component(hex: HexReader, c: string): Option<Option<byte>>
  {
    if Wildcard(c) then Some(None)
    else
      match hex(c)
      case None => None
      case Some(b) => Some(Some(b))
  }

  /** The components from a position on; None when one of them is refused. */
  function ItemsFrom(hex: HexReader, text: string, pos: nat): Option<Items>
    requires pos <= |text|
    decreases |text| - pos
  {
    var e := IndexFrom(text, ':', pos);
    match Component(hex, text[pos..e])
    case None => None
    case Some(item) => if e == |text| then Some([item]) else Prepend([item], ItemsFrom(hex, text, e + 1))
  }

  function ParseItems(hex: HexReader, text: string): Option<Items> { ItemsFrom(hex, text, 0) }

  /** How many components there are from a position on. */
  function CountFrom(text: string, pos: nat): (n: nat)
    requires pos <= |text|
    ensures n >= 1
    decreases |text| - pos
  {
    var e := IndexFrom(text, ':', pos);
    if e == |text| then 1 else 1 + CountFrom(text, e + 1)
  }

  /** No component from a position on is empty. */
  predicate NoneEmpty(text: string, pos: nat)
    requires pos <= |text|
    decreases |text| - pos
  {
    var e := IndexFrom(text, ':', pos);
    e > pos && (e < |text| ==> NoneEmpty(text, e + 1))
  }

  /** Components fit the allocations of strlen / 2 + 2 value bytes. */
  predicate FitsBuffer(text: string) { CountFrom(text, 0) <= |text| / 2 + 2 }

  lemma {:induction false} CountBound(text: string, pos: nat)
    requires pos <= |text| && NoneEmpty(text, pos)
    ensures 2 * CountFrom(text, pos) <= |text| - pos + 1
    decreases |text| - pos
  {
    var e := IndexFrom(text, ':', pos);
    if e < |text| {
      CountBound(text, e + 1);
    }
  }

  /** When no component is empty, strlen / 2 + 1 bytes are enough. */
  lemma NonEmptyFits(text: string)
    requires NoneEmpty(text, 0)
    ensures CountFrom(text, 0) <= |text| / 2 + 1 && FitsBuffer(text)
  {
    CountBound(text, 0);
  }

  lemma {:induction false} ItemCount(hex: HexReader, text: string, pos: nat)
    requires pos <= |text| && ItemsFrom(hex, text, pos).Some?
    ensures |ItemsFrom(hex, text, pos).value| == CountFrom(text, pos)
    decreases |text| - pos
  {
    var e := IndexFrom(text, ':', pos);
    if e < |text| {
      ItemCount(hex, text, e + 1);
    }
  }

  // ---- values and mask -----------------------------------------------------------------

  function DivRoundUp(n: nat): nat { (n + 7) / 8 }

  /** Bit k of a packed mask, lowest-order bit of the first byte first. */
  predicate MaskBit(mask: seq<byte>, k: nat)
  {
    k / 8 < |mask| && Bit(mask[k / 8], k % 8)
  }

  /** The mask has exactly the bits of the bytes to compare. */
  ghost predicate MasksItems(mask: seq<byte>, items: Items)
  {
    forall k: nat :: MaskBit(mask, k) <==> k < |items| && items[k].Some?
  }

  /** The values of an item list, 0 in wildcard places. */
  ghost predicate ValuesOf(val: seq<byte>, items: Items)
  {
    |val| == |items| && forall k :: 0 <= k < |items| ==> val[k] == if items[k].Some? then items[k].value else 0
  }

  datatype Pattern = Pattern(val: seq<byte>, mask: seq<byte>)

  /** A pattern that stands for an item list. */
  ghost predicate Represents(p: Pattern, items: Items)
  {
    ValuesOf(p.val, items) && |p.mask| == DivRoundUp(|items|) && MasksItems(p.mask, items)
  }

  lemma SetMaskBit(mask: seq<byte>, k: nat, b: byte, j: nat)
    requires k / 8 < |mask| && b == Or(mask[k / 8], Shl(1, k % 8))
    ensures MaskBit(mask[k / 8 := b], j) <==> MaskBit(mask, j) || j == k
  {
    var m := k % 8;
    OrBit(mask[k / 8], Shl(1, m), j % 8);
    assert Shl(1, m) == Pow2(m);
    Pow2Bit(m, j % 8);
    if j / 8 == k / 8 {
      assert j == 8 * (j / 8) + j % 8 && k == 8 * (k / 8) + k % 8;
    }
  }

  lemma SetBitIsByte(a: byte, m: nat)
    requires m < 8
    ensures Or(a, Shl(1, m)) < 256
  {
    Pow2Mono(m, 7);
    assert Pow2(7) == 128 && Pow2(8) == 256;
    OrBound(a, Pow2(m), 8);
  }

  lemma MarkByte(mask: seq<byte>, items: Items, v: byte, b: byte)
    requires MasksItems(mask, items) && |items| / 8 < |mask|
    requires b == Or(mask[|items| / 8], Shl(1, |items| % 8))
    ensures MasksItems(mask[|items| / 8 := b], items + [Some(v)])
  {
    var n, more := |items|, items + [Some(v)];
    forall k: nat
      ensures MaskBit(mask[n / 8 := b], k) <==> k < |more| && more[k].Some?
    {
      SetMaskBit(mask, n, b, k);
    }
  }

  lemma MarkWildcard(mask: seq<byte>, items: Items)
    requires MasksItems(mask, items)
    ensures MasksItems(mask, items + [None])
  {
  }

  lemma CutMask(mask: seq<byte>, items: Items, n: nat)
    requires MasksItems(mask, items) && n == DivRoundUp(|items|) <= |mask|
    ensures MasksItems(mask[..n], items)
  {
    forall k: nat
      ensures MaskBit(mask[..n], k) <==> k < |items| && items[k].Some?
    {
      assert MaskBit(mask, k) <==> k < |items| && items[k].Some?;
    }
  }

  lemma ZeroMask(n: nat)
    ensures MasksItems(seq(n, _ => 0), [])
  {
    var zeros := seq(n, _ => 0);
    forall k: nat
      ensures !MaskBit(zeros, k)
    {
      ZeroBit(k % 8);
    }
  }

  /** The packed mask of the first n items, one bit after the other. */
  function MaskOf(items: Items, n: nat): (mask: seq<byte>)
    requires n <= |items|
    ensures |mask| == DivRoundUp(|items|)
  {
    if n == 0 then seq(DivRoundUp(|items|), _ => 0)
    else
      var m := MaskOf(items, n - 1);
      var j := n - 1;
      SetBitIsByte(m[j / 8], j % 8);
      if items[j].Some? then m[j / 8 := Or(m[j / 8], Shl(1, j % 8))] else m
  }

  /** The value array and packed mask that stand for an item list. */
  function PatternOf(items: Items): Pattern
  {
    Pattern(seq(|items|, k requires 0 <= k < |items| => if items[k].Some? then items[k].value else 0),
            MaskOf(items, |items|))
  }

  lemma {:induction false} MaskOfMasks(items: Items, n: nat)
    requires n <= |items|
    ensures MasksItems(MaskOf(items, n), items[..n])
  {
    if n == 0 {
      ZeroMask(DivRoundUp(|items|));
    } else {
      MaskOfMasks(items, n - 1);
      var m, j := MaskOf(items, n - 1), n - 1;
      assert items[..n] == items[..j] + [items[j]];
      if items[j].Some? {
        SetBitIsByte(m[j / 8], j % 8);
        MarkByte(m, items[..j], items[j].value, Or(m[j / 8], Shl(1, j % 8)));
      } else {
        MarkWildcard(m, items[..j]);
      }
    }
  }

  lemma PatternOfRepresents(items: Items)
    ensures Represents(PatternOf(items), items)
  {
    MaskOfMasks(items, |items|);
    assert items[..|items|] == items;
  }

  /** Values and mask are determined by the items they stand for. */
  lemma RepresentsUnique(p: Pattern, q: Pattern, items: Items)
    requires Represents(p, items) && Represents(q, items)
    ensures p == q
  {
    forall j | 0 <= j < |p.mask|
      ensures p.mask[j] == q.mask[j]
    {
      forall m: nat | m < 8
        ensures Bit(p.mask[j], m) <==> Bit(q.mask[j], m)
      {
        var k := 8 * j + m;
        assert k / 8 == j && k % 8 == m;
        assert MaskBit(p.mask, k) <==> MaskBit(q.mask, k);
      }
      assert Pow2(8) == 256;
      SameBits(p.mask[j], q.mask[j], 8);
    }
    assert p.mask == q.mask && p.val == q.val;
  }

  // ---- the two blocks ---------------------------------------------------------------------

  /** The size of the value block that is allocated for a text. */
  function BlockSize(text: string): nat { |text| / 2 + 2 }

  /** What happens to component number n: a byte is stored, and only the first `size` places are there. */
  function Store(hex: HexReader, c: string, n: nat, size: nat): Outcome<Option<byte>>
  {
    match Component(hex, c)
    case None => Refused
    case Some(item) => if item.Some? && n >= size then Outside else Got(item)
  }

  /** The loop from component number n at a position on. */
  function ScanFrom(hex: HexReader, text: string, pos: nat, n: nat, size: nat): Outcome<Items>
    requires pos <= |text|
    decreases |text| - pos
  {
    var e := IndexFrom(text, ':', pos);
    match Store(hex, text[pos..e], n, size)
    case Refused => Refused
    case Outside => Outside
    case Got(item) => if e == |text| then Got([item]) else Onto([item], ScanFrom(hex, text, e + 1, n + 1, size))
  }

  /** The loop over a whole text; Outside when it writes outside the value block. */
  function Scan(hex: HexReader, text: string): Outcome<Items> { ScanFrom(hex, text, 0, 0, BlockSize(text)) }

  /**
    The items of a text; Outside when the loop writes outside the value block, or
    returns a length that the block does not have, so that reading the values does.
   */
  function ReadItems(hex: HexReader, text: string): Outcome<Items>
  {
    match Scan(hex, text)
    case Refused => Refused
    case Outside => Outside
    case Got(items) => if |items| <= BlockSize(text) then Got(items) else Outside
  }

  /** parse_hex_mask and the reading of what it returns. */
  function ParseMask(hex: HexReader, text: string): Outcome<Pattern>
  {
    match ReadItems(hex, text)
    case Refused => Refused
    case Outside => Outside
    case Got(items) => Got(PatternOf(items))
  }

  /** The values of an item list as far as a block reaches, 0 everywhere else. */
  ghost predicate BlockHolds(val: seq<byte>, items: Items)
  {
    forall k :: 0 <= k < |val| ==> val[k] == if k < |items| && items[k].Some? then items[k].value else 0
  }

  /** One component of the text, taken into the zeroed blocks as number n. */
  method TakeComponent(hex: HexReader, c: string, n: nat, val: array<byte>, mask: array<byte>, ghost items: Items)
    returns (r: Outcome<Option<byte>>)
    requires val != mask && n == |items| && val.Length <= 8 * mask.Length
    requires BlockHolds(val[..], items) && MasksItems(mask[..], items)
    modifies val, mask
    ensures r == Store(hex, c, n, val.Length)
    ensures r.Got? ==> BlockHolds(val[..], items + [r.value]) && MasksItems(mask[..], items + [r.value])
  {
    ghost var marks := mask[..];
    if Wildcard(c) {
      MarkWildcard(marks, items);
      return Got(None);
    }
    match hex(c)
    case None =>
      return Refused;
    case Some(b) =>
      if n >= val.Length {
        return Outside;
      }
      val[n] := b;
      SetBitIsByte(mask[n / 8], n % 8);
      mask[n / 8] := Or(mask[n / 8], Shl(1, n % 8));
      MarkByte(marks, items, b, mask[n / 8]);
      assert mask[..] == marks[n / 8 := mask[n / 8]];
      return Got(Some(b));
  }

  /** What one good component adds to the items, and what is left to parse. */
  lemma ScanStep(hex: HexReader, text: string, start: nat, n: nat, size: nat, items: Items)
    requires start <= |text| && Store(hex, text[start..IndexFrom(text, ':', start)], n, size).Got?
    ensures var e := IndexFrom(text, ':', start);
            var more := items + [Store(hex, text[start..e], n, size).value];
            Onto(items, ScanFrom(hex, text, start, n, size))
            == if e == |text| then Got(more) else Onto(more, ScanFrom(hex, text, e + 1, n + 1, size))
  {
    var e := IndexFrom(text, ':', start);
    if e < |text| {
      OntoNext(items, Store(hex, text[start..e], n, size).value, ScanFrom(hex, text, e + 1, n + 1, size));
    }
  }

  /** One round of the parsing loop: the component at start, up to the next colon. */
  method TakeNext(hex: HexReader, text: string, start: nat, n: nat, val: array<byte>, mask: array<byte>,
                  ghost items: Items)
    returns (r: Outcome<nat>, ghost more: Items)
    requires start <= |text| && val != mask && n == |items| && val.Length <= 8 * mask.Length
    requires BlockHolds(val[..], items) && MasksItems(mask[..], items)
    modifies val, mask
    ensures r.Refused? ==> ScanFrom(hex, text, start, n, val.Length) == Refused
    ensures r.Outside? ==> ScanFrom(hex, text, start, n, val.Length) == Outside
    ensures r.Got? ==> start <= r.value <= |text| && |more| == n + 1
                       && BlockHolds(val[..], more) && MasksItems(mask[..], more)
    ensures r.Got? ==> Onto(items, ScanFrom(hex, text, start, n, val.Length))
                       == if r.value == |text| then Got(more)
                          else Onto(more, ScanFrom(hex, text, r.value + 1, n + 1, val.Length))
  {
    var e := IndexFrom(text, ':', start);
    more := items;
    var c := TakeComponent(hex, text[start..e], n, val, mask, items);
    match c
    case Refused =>
      r := Refused;
    case Outside =>
      r := Outside;
    case Got(item) =>
      ScanStep(hex, text, start, n, val.Length, items);
      more := items + [item];
      r := Got(e);
  }

  /** The parsing loop over zeroed blocks: the number of components, unless it fails. */
  method ParseComponents(hex: HexReader, text: string, val: array<byte>, mask: array<byte>)
    returns (r: Outcome<nat>, ghost items: Items)
    requires val != mask && val.Length <= 8 * mask.Length
    requires BlockHolds(val[..], []) && MasksItems(mask[..], [])
    modifies val, mask
    ensures match ScanFrom(hex, text, 0, 0, val.Length)
            case Refused => r == Refused
            case Outside => r == Outside
            case Got(its) => r == Got(|its|) && items == its && BlockHolds(val[..], its) && MasksItems(mask[..], its)
  {
    var start, n := 0, 0;
    items := [];
    ghost var size := val.Length;
    ghost var all := ScanFrom(hex, text, 0, 0, size);
    OntoNothing(all);
    while true
      invariant 0 <= start <= |text| && n == |items|
      invariant all == Onto(items, ScanFrom(hex, text, start, n, size))
      invariant BlockHolds(val[..], items) && MasksItems(mask[..], items)
      decreases |text| - start
    {
      var next;
      next, items := TakeNext(hex, text, start, n, val, mask, items);
      if !next.Got? {
        return (if next.Refused? then Refused else Outside), items;
      }
      n := n + 1;
      if next.value == |text| {
        return Got(n), items;
      }
      start := next.value + 1;
    }
  }

  /**
    parse_hex_mask with a mask, on every text. Its two blocks are allocated and
    zeroed; where the code would leave the value block, the model says so.
   */
  method ParseHexMask(hex: HexReader, text: string) returns (r: Outcome<Pattern>)
    ensures r == ParseMask(hex, text)
    ensures r.Got? ==> ParseItems(hex, text).Some? && Represents(r.value, ParseItems(hex, text).value)
  {
    var len := |text| / 2;
    var val := new byte[len + 2](_ => 0);
    var mask := new byte[DivRoundUp(len) + 2](_ => 0);
    ZeroMask(mask.Length);
    assert mask[..] == seq(mask.Length, _ => 0);
    ghost var items;
    var n;
    n, items := ParseComponents(hex, text, val, mask);
    if !n.Got? {
      return if n.Refused? then Refused else Outside;
    }
    if n.value > val.Length {
      return Outside;
    }
    ScanItems(hex, text, 0, 0, BlockSize(text));
    CutBlocks(val[..], mask[..], items);
    r := Got(Pattern(val[..n.value], mask[..DivRoundUp(n.value)]));
    assert val[..n.value] == val[..][..n.value];
    assert mask[..DivRoundUp(n.value)] == mask[..][..DivRoundUp(n.value)];
  }

  /** The front of the blocks is the pattern of the items. */
  lemma CutBlocks(val: seq<byte>, mask: seq<byte>, items: Items)
    requires |items| <= |val| <= 8 * |mask| && BlockHolds(val, items) && MasksItems(mask, items)
    ensures var p := Pattern(val[..|items|], mask[..DivRoundUp(|items|)]);
            p == PatternOf(items) && Represents(p, items)
  {
    CutMask(mask, items, DivRoundUp(|items|));
    var p := Pattern(val[..|items|], mask[..DivRoundUp(|items|)]);
    PatternOfRepresents(items);
    RepresentsUnique(p, PatternOf(items), items);
  }

  // ---- when the blocks are too small --------------------------------------------------------

  /** The components of a text. */
  function PiecesFrom(text: string, pos: nat): (r: seq<string>)
    requires pos <= |text|
    ensures |r| == CountFrom(text, pos)
    decreases |text| - pos
  {
    var e := IndexFrom(text, ':', pos);
    if e == |text| then [text[pos..]] else [text[pos..e]] + PiecesFrom(text, e + 1)
  }

  predicate IsByte(hex: HexReader, c: string) { Component(hex, c).Some? && Component(hex, c).value.Some? }

  /** Component k is a byte that comes after all places, and the loop gets there. */
  ghost predicate StoredOutside(hex: HexReader, pieces: seq<string>, k: nat, n: nat, size: nat)
  {
    && k < |pieces| && n + k >= size && IsByte(hex, pieces[k])
    && forall j :: 0 <= j < k ==> Component(hex, pieces[j]).Some?
  }

  /** The loop comes to a byte that lies beyond the block. */
  ghost predicate LeavesBlock(hex: HexReader, pieces: seq<string>, n: nat, size: nat)
  {
    exists k: nat :: StoredOutside(hex, pieces, k, n, size)
  }

  /** What the loop returns are the items, and no byte among them lies beyond the block. */
  lemma {:induction false} ScanItems(hex: HexReader, text: string, pos: nat, n: nat, size: nat)
    requires pos <= |text|
    ensures var s, i := ScanFrom(hex, text, pos, n, size), ItemsFrom(hex, text, pos);
            && (s.Got? ==> i == Some(s.value))
            && (i.Some? && n + CountFrom(text, pos) <= size ==> s == Got(i.value))
            && (i.Some? ==> !s.Refused?)
    decreases |text| - pos
  {
    var e := IndexFrom(text, ':', pos);
    if e < |text| {
      ScanItems(hex, text, e + 1, n + 1, size);
    }
  }

  /** Some write leaves the block exactly when such a component exists. */
  lemma {:induction false} ScanOutsideIff(hex: HexReader, text: string, pos: nat, n: nat, size: nat)
    requires pos <= |text|
    ensures ScanFrom(hex, text, pos, n, size) == Outside <==> LeavesBlock(hex, PiecesFrom(text, pos), n, size)
    decreases |text| - pos
  {
    var e := IndexFrom(text, ':', pos);
    var pieces := PiecesFrom(text, pos);
    assert pieces[0] == text[pos..e];
    if e == |text| {
      OnlyPiece(hex, pieces, n, size);
    } else {
      ScanOutsideIff(hex, text, e + 1, n + 1, size);
      FirstPiece(hex, pieces[0], PiecesFrom(text, e + 1), n, size);
    }
  }

  lemma OnlyPiece(hex: HexReader, pieces: seq<string>, n: nat, size: nat)
    requires |pieces| == 1
    ensures Store(hex, pieces[0], n, size) == Outside <==> LeavesBlock(hex, pieces, n, size)
  {
    if Store(hex, pieces[0], n, size) == Outside {
      assert StoredOutside(hex, pieces, 0, n, size);
    }
  }

  lemma FirstPiece(hex: HexReader, c: string, rest: seq<string>, n: nat, size: nat)
    ensures LeavesBlock(hex, [c] + rest, n, size)
            <==> Store(hex, c, n, size) == Outside
                 || (Store(hex, c, n, size).Got? && LeavesBlock(hex, rest, n + 1, size))
  {
    var all := [c] + rest;
    if LeavesBlock(hex, all, n, size) {
      var k: nat :| StoredOutside(hex, all, k, n, size);
      LaterPiece(hex, c, rest, n, size, k);
    }
    if Store(hex, c, n, size) == Outside {
      assert StoredOutside(hex, all, 0, n, size);
    } else if Store(hex, c, n, size).Got? && LeavesBlock(hex, rest, n + 1, size) {
      var k: nat :| StoredOutside(hex, rest, k, n + 1, size);
      assert forall j :: 1 <= j < k + 1 ==> all[j] == rest[j - 1];
      assert StoredOutside(hex, all, k + 1, n, size);
    }
  }

  lemma LaterPiece(hex: HexReader, c: string, rest: seq<string>, n: nat, size: nat, k: nat)
    requires StoredOutside(hex, [c] + rest, k, n, size)
    ensures Store(hex, c, n, size) == Outside
            || (Store(hex, c, n, size).Got? && LeavesBlock(hex, rest, n + 1, size))
  {
    var all := [c] + rest;
    assert all[0] == c;
    if k > 0 {
      assert Component(hex, all[0]).Some?;
      forall j | 0 <= j < k - 1
        ensures Component(hex, rest[j]).Some?
      {
        assert Component(hex, all[j + 1]).Some?;
      }
      assert StoredOutside(hex, rest, k - 1, n + 1, size);
    }
  }

  /**
    For every text: the parser writes outside the value block exactly when it
    reaches a byte at number strlen / 2 + 2 or later after good components only.
   */
  lemma WritesOutsideIff(hex: HexReader, text: string)
    ensures Scan(hex, text) == Outside
            <==> exists k: nat :: StoredOutside(hex, PiecesFrom(text, 0), k, 0, BlockSize(text))
  {
    ScanOutsideIff(hex, text, 0, 0, BlockSize(text));
  }

  /**
    For every text: a pattern is returned inside the blocks exactly when all
    components are good and fit; no text that fits makes the parser leave them,
    and every good text that does not fit does.
   */
  lemma ParsesInsideIff(hex: HexReader, text: string)
    ensures ParseMask(hex, text).Got? <==> ParseItems(hex, text).Some? && FitsBuffer(text)
    ensures ParseMask(hex, text).Got? ==> ReadItems(hex, text) == Got(ParseItems(hex, text).value)
    ensures FitsBuffer(text) ==> ParseMask(hex, text) != Outside
    ensures ParseItems(hex, text).Some? && !FitsBuffer(text) ==> ParseMask(hex, text) == Outside
  {
    ScanItems(hex, text, 0, 0, BlockSize(text));
    WritesOutsideIff(hex, text);
    if ParseItems(hex, text).Some? {
      ItemCount(hex, text, 0);
    }
  }

  lemma ColonAt(t: string, i: nat)
    requires i <= |t| && (i < |t| ==> t[i] == ':')
    ensures IndexFrom(t, ':', i) == i && t[i..i] == ""
    ensures CountFrom(t, i) == if i == |t| then 1 else 1 + CountFrom(t, i + 1)
    ensures PiecesFrom(t, i) == if i == |t| then [""] else [""] + PiecesFrom(t, i + 1)
  {
    assert i == |t| ==> t[i..] == "";
  }

  /**
    Empty components count as bytes when strtoul reads them as 0: three colons make
    four of them for a block of three bytes, and the last is written behind it.
   */
  lemma ThreeColons(hex: HexReader)
    requires hex("").Some?
    ensures BlockSize(":::") == 3 && !FitsBuffer(":::")
    ensures StoredOutside(hex, PiecesFrom(":::", 0), 3, 0, 3) && Scan(hex, ":::") == Outside
  {
    var t := ":::";
    ColonAt(t, 0);
    ColonAt(t, 1);
    ColonAt(t, 2);
    ColonAt(t, 3);
    assert PiecesFrom(t, 0) == ["", "", "", ""];
    assert StoredOutside(hex, PiecesFrom(t, 0), 3, 0, 3);
    WritesOutsideIff(hex, t);
  }

  /** Wildcards are not written, but counted: here five components are returned for a block of four bytes. */
  lemma TooLongForItsBlock(hex: HexReader)
    requires hex("").Some?
    ensures BlockSize("::::-") == 4 && Scan(hex, "::::-").Got? && |Scan(hex, "::::-").value| == 5
    ensures ParseMask(hex, "::::-") == Outside
  {
    var t := "::::-";
    DashPieces(t);
    ItemsFour(hex, t);
    ItemCount(hex, t, 0);
    ScanItems(hex, t, 0, 0, 4);
    WritesOutsideIff(hex, t);
    DashStaysInside(hex, PiecesFrom(t, 0));
    ParsesInsideIff(hex, t);
  }

  lemma DashPieces(t: string)
    requires t == "::::-"
    ensures CountFrom(t, 0) == 5 && PiecesFrom(t, 0)[4] == "-"
  {
    ColonAt(t, 0);
    ColonAt(t, 1);
    ColonAt(t, 2);
    ColonAt(t, 3);
    assert IndexFrom(t, ':', 4) == 5 && t[4..] == "-";
    assert CountFrom(t, 4) == 1 && PiecesFrom(t, 4)[0] == "-";
    assert PiecesFrom(t, 3)[1] == "-";
    assert PiecesFrom(t, 2)[2] == "-";
    assert PiecesFrom(t, 1)[3] == "-";
  }

  lemma DashStaysInside(hex: HexReader, pieces: seq<string>)
    requires |pieces| == 5 && pieces[4] == "-"
    ensures !LeavesBlock(hex, pieces, 0, 4)
  {
    forall k: nat
      ensures !StoredOutside(hex, pieces, k, 0, 4)
    {
      if k == 4 {
        assert Wildcard(pieces[4]);
      }
    }
  }

  lemma ItemsFour(hex: HexReader, t: string)
    requires hex("").Some? && t == "::::-"
    ensures ItemsFrom(hex, t, 0).Some?
  {
    ColonAt(t, 0);
    ColonAt(t, 1);
    ColonAt(t, 2);
    ColonAt(t, 3);
    assert IndexFrom(t, ':', 4) == 5 && t[4..5] == "-";
    assert ItemsFrom(hex, t, 4).Some?;
    assert ItemsFrom(hex, t, 3).Some?;
    assert ItemsFrom(hex, t, 2).Some?;
    assert ItemsFrom(hex, t, 1).Some?;
  }

  /** strtoul reads an empty component as 0. */
  lemma StrtoulReadsNothing()
    ensures StrtoulByte("") == Some(0)
  {
    assert SkipSpaces("", 0) == 0 && SkipDigits("", 0, 16) == 0;
  }

  // ---- printing --------------------------------------------------------------------------

  /** The items a pattern shows. */
  function ItemsOf(p: Pattern): (items: Items)
    ensures |items| == |p.val|
  {
    seq(|p.val|, k requires 0 <= k < |p.val| => if MaskBit(p.mask, k) then Some(p.val[k]) else None)
  }

  function PrintItem(item: Option<byte>): (s: string)
    ensures |s| == 2
  {
    if item.Some? then HexByte(item.value) else "--"
  }

  function PrintItems(items: Items): string
  {
    if items == [] then ""
    else if |items| == 1 then PrintItem(items[0])
    else PrintItem(items[0]) + ":" + PrintItems(items[1..])
  }

  lemma {:induction false} PrintSnoc(items: Items, item: Option<byte>)
    ensures PrintItems(items + [item]) == PrintItems(items) + (if items == [] then "" else ":") + PrintItem(item)
  {
    if items == [] {
      assert [] + [item] == [item];
      assert "" + "" + PrintItem(item) == PrintItem(item);
    } else {
      var all := items + [item];
      assert all[1..] == items[1..] + [item];
      PrintSnoc(items[1..], item);
    }
  }

  /** One byte of a pattern, as the mask test of the show handlers prints it. */
  function ShowByte(p: Pattern, i: nat): (s: string)
    requires i < |p.val| && |p.mask| == DivRoundUp(|p.val|)
    ensures s == PrintItem(ItemsOf(p)[i])
  {
    AndPow2(p.mask[i / 8], i % 8);
    assert Shl(1, i % 8) == Pow2(i % 8);
    if And(p.mask[i / 8], Shl(1, i % 8)) != 0 then HexByte(p.val[i]) else "--"
  }

  /** The printing loop of the show handlers, for a mask of the right length. */
  method PrintPattern(p: Pattern) returns (text: string)
    requires |p.mask| == DivRoundUp(|p.val|)
    ensures text == PrintItems(ItemsOf(p))
  {
    text := "";
    ghost var items := ItemsOf(p);
    for i := 0 to |p.val|
      invariant text == PrintItems(items[..i]) + (if 0 < i < |p.val| then ":" else "")
    {
      PrintSnoc(items[..i], items[i]);
      assert items[..i + 1] == items[..i] + [items[i]];
      text := text + ShowByte(p, i);
      assert text == PrintItems(items[..i + 1]);
      if i != |p.val| - 1 {
        text := text + ":";
      }
    }
    assert items[..|p.val|] == items;
  }

  // ---- round trip ------------------------------------------------------------------------

  /** A reader that understands two-digit bytes. */
  ghost predicate ReadsBytes(hex: HexReader) { forall b: byte :: hex(HexByte(b)) == Some(b) }

  lemma ItemComponent(hex: HexReader, item: Option<byte>)
    requires ReadsBytes(hex)
    ensures Component(hex, PrintItem(item)) == Some(item)
    ensures PrintItem(item)[0] != ':' && PrintItem(item)[1] != ':'
  {
    if item.Some? {
      var s := HexByte(item.value);
      assert HexVal(s[0]) >= 0 && HexVal(s[1]) >= 0;
      assert HexVal('-') < 0 && HexVal('x') < 0 && HexVal(':') < 0;
    }
  }

  lemma {:induction false} ParsePrintedAt(hex: HexReader, text: string, pos: nat, items: Items)
    requires ReadsBytes(hex) && items != [] && pos <= |text| && text[pos..] == PrintItems(items)
    ensures ItemsFrom(hex, text, pos) == Some(items)
    decreases |items|
  {
    var c := PrintItem(items[0]);
    ItemComponent(hex, items[0]);
    FirstComponent(text, pos, items);
    if |items| > 1 {
      ParsePrintedAt(hex, text, pos + 3, items[1..]);
      assert ItemsFrom(hex, text, pos) == Prepend([items[0]], Some(items[1..]));
      assert items == [items[0]] + items[1..];
    } else {
      assert items == [items[0]];
    }
  }

  lemma FirstComponent(text: string, pos: nat, items: Items)
    requires items != [] && pos <= |text| && text[pos..] == PrintItems(items)
    requires PrintItem(items[0])[0] != ':' && PrintItem(items[0])[1] != ':'
    ensures IndexFrom(text, ':', pos) == pos + 2 && text[pos..pos + 2] == PrintItem(items[0])
    ensures if |items| == 1 then |text| == pos + 2 else pos + 3 <= |text| && text[pos + 3..] == PrintItems(items[1..])
  {
    var s, c := text[pos..], PrintItem(items[0]);
    assert text[pos] == s[0] == c[0] && text[pos + 1] == s[1] == c[1];
    assert text[pos..pos + 2] == s[..2] == c;
    if |items| > 1 {
      var rest := PrintItems(items[1..]);
      assert s == c + ":" + rest;
      assert text[pos + 2] == s[2] == ':';
      assert text[pos + 3..] == s[3..] == rest;
    }
    assert IndexFrom(text, ':', pos + 2) == pos + 2;
    assert IndexFrom(text, ':', pos + 1) == pos + 2;
  }

  /**
    Printing a pattern and parsing the text back gives the same items, for every
    pattern but the empty one, whose empty text is not parsed as empty.
   */
  lemma ParsePrinted(hex: HexReader, items: Items)
    requires ReadsBytes(hex)
    ensures ParseItems(hex, PrintItems(items)) == Some(items) <==> items != []
  {
    var text := PrintItems(items);
    if items != [] {
      assert text[0..] == text;
      ParsePrintedAt(hex, text, 0, items);
    } else if ParseItems(hex, text).Some? {
      ItemCount(hex, text, 0);
    }
  }

  lemma {:induction false} PrintedFits(items: Items, text: string, pos: nat)
    requires items != [] && pos <= |text| && text[pos..] == PrintItems(items)
    requires forall k :: 0 <= k < |items| ==> PrintItem(items[k])[0] != ':' && PrintItem(items[k])[1] != ':'
    ensures NoneEmpty(text, pos)
    decreases |items|
  {
    FirstComponent(text, pos, items);
    if |items| > 1 {
      PrintedFits(items[1..], text, pos + 3);
    }
  }

  /** A printed pattern also fits the blocks that are allocated to parse it. */
  lemma PrintedStaysInside(hex: HexReader, items: Items)
    requires ReadsBytes(hex) && items != []
    ensures ReadItems(hex, PrintItems(items)) == Got(items)
  {
    var text := PrintItems(items);
    forall k | 0 <= k < |items|
      ensures PrintItem(items[k])[0] != ':' && PrintItem(items[k])[1] != ':'
    {
      ItemComponent(hex, items[k]);
    }
    assert text[0..] == text;
    PrintedFits(items, text, 0);
    NonEmptyFits(text);
    ParsePrinted(hex, items);
    ParsesInsideIff(hex, text);
  }

  /** A reparsed pattern has the shown bits and bytes, and zero in wildcard places. */
  lemma ReparsedPattern(hex: HexReader, p: Pattern, q: Pattern, k: nat)
    requires ReadsBytes(hex) && p.val != [] && k < |p.val|
    requires ParseItems(hex, PrintItems(ItemsOf(p))).Some?
    requires Represents(q, ParseItems(hex, PrintItems(ItemsOf(p))).value)
    ensures |q.val| == |p.val| && (MaskBit(q.mask, k) <==> MaskBit(p.mask, k))
    ensures q.val[k] == if MaskBit(p.mask, k) then p.val[k] else 0
  {
    var items := ItemsOf(p);
    ParsePrinted(hex, items);
    assert MaskBit(q.mask, k) <==> k < |items| && items[k].Some?;
    assert q.val[k] == if items[k].Some? then items[k].value else 0;
  }

  // ---- meaning ---------------------------------------------------------------------------

  /** The packet filter: bytes at the offset agree wherever the mask has a bit. */
  ghost predicate PatternMatches(p: Pattern, packet: seq<byte>, offset: nat)
  {
    offset + |p.val| <= |packet|
    && forall k :: 0 <= k < |p.val| && MaskBit(p.mask, k) ==> packet[offset + k] == p.val[k]
  }

  ghost predicate ItemsMatch(items: Items, packet: seq<byte>, offset: nat)
  {
    offset + |items| <= |packet|
    && forall k :: 0 <= k < |items| && items[k].Some? ==> packet[offset + k] == items[k].value
  }

  /** Values and mask accept exactly the packets the item list accepts. */
  lemma SamePackets(p: Pattern, items: Items, packet: seq<byte>, offset: nat)
    requires Represents(p, items)
    ensures PatternMatches(p, packet, offset) <==> ItemsMatch(items, packet, offset)
  {
    forall k | 0 <= k < |items|
      ensures MaskBit(p.mask, k) <==> items[k].Some?
    {
      var n: nat := k;
      assert MaskBit(p.mask, n) <==> n < |items| && items[n].Some?;
    }
  }

  // ---- strtoul as the reader -----------------------------------------------------------------

  /** strtoul into an int, refused when characters are left or it is not 0..255. */
  function StrtoulByte(c: string): Option<byte>
  {
    var (v, end) := Strtoul(c, 16);
    if end < |c| then None
    else if ToU32(v) > 255 then None
    else Some(ToU32(v))
  }

  lemma StrtoulReadsBytes()
    ensures ReadsBytes(StrtoulByte)
  {
    forall b: byte
      ensures StrtoulByte(HexByte(b)) == Some(b)
    {
      var s := HexByte(b);
      assert SkipSpaces(s, 0) == 0;
      assert SkipDigits(s, 2, 16) == 2 && SkipDigits(s, 1, 16) == 2 && SkipDigits(s, 0, 16) == 2;
      assert DigitsValue(s, 0, 1, 16) == HexVal(s[0]);
      assert DigitsValue(s, 0, 2, 16) == HexVal(s[0]) * 16 + HexVal(s[1]);
    }
  }
}
