/**
  Two walks over tagged data: information elements (one-byte length) in a scan
  result, and P2P attributes (two-byte length) inside a vendor element.
 */
module ElementWalk {
  import opened Bits
  import opened CStrings

  // ---- information elements ----------------------------------------------------------

  datatype Tagged = Tagged(id: byte, body: seq<byte>)

  type Element = e: Tagged | |e.body| <= 255 witness Tagged(0, [])

  function ElementBytes(e: Element): (s: seq<byte>)
    ensures |s| == 2 + |e.body|
  {
    var len: byte := |e.body|;
    [e.id, len] + e.body
  }

  function Concat(es: seq<Element>): seq<byte>
  {
    if es == [] then [] else ElementBytes(es[0]) + Concat(es[1..])
  }

  /** An element header the walk stops at: its position, tag and length byte. */
  datatype Visit = Visit(at: nat, id: byte, len: nat)

  /** The length byte of the header at a position. */
  function LenAt(ie: seq<byte>, pos: nat): nat
    requires pos + 2 <= |ie|
  {
    ie[pos + 1]
  }

  /** The headers print_ies visits from a position on, over a buffer's bytes. */
  function Walk(ie: seq<byte>, pos: nat): seq<Visit>
    decreases |ie| - pos
  {
    if pos + 2 <= |ie| && pos + LenAt(ie, pos) <= |ie| then
      [Visit(pos, ie[pos], LenAt(ie, pos))] + Walk(ie, pos + 2 + LenAt(ie, pos))
    else []
  }

  /** The walk loop; `left` is ielen, which may end up negative. */
  method PrintIes(ie: seq<byte>) returns (visits: seq<Visit>)
    ensures visits == Walk(ie, 0)
  {
    visits := [];
    var pos: nat, left: int := 0, |ie|;
    while left >= 2 && left >= LenAt(ie, pos)
      invariant left == |ie| - pos
      invariant Walk(ie, 0) == visits + Walk(ie, pos)
      decreases |ie| - pos
    {
      var len := LenAt(ie, pos);
      var v := Visit(pos, ie[pos], len);
      assert visits + ([v] + Walk(ie, pos + 2 + len)) == visits + [v] + Walk(ie, pos + 2 + len);
      visits := visits + [v];
      left, pos := left - (len + 2), pos + 2 + len;
    }
  }

  /** The header of an element laid out at a position. */
  function HeaderOf(e: Element, pos: nat): Visit { Visit(pos, e.id, |e.body|) }

  /** The headers of a list of elements laid out from a position on. */
  function Headers(es: seq<Element>, pos: nat): (r: seq<Visit>)
    ensures |r| == |es|
  {
    if es == [] then [] else [HeaderOf(es[0], pos)] + Headers(es[1..], pos + 2 + |es[0].body|)
  }

  /** Whether an element lies completely in the buffer at pos. */
  predicate WholeAt(ie: seq<byte>, pos: nat) { pos + 2 <= |ie| && pos + 2 + LenAt(ie, pos) <= |ie| }

  /** A header at pos whose length byte exceeds what is left by one or two bytes. */
  predicate OverrunAt(ie: seq<byte>, pos: nat)
  {
    pos + 2 <= |ie| && pos + LenAt(ie, pos) <= |ie| < pos + 2 + LenAt(ie, pos)
  }

  function ElementAt(ie: seq<byte>, pos: nat): Element
    requires WholeAt(ie, pos)
  {
    Tagged(ie[pos], ie[pos + 2..pos + 2 + LenAt(ie, pos)])
  }

  /** The elements that lie completely in ie[pos..], up to the first that does not. */
  function Whole(ie: seq<byte>, pos: nat): seq<Element>
    decreases |ie| - pos
  {
    if WholeAt(ie, pos) then [ElementAt(ie, pos)] + Whole(ie, pos + 2 + LenAt(ie, pos)) else []
  }

  /** Where those elements end. */
  function WholeEnd(ie: seq<byte>, pos: nat): (end: nat)
    ensures end >= pos && (pos <= |ie| ==> end <= |ie|)
    decreases |ie| - pos
  {
    if WholeAt(ie, pos) then WholeEnd(ie, pos + 2 + LenAt(ie, pos)) else pos
  }

  /** The whole elements are exactly the buffer up to where they end. */
  lemma {:induction false} WholeTiles(ie: seq<byte>, pos: nat)
    requires pos <= |ie|
    ensures Concat(Whole(ie, pos)) == ie[pos..WholeEnd(ie, pos)]
    decreases |ie| - pos
  {
    if WholeAt(ie, pos) {
      var next := pos + 2 + LenAt(ie, pos);
      WholeTiles(ie, next);
      var e, rest := ElementAt(ie, pos), Whole(ie, next);
      assert ([e] + rest)[1..] == rest;
      assert ElementBytes(e) == ie[pos..next];
    }
  }

  /**
    On every buffer the walk visits the whole elements from the front, in order,
    and then one more header exactly when that header overruns the buffer.
   */
  lemma {:induction false} WalkOnAnyBuffer(ie: seq<byte>, pos: nat)
    requires pos <= |ie|
    ensures var end := WholeEnd(ie, pos);
            Walk(ie, pos) == Headers(Whole(ie, pos), pos) + OverrunVisit(ie, end)
    decreases |ie| - pos
  {
    if WholeAt(ie, pos) {
      var next := pos + 2 + LenAt(ie, pos);
      WalkOnAnyBuffer(ie, next);
      WholeUnfold(ie, pos, ElementAt(ie, pos), next);
      WalkNext(ie, pos, next, Whole(ie, next), OverrunVisit(ie, WholeEnd(ie, next)));
    } else {
      WalkStops(ie, pos);
    }
  }

  /** The extra header, when there is one. */
  function OverrunVisit(ie: seq<byte>, end: nat): seq<Visit>
  {
    if OverrunAt(ie, end) then [Visit(end, ie[end], LenAt(ie, end))] else []
  }

  lemma WalkStops(ie: seq<byte>, pos: nat)
    requires pos <= |ie| && !WholeAt(ie, pos)
    ensures Walk(ie, pos) == [] + OverrunVisit(ie, pos)
  {
    if OverrunAt(ie, pos) {
      assert Walk(ie, pos + 2 + LenAt(ie, pos)) == [];
    }
  }

  lemma WalkNext(ie: seq<byte>, pos: nat, next: nat, rest: seq<Element>, tail: seq<Visit>)
    requires WholeAt(ie, pos) && next == pos + 2 + LenAt(ie, pos) && Walk(ie, next) == Headers(rest, next) + tail
    ensures Walk(ie, pos) == Headers([ElementAt(ie, pos)] + rest, pos) + tail
  {
    WalkUnfold(ie, pos, next);
    var e := ElementAt(ie, pos);
    HeadersCons(e, rest, pos);
    var h, hs := HeaderOf(e, pos), Headers(rest, next);
    assert [h] + (hs + tail) == [h] + hs + tail;
  }

  lemma WalkUnfold(ie: seq<byte>, pos: nat, next: nat)
    requires WholeAt(ie, pos) && next == pos + 2 + LenAt(ie, pos)
    ensures Walk(ie, pos) == [HeaderOf(ElementAt(ie, pos), pos)] + Walk(ie, next)
  {
  }

  lemma HeadersCons(e: Element, rest: seq<Element>, pos: nat)
    ensures Headers([e] + rest, pos) == [HeaderOf(e, pos)] + Headers(rest, pos + 2 + |e.body|)
  {
    assert ([e] + rest)[1..] == rest;
  }

  /** The first element of a laid-out list, as the buffer shows it. */
  lemma FirstLaidOut(ie: seq<byte>, pos: nat, es: seq<Element>)
    requires pos <= |ie| && es != [] && ie[pos..] == Concat(es)
    ensures WholeAt(ie, pos) && ElementAt(ie, pos) == es[0] && LenAt(ie, pos) == |es[0].body|
    ensures ie[pos + 2 + |es[0].body|..] == Concat(es[1..])
  {
    var d, h := Concat(es), ElementBytes(es[0]);
    var n := |h|;
    assert d[..n] == h && d[n..] == Concat(es[1..]);
    assert ie[pos] == d[0] == h[0] && ie[pos + 1] == d[1] == h[1];
    assert ie[pos + 2..pos + n] == ie[pos..][2..n];
    assert d[2..n] == d[..n][2..] == h[2..] == es[0].body;
    assert ie[pos + n..] == d[n..];
  }

  lemma WholeUnfold(ie: seq<byte>, pos: nat, e: Element, next: nat)
    requires WholeAt(ie, pos) && ElementAt(ie, pos) == e && next == pos + 2 + LenAt(ie, pos)
    ensures Whole(ie, pos) == [e] + Whole(ie, next) && WholeEnd(ie, pos) == WholeEnd(ie, next)
  {
  }

  lemma {:induction false} WholeOfConcat(ie: seq<byte>, pos: nat, es: seq<Element>)
    requires pos <= |ie| && ie[pos..] == Concat(es)
    ensures Whole(ie, pos) == es && WholeEnd(ie, pos) == |ie|
    decreases |es|
  {
    if es == [] {
      assert pos == |ie|;
    } else {
      FirstLaidOut(ie, pos, es);
      var next := pos + 2 + |es[0].body|;
      WholeOfConcat(ie, next, es[1..]);
      WholeUnfold(ie, pos, es[0], next);
    }
  }

  /** On a concatenation of elements the walk visits exactly those, in order. */
  lemma WalkOfConcat(es: seq<Element>)
    ensures Walk(Concat(es), 0) == Headers(es, 0)
    ensures Whole(Concat(es), 0) == es
  {
    var ie := Concat(es);
    assert ie[0..] == ie;
    WholeOfConcat(ie, 0, es);
    WalkOnAnyBuffer(ie, 0);
    assert Headers(es, 0) + [] == Headers(es, 0);
  }

  // ---- the SSID element ------------------------------------------------------------------

  /** The first visited header with tag 0. */
  function FirstSsid(ie: seq<byte>, pos: nat): Option<Visit>
    decreases |ie| - pos
  {
    if pos + 2 <= |ie| && pos + LenAt(ie, pos) <= |ie| then
      if ie[pos] == 0 then Some(Visit(pos, 0, LenAt(ie, pos)))
      else FirstSsid(ie, pos + 2 + LenAt(ie, pos))
    else None
  }

  /** The element selection of ie_ssid. */
  method IeSsid(ie: seq<byte>) returns (v: Option<Visit>)
    ensures v == FirstSsid(ie, 0)
  {
    var pos: nat, left: int := 0, |ie|;
    while left >= 2 && left >= LenAt(ie, pos)
      invariant left == |ie| - pos
      invariant FirstSsid(ie, 0) == FirstSsid(ie, pos)
      decreases |ie| - pos
    {
      var len := LenAt(ie, pos);
      if ie[pos] == 0 {
        return Some(Visit(pos, 0, len));
      }
      left, pos := left - (len + 2), pos + 2 + len;
    }
    return None;
  }

  /** The body of the first element with tag 0. */
  function FirstZeroBody(es: seq<Element>): Option<seq<byte>>
  {
    if es == [] then None else if es[0].id == 0 then Some(es[0].body) else FirstZeroBody(es[1..])
  }

  /** What a header announces, when it lies in the buffer. */
  predicate ShowsBody(ie: seq<byte>, v: Visit, body: seq<byte>)
  {
    v.at + 2 + v.len <= |ie| && ie[v.at + 2..v.at + 2 + v.len] == body
  }

  /** ie_ssid takes the body of the first SSID element of a concatenation. */
  lemma {:induction false} SsidOfConcat(ie: seq<byte>, pos: nat, es: seq<Element>)
    requires pos <= |ie| && ie[pos..] == Concat(es)
    ensures var v, body := FirstSsid(ie, pos), FirstZeroBody(es);
            (v.Some? <==> body.Some?) && (v.Some? ==> ShowsBody(ie, v.value, body.value))
    decreases |es|
  {
    if es != [] {
      FirstLaidOut(ie, pos, es);
      if es[0].id != 0 {
        SsidOfConcat(ie, pos + 2 + |es[0].body|, es[1..]);
      }
    }
  }

  /** The body a header announces lies in the buffer. */
  predicate BodyInside(ie: seq<byte>, v: Visit) { v.at + 2 + v.len <= |ie| }

  /** What ie_ssid selects, by the whole elements and by where they end. */
  ghost predicate Selects(ie: seq<byte>, v: Option<Visit>, es: seq<Element>, end: nat)
  {
    var body := FirstZeroBody(es);
    if body.Some? then v.Some? && ShowsBody(ie, v.value, body.value)
    else if OverrunAt(ie, end) && ie[end] == 0 then v == Some(Visit(end, 0, LenAt(ie, end)))
    else v.None?
  }

  /**
    On every buffer ie_ssid selects the first whole element with tag 0; without one
    it selects a last header with tag 0 that overruns the buffer, if there is one,
    and nothing otherwise.
   */
  lemma {:induction false} SsidOnAnyBuffer(ie: seq<byte>, pos: nat)
    requires pos <= |ie|
    ensures Selects(ie, FirstSsid(ie, pos), Whole(ie, pos), WholeEnd(ie, pos))
    decreases |ie| - pos
  {
    if WholeAt(ie, pos) {
      var e, next := ElementAt(ie, pos), pos + 2 + LenAt(ie, pos);
      SsidOnAnyBuffer(ie, next);
      WholeUnfold(ie, pos, e, next);
      FirstZeroCons(e, Whole(ie, next));
    } else if OverrunAt(ie, pos) {
      assert FirstSsid(ie, pos + 2 + LenAt(ie, pos)) == None;
    }
  }

  lemma FirstZeroCons(e: Element, rest: seq<Element>)
    ensures FirstZeroBody([e] + rest) == if e.id == 0 then Some(e.body) else FirstZeroBody(rest)
  {
    assert ([e] + rest)[1..] == rest;
  }

  /** The selected body lies in the buffer exactly when a whole element has tag 0. */
  lemma SsidInsideIff(ie: seq<byte>)
    requires FirstSsid(ie, 0).Some?
    ensures BodyInside(ie, FirstSsid(ie, 0).value) <==> FirstZeroBody(Whole(ie, 0)).Some?
  {
    SsidOnAnyBuffer(ie, 0);
  }

  /** An SSID header that promises one byte where none is left: it is visited and selected. */
  lemma OverrunSelected()
    ensures var ie: seq<byte> := [0, 1];
            && Whole(ie, 0) == [] && OverrunAt(ie, 0)
            && Walk(ie, 0) == [Visit(0, 0, 1)] && FirstSsid(ie, 0) == Some(Visit(0, 0, 1))
            && !BodyInside(ie, Visit(0, 0, 1))
  {
    var ie: seq<byte> := [0, 1];
    WalkOnAnyBuffer(ie, 0);
    SsidOnAnyBuffer(ie, 0);
    assert [] + [Visit(0, 0, 1)] == [Visit(0, 0, 1)];
  }

  // ---- P2P attributes ---------------------------------------------------------------------

  datatype Typed = Typed(kind: byte, value: seq<byte>)

  type Attribute = a: Typed | |a.value| < 65536 witness Typed(0, [])

  function AttributeBytes(a: Attribute): (s: seq<byte>)
    ensures |s| == 3 + |a.value|
  {
    var lo: byte, hi: byte := |a.value| % 256, |a.value| / 256;
    [a.kind, lo, hi] + a.value
  }

  function ConcatAttrs(attrs: seq<Attribute>): seq<byte>
  {
    if attrs == [] then [] else AttributeBytes(attrs[0]) + ConcatAttrs(attrs[1..])
  }

  /** The two-byte length in the attribute header at a position. */
  function SublenAt(d: seq<byte>, pos: nat): (n: nat)
    requires pos + 3 <= |d|
    ensures n < 65536
  {
    Le16(d[pos + 1], d[pos + 2])
  }

  predicate AttributeIn(d: seq<byte>, pos: nat) { pos + 3 <= |d| && SublenAt(d, pos) <= |d| - pos - 3 }

  function AttributeAt(d: seq<byte>, pos: nat): Attribute
    requires AttributeIn(d, pos)
  {
    Typed(d[pos], d[pos + 3..pos + 3 + SublenAt(d, pos)])
  }

  /** The attributes the loop of print_p2p takes from a position on. */
  function Attributes(d: seq<byte>, pos: nat): seq<Attribute>
    decreases |d| - pos
  {
    if AttributeIn(d, pos) then [AttributeAt(d, pos)] + Attributes(d, pos + 3 + SublenAt(d, pos)) else []
  }

  /** Where the loop stops and the reported tail begins. */
  function AttributesEnd(d: seq<byte>, pos: nat): (end: nat)
    ensures end >= pos && (pos <= |d| ==> end <= |d|)
    ensures !AttributeIn(d, end)
    decreases |d| - pos
  {
    if AttributeIn(d, pos) then AttributesEnd(d, pos + 3 + SublenAt(d, pos)) else pos
  }

  /** The loop, with the one-byte `len` it keeps: it never underflows. */
  method PrintP2p(d: seq<byte>) returns (attrs: seq<Attribute>, tail: seq<byte>)
    requires |d| <= 255
    ensures attrs == Attributes(d, 0) && tail == d[AttributesEnd(d, 0)..]
  {
    attrs := [];
    var pos: nat, len: byte := 0, |d|;
    while len >= 3
      invariant pos + len as int == |d|
      invariant Attributes(d, 0) == attrs + Attributes(d, pos)
      invariant AttributesEnd(d, 0) == AttributesEnd(d, pos)
      decreases len
    {
      var sublen := SublenAt(d, pos);
      if sublen > len as int - 3 {
        break;
      }
      var a, next := AttributeAt(d, pos), pos + 3 + sublen;
      assert attrs + ([a] + Attributes(d, next)) == attrs + [a] + Attributes(d, next);
      attrs := attrs + [a];
      pos, len := next, len as int - (sublen + 3);
    }
    assert attrs + [] == attrs;
    tail := d[pos..];
  }

  lemma SublenBytes(d: seq<byte>, pos: nat)
    requires AttributeIn(d, pos)
    ensures AttributeBytes(AttributeAt(d, pos)) == d[pos..pos + 3 + SublenAt(d, pos)]
  {
    var n := SublenAt(d, pos);
    assert n % 256 == d[pos + 1] as int && n / 256 == d[pos + 2] as int;
  }

  lemma SplitOnce(d: seq<byte>, pos: nat, next: nat, a: Attribute, rest: seq<Attribute>, tail: seq<byte>)
    requires pos <= next <= |d| && AttributeBytes(a) == d[pos..next]
    requires ConcatAttrs(rest) + tail == d[next..]
    ensures ConcatAttrs([a] + rest) + tail == d[pos..]
  {
    assert ([a] + rest)[1..] == rest;
    assert d[pos..next] + (ConcatAttrs(rest) + tail) == d[pos..next] + ConcatAttrs(rest) + tail;
    assert d[pos..] == d[pos..next] + d[next..];
  }

  /**
    Every input is whole attributes followed by the reported tail, which has no
    complete header or one that promises more than is left.
   */
  lemma {:induction false} P2pSplits(d: seq<byte>, pos: nat)
    requires pos <= |d|
    ensures ConcatAttrs(Attributes(d, pos)) + d[AttributesEnd(d, pos)..] == d[pos..]
    ensures !AttributeIn(d, AttributesEnd(d, pos))
    decreases |d| - pos
  {
    if AttributeIn(d, pos) {
      var next := pos + 3 + SublenAt(d, pos);
      P2pSplits(d, next);
      SublenBytes(d, pos);
      SplitOnce(d, pos, next, AttributeAt(d, pos), Attributes(d, next), d[AttributesEnd(d, next)..]);
    }
  }

  /** The first attribute of a laid-out list, as the buffer shows it. */
  lemma FirstAttribute(d: seq<byte>, pos: nat, attrs: seq<Attribute>)
    requires pos <= |d| && attrs != [] && d[pos..] == ConcatAttrs(attrs)
    ensures AttributeIn(d, pos) && AttributeAt(d, pos) == attrs[0] && SublenAt(d, pos) == |attrs[0].value|
    ensures d[pos + 3 + |attrs[0].value|..] == ConcatAttrs(attrs[1..])
  {
    var c, h := ConcatAttrs(attrs), AttributeBytes(attrs[0]);
    var n := |h|;
    assert c[..n] == h && c[n..] == ConcatAttrs(attrs[1..]);
    assert d[pos] == c[0] == h[0] && d[pos + 1] == c[1] == h[1] && d[pos + 2] == c[2] == h[2];
    assert d[pos + 3..pos + n] == d[pos..][3..n];
    assert c[3..n] == c[..n][3..] == h[3..] == attrs[0].value;
    assert d[pos + n..] == c[n..];
  }

  /** A concatenation of attributes splits into exactly those, with no tail. */
  lemma {:induction false} P2pOfConcat(d: seq<byte>, pos: nat, attrs: seq<Attribute>)
    requires pos <= |d| && d[pos..] == ConcatAttrs(attrs)
    ensures Attributes(d, pos) == attrs && AttributesEnd(d, pos) == |d|
    decreases |attrs|
  {
    if attrs == [] {
      assert pos == |d|;
    } else {
      FirstAttribute(d, pos, attrs);
      var next := pos + 3 + |attrs[0].value|;
      P2pOfConcat(d, next, attrs[1..]);
      AttributesUnfold(d, pos, attrs[0], next);
    }
  }

  lemma AttributesUnfold(d: seq<byte>, pos: nat, a: Attribute, next: nat)
    requires AttributeIn(d, pos) && AttributeAt(d, pos) == a && next == pos + 3 + SublenAt(d, pos)
    ensures Attributes(d, pos) == [a] + Attributes(d, next) && AttributesEnd(d, pos) == AttributesEnd(d, next)
  {
  }
}
