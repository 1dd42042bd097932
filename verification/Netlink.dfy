/**
  Netlink messages as append-only attribute trees: a stack of open nests, the
  innermost last. Puts go to the innermost nest; ending it files it in its parent.
 */
module Netlink {
  import opened Bits

  datatype Attr =
    | Flag(id: nat)
    | U8(id: nat, small: byte)
    | U32(id: nat, word: nat)
    | Bytes(id: nat, data: seq<byte>)
    | Text(id: nat, text: string)
    | Nest(id: nat, kids: seq<Attr>)

  datatype Frame = Frame(id: nat, kids: seq<Attr>)

  type Msg = m: seq<Frame> | |m| >= 1 witness [Frame(0, [])]

  function Put(m: Msg, a: Attr): (r: Msg)
    ensures |r| == |m|
  {
    var top := m[|m| - 1];
    m[..|m| - 1] + [Frame(top.id, top.kids + [a])]
  }

  function Start(m: Msg, id: nat): (r: Msg)
    ensures |r| == |m| + 1
  {
    m + [Frame(id, [])]
  }

  function End(m: Msg): (r: Msg)
    requires |m| >= 2
    ensures |r| == |m| - 1
  {
    var top := m[|m| - 1];
    Put(m[..|m| - 1], Nest(top.id, top.kids))
  }

  /** Several puts in a row. */
  function PutAll(m: Msg, attrs: seq<Attr>): (r: Msg)
    ensures |r| == |m|
  {
    var top := m[|m| - 1];
    m[..|m| - 1] + [Frame(top.id, top.kids + attrs)]
  }

  lemma PutAllNone(m: Msg)
    ensures PutAll(m, []) == m
  {
    var top := m[|m| - 1];
    assert top.kids + [] == top.kids;
    assert m == m[..|m| - 1] + [top];
  }

  lemma PutAllMore(m: Msg, attrs: seq<Attr>, a: Attr)
    ensures Put(PutAll(m, attrs), a) == PutAll(m, attrs + [a])
  {
    var top, r := m[|m| - 1], PutAll(m, attrs);
    assert r[..|r| - 1] == m[..|m| - 1];
    assert top.kids + attrs + [a] == top.kids + (attrs + [a]);
  }

  lemma PutAllTwice(m: Msg, a: seq<Attr>, b: seq<Attr>)
    ensures PutAll(PutAll(m, a), b) == PutAll(m, a + b)
  {
    var top, r := m[|m| - 1], PutAll(m, a);
    assert r[..|r| - 1] == m[..|m| - 1];
    assert top.kids + a + b == top.kids + (a + b);
  }

  /** A nest that was started, filled and ended is one attribute of its parent. */
  lemma NestDone(m: Msg, id: nat, kids: seq<Attr>)
    ensures End(PutAll(Start(m, id), kids)) == Put(m, Nest(id, kids))
  {
    var s := Start(m, id);
    var r := PutAll(s, kids);
    assert r[..|r| - 1] == s[..|s| - 1] == m;
    assert [] + kids == kids;
  }
}
