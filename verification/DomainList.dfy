/**
  The domain name list of a BSS: comma-separated names stored one after the
  other, each behind a byte with its length.
 */
module DomainList {
  import opened Bits
  import opened CStrings

  const COMMA: byte := 44

  /** The next comma from a position on, or the end. */
  function CommaFrom(s: seq<byte>, pos: nat): (e: nat)
    requires pos <= |s|
    ensures pos <= e <= |s| && (e < |s| ==> s[e] == COMMA)
    decreases |s| - pos
  {
    if pos == |s| || s[pos] == COMMA then pos else CommaFrom(s, pos + 1)
  }

  /** The names from a position on. */
  function NamesFrom(s: seq<byte>, pos: nat): (r: seq<seq<byte>>)
    requires pos <= |s|
    ensures |r| >= 1
    decreases |s| - pos
  {
    var e := CommaFrom(s, pos);
    if e == |s| then [s[pos..]] else [s[pos..e]] + NamesFrom(s, e + 1)
  }

  /** A name behind its length, which is cut to a byte. */
  function Prefixed(name: seq<byte>): seq<byte> { [|name| % 256] + name }

  function Encode(names: seq<seq<byte>>): seq<byte>
  {
    if names == [] then [] else Prefixed(names[0]) + Encode(names[1..])
  }

  // ---- the two loops ------------------------------------------------------------------

  /** How many names there are from a position on. */
  function CountFrom(s: seq<byte>, pos: nat): (n: nat)
    requires pos <= |s|
    ensures n >= 1
    decreases |s| - pos
  {
    var e := CommaFrom(s, pos);
    if e == |s| then 1 else 1 + CountFrom(s, e + 1)
  }

  method CountDomains(s: seq<byte>) returns (n: nat)
    ensures n == CountFrom(s, 0)
  {
    n := 1;
    var tok := 0;
    var c := CommaFrom(s, tok);
    while c < |s|
      invariant 0 <= tok <= |s| && c == CommaFrom(s, tok)
      invariant n + CountFrom(s, tok) == 1 + CountFrom(s, 0)
      decreases |s| - tok
    {
      n, tok := n + 1, c + 1;
      c := CommaFrom(s, tok);
    }
  }

  predicate NameStarts(s: seq<byte>, k: nat)
    requires k <= |s|
  {
    k == 0 || s[k - 1] == COMMA
  }

  /** The stored byte at a position: a length where a name starts, else the text one place back. */
  function StoredAt(s: seq<byte>, k: nat): byte
    requires k <= |s|
  {
    if NameStarts(s, k) then (CommaFrom(s, k) - k) % 256 else s[k - 1]
  }

  /** The length byte and the memcpy behind it. */
  method PutName(list: array<byte>, at: nat, name: seq<byte>)
    requires at + 1 + |name| <= list.Length
    modifies list
    ensures list[at] == |name| % 256
    ensures forall i :: 0 <= i < |name| ==> list[at + 1 + i] == name[i]
    ensures forall k :: 0 <= k < at ==> list[k] == old(list[k])
  {
    list[at] := |name| % 256;
    for i := 0 to |name|
      invariant list[at] == |name| % 256
      invariant forall k :: 0 <= k < i ==> list[at + 1 + k] == name[k]
      invariant forall k :: 0 <= k < at ==> list[k] == old(list[k])
    {
      list[at + 1 + i] := name[i];
    }
  }

  /** One round of the loop: the name at tok. */
  method TakeName(list: array<byte>, s: seq<byte>, tok: nat) returns (e: nat)
    requires tok <= |s| && list.Length == |s| + 1 && NameStarts(s, tok)
    requires forall k :: 0 <= k < tok ==> list[k] == StoredAt(s, k)
    modifies list
    ensures e == CommaFrom(s, tok) && forall k :: 0 <= k <= e ==> list[k] == StoredAt(s, k)
  {
    e := CommaFrom(s, tok);
    NoCommaBefore(s, tok);
    var name := s[tok..e];
    PutName(list, tok, name);
    forall k | tok < k <= e
      ensures list[k] == StoredAt(s, k)
    {
      assert list[tok + 1 + (k - tok - 1)] == name[k - tok - 1] == s[k - 1];
    }
  }

  /** The loop over the names. */
  method FillDomains(s: seq<byte>, n: nat, list: array<byte>)
    requires n == CountFrom(s, 0) && list.Length == |s| + 1
    modifies list
    ensures forall k :: 0 <= k <= |s| ==> list[k] == StoredAt(s, k)
  {
    var tok: nat, at: nat, j: nat := 0, 0, 0;
    while j < n
      invariant j <= n && tok <= |s| && at <= |s| + 1
      invariant forall k :: 0 <= k < at ==> list[k] == StoredAt(s, k)
      invariant if j < n then at == tok && NameStarts(s, tok) && CountFrom(s, tok) == n - j else at == |s| + 1
    {
      var e := TakeName(list, s, tok);
      at := at + (e - tok) + 1;
      j := j + 1;
      if e < |s| {
        tok := e + 1;
      }
    }
  }

  /** From the start of a name on, the stored bytes are the names behind their lengths. */
  lemma {:induction false} StoredIsEncoded(s: seq<byte>, b: seq<byte>, pos: nat)
    requires pos <= |s| && NameStarts(s, pos) && |b| == |s| + 1
    requires forall k :: 0 <= k <= |s| ==> b[k] == StoredAt(s, k)
    ensures b[pos..] == Encode(NamesFrom(s, pos))
    decreases |s| - pos
  {
    var e := CommaFrom(s, pos);
    StoredName(s, b, pos);
    if e == |s| {
      assert [s[pos..]][1..] == [];
      assert b[pos..e + 1] == b[pos..];
    } else {
      StoredIsEncoded(s, b, e + 1);
      NamesUnfold(s, pos, e);
      EncodeMore(s[pos..e], NamesFrom(s, e + 1));
      assert b[pos..] == b[pos..e + 1] + b[e + 1..];
    }
  }

  lemma EncodeMore(name: seq<byte>, names: seq<seq<byte>>)
    ensures Encode([name] + names) == Prefixed(name) + Encode(names)
  {
    assert ([name] + names)[1..] == names;
  }

  lemma StoredName(s: seq<byte>, b: seq<byte>, pos: nat)
    requires pos <= |s| && NameStarts(s, pos) && |b| == |s| + 1
    requires forall k :: 0 <= k <= |s| ==> b[k] == StoredAt(s, k)
    ensures var e := CommaFrom(s, pos); b[pos..e + 1] == Prefixed(s[pos..e])
  {
    var e := CommaFrom(s, pos);
    NoCommaBefore(s, pos);
    var p := Prefixed(s[pos..e]);
    forall k | 0 <= k < |p|
      ensures b[pos + k] == p[k]
    {
      if k > 0 {
        assert p[k] == s[pos + k - 1];
      }
    }
  }

  /**
    The domain_name branch: the buffer of strlen + 1 bytes is filled exactly,
    whatever the text.
   */
  method StoreDomains(s: seq<byte>) returns (list: array<byte>)
    ensures fresh(list) && list.Length == |s| + 1
    ensures list[..] == Encode(NamesFrom(s, 0))
  {
    var n := CountDomains(s);
    list := new byte[|s| + 1](_ => 0);
    FillDomains(s, n, list);
    StoredIsEncoded(s, list[..], 0);
    assert list[..][0..] == list[..];
  }

  // ---- decoding -------------------------------------------------------------------------

  /** Length-prefixed names up to the end of the bytes. */
  function Decode(b: seq<byte>): Option<seq<seq<byte>>>
    decreases |b|
  {
    if b == [] then Some([])
    else
      var n: int := b[0];
      if 1 + n > |b| then None else Prepend([b[1..1 + n]], Decode(b[1 + n..]))
  }

  ghost predicate Short(names: seq<seq<byte>>) { forall i :: 0 <= i < |names| ==> |names[i]| <= 255 }

  lemma DecodeHead(name: seq<byte>, rest: seq<byte>)
    ensures |name| <= 255 ==> Decode(Prefixed(name) + rest) == Prepend([name], Decode(rest))
    ensures |name| > 255 ==> var r := Decode(Prefixed(name) + rest); r.Some? ==> |r.value[0]| <= 255
  {
    var b := Prefixed(name) + rest;
    if |name| <= 255 {
      assert b[0] == |name| && b[1..1 + |name|] == name && b[1 + |name|..] == rest;
    }
  }

  /** The stored names come back exactly when each of them has at most 255 bytes. */
  lemma {:induction false} DecodeEncoded(names: seq<seq<byte>>)
    ensures Decode(Encode(names)) == Some(names) <==> Short(names)
    decreases |names|
  {
    if names != [] {
      var name, rest := names[0], names[1..];
      DecodeEncoded(rest);
      DecodeHead(name, Encode(rest));
      assert names == [name] + rest;
      assert Short(names) <==> |name| <= 255 && Short(rest);
    }
  }

  /** A name of 256 bytes is stored with length 0: it cannot come back. */
  lemma LongNameLost(name: seq<byte>)
    requires |name| == 256
    ensures var r := Decode(Encode([name])); r != Some([name]) && (r.Some? ==> r.value[0] == [])
  {
    var b := Encode([name]);
    DecodeEncoded([name]);
    assert [name][0] == name;
    assert [name][1..] == [] && b == Prefixed(name) + [];
    assert b[0] == 0 && b[1..1] == [];
  }

  // ---- the text again ----------------------------------------------------------------------

  /** Names with a comma, the byte 44, between them. */
  function Join(names: seq<seq<byte>>): seq<byte>
  {
    if names == [] then [] else if |names| == 1 then names[0] else names[0] + [44] + Join(names[1..])
  }

  lemma NamesUnfold(s: seq<byte>, pos: nat, e: nat)
    requires pos <= |s| && e == CommaFrom(s, pos) < |s|
    ensures NamesFrom(s, pos) == [s[pos..e]] + NamesFrom(s, e + 1)
  {
  }

  lemma CutAtComma(s: seq<byte>, pos: nat, e: nat)
    requires pos <= e < |s| && s[e] == COMMA
    ensures s[pos..] == s[pos..e] + [COMMA] + s[e + 1..]
  {
  }

  lemma JoinMore(name: seq<byte>, names: seq<seq<byte>>)
    requires names != []
    ensures Join([name] + names) == name + [COMMA] + Join(names)
  {
    assert ([name] + names)[1..] == names;
  }

  lemma {:induction false} JoinNames(s: seq<byte>, pos: nat)
    requires pos <= |s|
    ensures Join(NamesFrom(s, pos)) == s[pos..]
    decreases |s| - pos
  {
    var e := CommaFrom(s, pos);
    if e < |s| {
      JoinNames(s, e + 1);
      NamesUnfold(s, pos, e);
      JoinMore(s[pos..e], NamesFrom(s, e + 1));
      CutAtComma(s, pos, e);
    }
  }

  lemma {:induction false} NamesPlain(s: seq<byte>, pos: nat)
    requires pos <= |s|
    ensures forall i :: 0 <= i < |NamesFrom(s, pos)| ==> COMMA !in NamesFrom(s, pos)[i]
    decreases |s| - pos
  {
    var e := CommaFrom(s, pos);
    NoCommaBefore(s, pos);
    if e < |s| {
      NamesPlain(s, e + 1);
    }
  }

  lemma {:induction false} NoCommaBefore(s: seq<byte>, pos: nat)
    requires pos <= |s|
    ensures forall i :: pos <= i < CommaFrom(s, pos) ==> s[i] != COMMA
    decreases |s| - pos
  {
    if pos < |s| && s[pos] != COMMA {
      NoCommaBefore(s, pos + 1);
    }
  }

  /** The names fill exactly one byte more than the text from there on. */
  lemma {:induction false} EncodedLength(s: seq<byte>, pos: nat)
    requires pos <= |s|
    ensures |Encode(NamesFrom(s, pos))| == |s| - pos + 1
    decreases |s| - pos
  {
    var e := CommaFrom(s, pos);
    if e < |s| {
      EncodedLength(s, e + 1);
      assert NamesFrom(s, pos)[1..] == NamesFrom(s, e + 1);
    }
  }

  /**
    What is stored for a text decodes to comma-free names that, joined with
    commas, are the text: exactly when no name is longer than 255 bytes.
   */
  lemma StoredListRoundTrips(s: seq<byte>)
    ensures var names := NamesFrom(s, 0);
            && (Decode(Encode(names)) == Some(names) <==> Short(names))
            && |Encode(names)| == |s| + 1
            && Join(names) == s
            && forall i :: 0 <= i < |names| ==> 44 !in names[i]
  {
    DecodeEncoded(NamesFrom(s, 0));
    EncodedLength(s, 0);
    JoinNames(s, 0);
    assert s[0..] == s;
    NamesPlain(s, 0);
  }
}
