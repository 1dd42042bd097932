/**
  SSIDs as printed text: printable bytes stand for themselves, all others and
  the backslash as \xHH, and a space only where it is neither first nor last.
 */
module SsidEscape {
  import opened Bits
  import opened CStrings

  const SPACE: byte := 32
  const BACKSLASH: byte := 92

  /** isprint in the C locale. */
  predicate IsPrint(b: byte) { 32 <= b <= 126 }

  predicate Inner(data: seq<byte>, i: nat) { 0 < i < |data| - 1 }

  /** What is printed for one byte. */
  function Piece(data: seq<byte>, i: nat): (s: string)
    requires i < |data|
  {
    var b := data[i];
    if IsPrint(b) && b != SPACE && b != BACKSLASH then [b as char]
    else if b == SPACE && Inner(data, i) then [' ']
    else ['\\', 'x'] + HexByte(b)
  }

  function EscapedFrom(data: seq<byte>, i: nat): string
    requires i <= |data|
    decreases |data| - i
  {
    if i == |data| then [] else Piece(data, i) + EscapedFrom(data, i + 1)
  }

  function Escaped(data: seq<byte>): string { EscapedFrom(data, 0) }

  /** One round of the printing loop. */
  method PrintByte(data: seq<byte>, i: nat) returns (s: string)
    requires i < |data|
    ensures s == Piece(data, i)
  {
    var b := data[i];
    if IsPrint(b) && b != SPACE && b != BACKSLASH {
      s := [b as char];
    } else if b == SPACE && i != 0 && i != |data| - 1 {
      s := [' '];
    } else {
      s := ['\\', 'x'] + HexByte(b);
    }
  }

  lemma EscapedStep(text: string, data: seq<byte>, i: nat, p: string)
    requires i < |data| && p == Piece(data, i)
    ensures text + EscapedFrom(data, i) == text + p + EscapedFrom(data, i + 1)
  {
    var rest := EscapedFrom(data, i + 1);
    assert text + (p + rest) == text + p + rest;
  }

  /** print_ssid_escaped. */
  method PrintSsidEscaped(data: seq<byte>) returns (text: string)
    ensures text == Escaped(data)
  {
    text := [];
    for i := 0 to |data|
      invariant text + EscapedFrom(data, i) == Escaped(data)
    {
      var p := PrintByte(data, i);
      EscapedStep(text, data, i, p);
      text := text + p;
    }
  }

  // ---- the way back -----------------------------------------------------------------

  /** A decoder of \xHH and of characters that stand for themselves. */
  function Unescape(s: string): Option<seq<byte>>
    decreases |s|
  {
    if s == [] then Some([])
    else if s[0] == '\\' then
      if |s| < 4 || s[1] != 'x' || HexVal(s[2]) < 0 || HexVal(s[3]) < 0 then None
      else Prepend([HexVal(s[2]) * 16 + HexVal(s[3])], Unescape(s[4..]))
    else if s[0] as int >= 256 then None
    else Prepend([s[0] as int], Unescape(s[1..]))
  }

  lemma UnescapePlain(c: char, rest: string)
    requires c != '\\' && c as int < 256
    ensures Unescape([c] + rest) == Prepend([c as int], Unescape(rest))
  {
    assert ([c] + rest)[1..] == rest;
  }

  lemma UnescapeHex(h: string, rest: string)
    requires |h| == 2 && HexVal(h[0]) >= 0 && HexVal(h[1]) >= 0
    ensures Unescape(['\\', 'x'] + h + rest) == Prepend([HexVal(h[0]) * 16 + HexVal(h[1])], Unescape(rest))
  {
    var s := ['\\', 'x'] + h + rest;
    assert s[4..] == rest && s[2] == h[0] && s[3] == h[1];
  }

  /** A printed piece is read as its byte. */
  lemma UnescapePiece(data: seq<byte>, i: nat, rest: string)
    requires i < |data|
    ensures Unescape(Piece(data, i) + rest) == Prepend([data[i]], Unescape(rest))
  {
    var b := data[i];
    if (IsPrint(b) && b != SPACE && b != BACKSLASH) || (b == SPACE && Inner(data, i)) {
      assert Piece(data, i) == [b as char] && '\\' as int == 92 && ' ' as int == 32;
      UnescapePlain(b as char, rest);
    } else {
      UnescapeHex(HexByte(b), rest);
    }
  }

  lemma {:induction false} UnescapeFrom(data: seq<byte>, i: nat)
    requires i <= |data|
    ensures Unescape(EscapedFrom(data, i)) == Some(data[i..])
    decreases |data| - i
  {
    if i == |data| {
      assert data[i..] == [];
    } else {
      var rest := EscapedFrom(data, i + 1);
      UnescapeFrom(data, i + 1);
      UnescapePiece(data, i, rest);
      PrependTail(data, i);
      assert EscapedFrom(data, i) == Piece(data, i) + rest;
    }
  }

  lemma PrependTail(data: seq<byte>, i: nat)
    requires i < |data|
    ensures Prepend([data[i]], Some(data[i + 1..])) == Some(data[i..])
  {
    assert data[i..] == [data[i]] + data[i + 1..];
  }

  // ---- what the text looks like ---------------------------------------------------------

  ghost predicate Printable(s: string) { forall k :: 0 <= k < |s| ==> ' ' <= s[k] <= '~' }

  lemma PieceLooks(data: seq<byte>, i: nat)
    requires i < |data|
    ensures 1 <= |Piece(data, i)| <= 4 && Printable(Piece(data, i))
    ensures !Inner(data, i) ==> Piece(data, i)[0] != ' ' && Piece(data, i)[|Piece(data, i)| - 1] != ' '
  {
    var h := HexByte(data[i]);
    assert HexVal(' ') < 0 && HexVal(h[0]) >= 0 && HexVal(h[1]) >= 0;
  }

  lemma {:induction false} EscapedLooks(data: seq<byte>, i: nat)
    requires i <= |data|
    ensures Printable(EscapedFrom(data, i)) && |data| - i <= |EscapedFrom(data, i)| <= 4 * (|data| - i)
    ensures i < |data| ==> EscapedFrom(data, i)[|EscapedFrom(data, i)| - 1] != ' '
    decreases |data| - i
  {
    if i < |data| {
      EscapedLooks(data, i + 1);
      PieceLooks(data, i);
      var p, rest := Piece(data, i), EscapedFrom(data, i + 1);
      var all := p + rest;
      assert i + 1 < |data| ==> all[|all| - 1] == rest[|rest| - 1];
      assert i + 1 == |data| ==> all == p;
    }
  }

  /**
    For every SSID: the printed text can be read back, is all printable, has at
    most four characters a byte and neither begins nor ends with a space.
   */
  lemma EscapingIsReversible(data: seq<byte>)
    ensures Unescape(Escaped(data)) == Some(data)
    ensures Printable(Escaped(data)) && |Escaped(data)| <= 4 * |data|
    ensures data != [] ==> var t := Escaped(data); t != [] && t[0] != ' ' && t[|t| - 1] != ' '
  {
    UnescapeFrom(data, 0);
    assert data[0..] == data;
    EscapedLooks(data, 0);
    if data != [] {
      PieceLooks(data, 0);
      assert Escaped(data)[0] == Piece(data, 0)[0];
    }
  }

  /** A byte that stands for itself: printable, no backslash, and a space only between other bytes. */
  predicate Plain(data: seq<byte>, i: nat)
    requires i < |data|
  {
    (33 <= data[i] <= 126 && data[i] != 92) || (data[i] == 32 && 0 < i && i + 1 < |data|)
  }

  /** The text of a byte: itself, or a backslash, an x and two lower-case hex digits. */
  function PlainOrHex(data: seq<byte>, i: nat): string
    requires i < |data|
  {
    var b, digits := data[i], "0123456789abcdef";
    if Plain(data, i) then [b as char] else ['\\', 'x', digits[b / 16], digits[b % 16]]
  }

  lemma PieceIs(data: seq<byte>, i: nat)
    requires i < |data|
    ensures Piece(data, i) == PlainOrHex(data, i)
  {
    var b, digits := data[i], "0123456789abcdef";
    assert ' ' as int == 32;
    assert forall k :: 0 <= k < 16 ==> HexDigit(k) == digits[k];
    assert ['\\', 'x'] + HexByte(b) == ['\\', 'x', digits[b / 16], digits[b % 16]];
  }

  /** How many bytes do not stand for themselves. */
  function Escapes(data: seq<byte>, i: nat): nat
    requires i <= |data|
    decreases |data| - i
  {
    if i == |data| then 0 else (if Plain(data, i) then 0 else 1) + Escapes(data, i + 1)
  }

  /** Nothing is escaped that need not be: each byte takes one character, or four if it cannot stand for itself. */
  lemma {:induction false} EscapedLength(data: seq<byte>, i: nat)
    requires i <= |data|
    ensures |EscapedFrom(data, i)| == |data| - i + 3 * Escapes(data, i)
    ensures i < |data| ==> PlainOrHex(data, i) <= EscapedFrom(data, i)
    decreases |data| - i
  {
    if i < |data| {
      PieceIs(data, i);
      EscapedLength(data, i + 1);
    }
  }
}
