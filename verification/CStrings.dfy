/**
  The parts of the C string library the modelled code uses. A C string is the
  sequence of its characters before the terminating NUL.
 */
module CStrings {
  import opened Bits

  datatype Option<+T> = None | Some(value: T)

  /** A partial result put in front of the result for the rest, if there is one. */
  function Prepend<T>(front: seq<T>, rest: Option<seq<T>>): Option<seq<T>>
  {
    match rest
    case None => None
    case Some(r) => Some(front + r)
  }

  lemma PrependNothing<T>(rest: Option<seq<T>>)
    ensures Prepend([], rest) == rest
  {
    assert rest.Some? ==> [] + rest.value == rest.value;
  }

  lemma PrependNext<T>(front: seq<T>, x: T, rest: Option<seq<T>>)
    ensures Prepend(front, Prepend([x], rest)) == Prepend(front + [x], rest)
  {
    assert rest.Some? ==> front + ([x] + rest.value) == front + [x] + rest.value;
  }

  lemma PrependLast<T>(front: seq<T>)
    ensures Prepend(front, Some([])) == Some(front)
  {
    assert front + [] == front;
  }

  /**
    What a C parser does with an input: refuse it, touch memory it must not (outside
    its blocks, or never written), or give a value.
   */
  datatype Outcome<+T> = Refused | Outside | Got(value: T)

  /** A partial result put in front of what happens to the rest. */
  function Onto<T>(front: seq<T>, rest: Outcome<seq<T>>): Outcome<seq<T>>
  {
    match rest
    case Got(r) => Got(front + r)
    case Refused => Refused
    case Outside => Outside
  }

  lemma OntoNothing<T>(rest: Outcome<seq<T>>)
    ensures Onto([], rest) == rest
  {
    assert rest.Got? ==> [] + rest.value == rest.value;
  }

  lemma OntoNext<T>(front: seq<T>, x: T, rest: Outcome<seq<T>>)
    ensures Onto(front, Onto([x], rest)) == Onto(front + [x], rest)
  {
    assert rest.Got? ==> front + ([x] + rest.value) == front + [x] + rest.value;
  }

  // ---- strchr ---------------------------------------------------------------

  /** The position strchr finds from i on, or the length of s. */
  function IndexFrom(s: string, c: char, i: nat): (r: nat)
    requires i <= |s|
    ensures i <= r <= |s|
    ensures r < |s| ==> s[r] == c
    decreases |s| - i
  {
    if i == |s| || s[i] == c then i else IndexFrom(s, c, i + 1)
  }

  /** The position strchr finds, or the length of s when it returns NULL. */
  function IndexOf(s: string, c: char): (i: nat)
    ensures i <= |s|
    ensures i < |s| ==> s[i] == c
  {
    IndexFrom(s, c, 0)
  }

  lemma {:induction false} FirstFrom(s: string, c: char, i: nat)
    requires i <= |s|
    ensures forall j :: i <= j < IndexFrom(s, c, i) ==> s[j] != c
    decreases |s| - i
  {
    if i < |s| && s[i] != c {
      FirstFrom(s, c, i + 1);
    }
  }

  /** No earlier position holds the character. */
  lemma FirstIndex(s: string, c: char)
    ensures forall j :: 0 <= j < IndexOf(s, c) ==> s[j] != c
    ensures c !in s[..IndexOf(s, c)]
  {
    FirstFrom(s, c, 0);
  }

  lemma IndexOfIs(s: string, c: char, i: nat)
    requires i <= |s|
    requires forall j :: 0 <= j < i ==> s[j] != c
    requires i < |s| ==> s[i] == c
    ensures IndexOf(s, c) == i
  {
    FirstIndex(s, c);
  }

  // ---- joining with a separator ----------------------------------------------

  function Join(parts: seq<string>, c: char): string
  {
    if |parts| == 0 then ""
    else if |parts| == 1 then parts[0]
    else parts[0] + [c] + Join(parts[1..], c)
  }

  lemma JoinCons(head: string, parts: seq<string>, c: char)
    requires parts != []
    ensures Join([head] + parts, c) == head + [c] + Join(parts, c)
  {
    assert ([head] + parts)[1..] == parts;
  }

  // ---- numbers ----------------------------------------------------------------

  const ULONG_MAX: nat := 0xFFFF_FFFF_FFFF_FFFF

  predicate IsSpace(c: char) { c == ' ' || 9 <= c as int <= 13 }

  predicate IsDigit(c: char) { '0' <= c <= '9' }

  /** The value of a hexadecimal digit, or -1. */
  function HexVal(c: char): (v: int)
    ensures -1 <= v < 16
  {
    if '0' <= c <= '9' then c as int - '0' as int
    else if 'a' <= c <= 'f' then c as int - 'a' as int + 10
    else if 'A' <= c <= 'F' then c as int - 'A' as int + 10
    else -1
  }

  predicate IsDigitIn(c: char, base: nat) { 0 <= HexVal(c) < base }

  function SkipSpaces(s: string, i: nat): (j: nat)
    requires i <= |s|
    ensures i <= j <= |s|
    decreases |s| - i
  {
    if i < |s| && IsSpace(s[i]) then SkipSpaces(s, i + 1) else i
  }

  function SkipDigits(s: string, i: nat, base: nat): (j: nat)
    requires i <= |s|
    ensures i <= j <= |s|
    decreases |s| - i
  {
    if i < |s| && IsDigitIn(s[i], base) then SkipDigits(s, i + 1, base) else i
  }

  /** The value of the digits s[lo..hi]. */
  function DigitsValue(s: string, lo: nat, hi: nat, base: nat): nat
    requires lo <= hi <= |s|
    decreases hi
  {
    if lo == hi then 0
    else
      var last := HexVal(s[hi - 1]);
      DigitsValue(s, lo, hi - 1, base) * base + (if last < 0 then 0 else last)
  }

  /** strtoul: the unsigned long it returns and the length of what it consumed. */
  function Strtoul(s: string, base: nat): (r: (nat, nat))
    ensures r.1 <= |s|
    ensures r.0 <= ULONG_MAX
  {
    var i := SkipSpaces(s, 0);
    var neg := i < |s| && s[i] == '-';
    var j := if i < |s| && (s[i] == '-' || s[i] == '+') then i + 1 else i;
    var k :=
      if base == 16 && j + 2 < |s| && s[j] == '0' && (s[j + 1] == 'x' || s[j + 1] == 'X') && IsDigitIn(s[j + 2], 16)
      then j + 2 else j;
    var e := SkipDigits(s, k, base);
    if e == k then (0, 0)
    else
      var v := DigitsValue(s, k, e, base);
      if v > ULONG_MAX then (ULONG_MAX, e)
      else if neg && v != 0 then (ULONG_MAX + 1 - v, e)
      else (v, e)
  }

  /** The conversion of an unsigned long to a 32-bit unsigned int. */
  function ToU32(v: nat): (r: nat)
    ensures r < 0x1_0000_0000
  {
    v % 0x1_0000_0000
  }

  /** The decimal digits from position p on, appended to those already read. */
  function DecimalAt(s: string, p: nat, acc: nat): nat
    requires p <= |s|
    decreases |s| - p
  {
    if p < |s| && IsDigit(s[p]) then DecimalAt(s, p + 1, acc * 10 + (s[p] as int - '0' as int)) else acc
  }

  /** atoi of the text from position p on, for a value that fits an int. */
  function AtoiAt(s: string, p: nat): int
    requires p <= |s|
    decreases |s| - p
  {
    if p == |s| then 0
    else if IsSpace(s[p]) then AtoiAt(s, p + 1)
    else if s[p] == '-' then -(DecimalAt(s, p + 1, 0) as int)
    else DecimalAt(s, if s[p] == '+' then p + 1 else p, 0)
  }

  function Atoi(s: string): int { AtoiAt(s, 0) }

  // ---- hex text -----------------------------------------------------------------

  function HexDigit(d: nat): (c: char)
    requires d < 16
    ensures HexVal(c) == d
  {
    if d < 10 then ('0' as int + d) as char else ('a' as int + d - 10) as char
  }

  /** The "%02x" rendering of one byte. */
  function HexByte(b: byte): (s: string)
    ensures |s| == 2
    ensures HexVal(s[0]) >= 0 && HexVal(s[1]) >= 0
    ensures HexVal(s[0]) * 16 + HexVal(s[1]) == b
  {
    [HexDigit(b / 16), HexDigit(b % 16)]
  }

  /** wpa_snprintf_hex into a buffer that is large enough. */
  function HexPrint(data: seq<byte>): (s: string)
    ensures |s| == 2 * |data|
    ensures forall k :: 0 <= k < |s| ==> HexVal(s[k]) >= 0
  {
    if data == [] then "" else HexByte(data[0]) + HexPrint(data[1..])
  }

  /** hexstr2bin: the first 2 * len characters as len bytes; the NUL is no digit. */
  function HexStr2Bin(s: string, len: nat): (r: Option<seq<byte>>)
    ensures r.Some? ==> |r.value| == len && |s| >= 2 * len
  {
    if len == 0 then Some([])
    else if |s| < 2 || HexVal(s[0]) < 0 || HexVal(s[1]) < 0 then None
    else
      match HexStr2Bin(s[2..], len - 1)
      case None => None
      case Some(rest) => Some([HexVal(s[0]) * 16 + HexVal(s[1])] + rest)
  }

  lemma {:induction false} HexRoundTrip(data: seq<byte>, tail: string)
    ensures HexStr2Bin(HexPrint(data) + tail, |data|) == Some(data)
  {
    if data != [] {
      HexRoundTrip(data[1..], tail);
      var s, h, t := HexPrint(data) + tail, HexByte(data[0]), HexPrint(data[1..]) + tail;
      assert s == h + t;
      assert s[0] == h[0] && s[1] == h[1] && s[2..] == t;
      assert data == [data[0]] + data[1..];
    }
  }
}
