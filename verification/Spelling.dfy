/**
  How numbers and bytes are written: decimal digits and pairs of hex digits, told
  by what the digits mean and not by the C functions that read them. Each reader
  is proved to understand every such spelling.
 */
module Spelling {
  import opened Bits
  import opened CStrings

  // ---- decimal numbers ----------------------------------------------------------------

  /** d is n written in decimal; leading zeros are allowed. */
  predicate SpellsDecimal(d: string, n: nat)
    decreases |d|
  {
    d != ""
    && d[|d| - 1] == "0123456789"[n % 10]
    && if |d| == 1 then n < 10 else SpellsDecimal(d[..|d| - 1], n / 10)
  }

  /** The shortest decimal form. */
  function Decimal(n: nat): (d: string)
    ensures SpellsDecimal(d, n)
  {
    var last := "0123456789"[n % 10];
    if n < 10 then [last]
    else
      var front := Decimal(n / 10);
      assert (front + [last])[..|front|] == front;
      front + [last]
  }

  lemma LastDigit(d: string, n: nat)
    requires SpellsDecimal(d, n)
    ensures IsDigit(d[|d| - 1]) && d[|d| - 1] as int - '0' as int == n % 10 == HexVal(d[|d| - 1])
  {
    var digits := "0123456789";
    assert forall k :: 0 <= k < 10 ==> digits[k] as int == '0' as int + k;
  }

  lemma {:induction false} DecimalDigits(d: string, n: nat)
    requires SpellsDecimal(d, n)
    ensures d != "" && forall i :: 0 <= i < |d| ==> IsDigit(d[i])
    decreases |d|
  {
    LastDigit(d, n);
    if |d| > 1 {
      var front := d[..|d| - 1];
      DecimalDigits(front, n / 10);
      assert forall i :: 0 <= i < |front| ==> d[i] == front[i];
    }
  }

  /** Digits have one meaning. */
  lemma {:induction false} DecimalUnique(d: string, n: nat, m: nat)
    requires SpellsDecimal(d, n) && SpellsDecimal(d, m)
    ensures n == m
    decreases |d|
  {
    LastDigit(d, n);
    LastDigit(d, m);
    if |d| > 1 {
      DecimalUnique(d[..|d| - 1], n / 10, m / 10);
    }
  }

  /** The digits stand in s at p. */
  ghost predicate StandsAt(d: string, s: string, p: nat) { p + |d| <= |s| && s[p..p + |d|] == d }

  lemma {:induction false} DecimalAtReads(d: string, n: nat, s: string, p: nat)
    requires SpellsDecimal(d, n) && StandsAt(d, s, p)
    ensures DecimalAt(s, p, 0) == DecimalAt(s, p + |d|, n)
    decreases |d|
  {
    var last := p + |d| - 1;
    assert s[last] == d[|d| - 1];
    LastDigit(d, n);
    if |d| > 1 {
      var front := d[..|d| - 1];
      assert s[p..p + |front|] == front;
      DecimalAtReads(front, n / 10, s, p);
    }
    assert DecimalAt(s, last, n / 10) == DecimalAt(s, last + 1, n / 10 * 10 + n % 10);
  }

  /** A text that ends a number: nothing, or no digit. */
  predicate EndsNumber(t: string) { t == "" || !IsDigit(t[0]) }

  /** atoi reads every decimal number, whatever follows it. */
  lemma AtoiReads(d: string, n: nat, t: string)
    requires SpellsDecimal(d, n) && EndsNumber(t)
    ensures Atoi(d + t) == n
  {
    var s := d + t;
    DecimalDigits(d, n);
    assert s[0] == d[0];
    assert s[0..0 + |d|] == d;
    DecimalAtReads(d, n, s, 0);
    assert t != "" ==> s[|d|] == t[0];
  }

  lemma {:induction false} DigitsValueReads(d: string, n: nat, s: string)
    requires SpellsDecimal(d, n) && StandsAt(d, s, 0)
    ensures DigitsValue(s, 0, |d|, 10) == n
    decreases |d|
  {
    LastDigit(d, n);
    var front := d[..|d| - 1];
    assert s[|front|] == d[|front|];
    if |d| > 1 {
      assert s[0..0 + |front|] == front;
      DigitsValueReads(front, n / 10, s);
    }
  }

  lemma {:induction false} SkipsDigits(s: string, i: nat, e: nat)
    requires i <= e <= |s| && (forall k :: i <= k < e ==> IsDigit(s[k])) && (e == |s| || !IsDigit(s[e]))
    ensures SkipDigits(s, i, 10) == e
    decreases e - i
  {
    if i < e {
      SkipsDigits(s, i + 1, e);
    }
  }

  /** strtoul reads every decimal number up to what follows it; what is too large becomes ULONG_MAX. */
  lemma StrtoulReads(d: string, n: nat, t: string)
    requires SpellsDecimal(d, n) && EndsNumber(t)
    ensures Strtoul(d + t, 10) == (if n > ULONG_MAX then ULONG_MAX else n, |d|)
  {
    var s := d + t;
    DecimalDigits(d, n);
    assert forall k :: 0 <= k < |d| ==> s[k] == d[k];
    assert t != "" ==> s[|d|] == t[0];
    SkipsDigits(s, 0, |d|);
    assert s[0..0 + |d|] == d;
    DigitsValueReads(d, n, s);
  }

  // ---- bytes in hex ------------------------------------------------------------------------

  /** The hex digit for v, in lower or upper case. */
  predicate IsHexDigitFor(c: char, v: nat)
    requires v < 16
  {
    c == "0123456789abcdef"[v] || c == "0123456789ABCDEF"[v]
  }

  /** s is the bytes in hex, two digits each, in either case. */
  predicate SpellsHex(s: string, data: seq<byte>)
    decreases |data|
  {
    if data == [] then s == ""
    else |s| >= 2 && SpellsByte(s[0], s[1], data[0]) && SpellsHex(s[2..], data[1..])
  }

  predicate SpellsByte(high: char, low: char, b: byte)
  {
    IsHexDigitFor(high, b / 16) && IsHexDigitFor(low, b % 16)
  }

  lemma HexDigitValue(c: char, v: nat)
    requires v < 16 && IsHexDigitFor(c, v)
    ensures HexVal(c) == v
  {
    var low, high := "0123456789abcdef", "0123456789ABCDEF";
    assert forall k :: 0 <= k < 16 ==> HexVal(low[k]) == k == HexVal(high[k]);
  }

  lemma HexByteValue(high: char, low: char, b: byte)
    requires SpellsByte(high, low, b)
    ensures HexVal(high) >= 0 && HexVal(low) >= 0 && HexVal(high) * 16 + HexVal(low) == b
  {
    HexDigitValue(high, b / 16);
    HexDigitValue(low, b % 16);
  }

  lemma HexStr2BinNext(s: string, n: nat, high: int, low: int, rest: seq<byte>)
    requires |s| >= 2 && HexVal(s[0]) == high >= 0 && HexVal(s[1]) == low >= 0
    requires HexStr2Bin(s[2..], n) == Some(rest)
    ensures HexStr2Bin(s, n + 1) == Some([high * 16 + low] + rest)
  {
  }

  lemma HexStr2BinWhole(text: string, data: seq<byte>, n: nat)
    requires data != [] && |text| >= 2 && HexVal(text[0]) >= 0 && HexVal(text[1]) >= 0
    requires HexVal(text[0]) * 16 + HexVal(text[1]) == data[0] && HexStr2Bin(text[2..], n) == Some(data[1..])
    ensures HexStr2Bin(text, n + 1) == Some(data)
  {
    HexStr2BinNext(text, n, HexVal(text[0]), HexVal(text[1]), data[1..]);
    assert [data[0]] + data[1..] == data;
  }

  /** hexstr2bin reads every spelling of the bytes, whatever follows it. */
  lemma {:induction false} HexStr2BinReads(s: string, data: seq<byte>, text: string, n: nat)
    requires SpellsHex(s, data) && s <= text && n == |data|
    ensures HexStr2Bin(text, n) == Some(data)
    decreases n
  {
    if n > 0 {
      SpelledHexFront(s, data, text);
      HexStr2BinReads(s[2..], data[1..], text[2..], n - 1);
      HexStr2BinWhole(text, data, n - 1);
    }
  }

  lemma SpelledHexFront(s: string, data: seq<byte>, text: string)
    requires SpellsHex(s, data) && s <= text && data != []
    ensures |s| >= 2 && SpellsHex(s[2..], data[1..]) && s[2..] <= text[2..]
    ensures HexVal(text[0]) >= 0 && HexVal(text[1]) >= 0 && HexVal(text[0]) * 16 + HexVal(text[1]) == data[0]
  {
    HexByteValue(s[0], s[1], data[0]);
  }

  lemma {:induction false} HexSpelling(s: string, data: seq<byte>)
    requires SpellsHex(s, data)
    ensures |s| == 2 * |data| && forall i :: 0 <= i < |s| ==> HexVal(s[i]) >= 0
    decreases |data|
  {
    if data != [] {
      var t := s[2..];
      HexSpelling(t, data[1..]);
      HexByteValue(s[0], s[1], data[0]);
      assert forall i :: 2 <= i < |s| ==> s[i] == t[i - 2];
    }
  }

  lemma HexDigitSpells(v: nat)
    requires v < 16
    ensures IsHexDigitFor(HexDigit(v), v)
  {
    var low := "0123456789abcdef";
    assert forall k :: 0 <= k < 16 ==> HexDigit(k) == low[k];
  }

  /** What is printed with "%02x" is such a spelling. */
  lemma {:induction false} HexPrintSpells(data: seq<byte>)
    ensures SpellsHex(HexPrint(data), data)
  {
    if data != [] {
      HexPrintSpells(data[1..]);
      HexDigitSpells(data[0] / 16);
      HexDigitSpells(data[0] % 16);
      assert HexPrint(data)[2..] == HexPrint(data[1..]);
    }
  }

  // ---- what is read is spelled ---------------------------------------------------------------

  lemma HexValSpells(c: char)
    requires HexVal(c) >= 0
    ensures IsHexDigitFor(c, HexVal(c))
  {
    var low, high := "0123456789abcdef", "0123456789ABCDEF";
    assert forall k :: 0 <= k < 10 ==> low[k] as int == '0' as int + k;
    assert forall k :: 10 <= k < 16 ==> low[k] as int == 'a' as int + k - 10;
    assert forall k :: 10 <= k < 16 ==> high[k] as int == 'A' as int + k - 10;
  }

  lemma PairIsByte(high: char, low: char, b: byte)
    requires HexVal(high) >= 0 && HexVal(low) >= 0 && b == HexVal(high) * 16 + HexVal(low)
    ensures SpellsByte(high, low, b)
  {
    HexValSpells(high);
    HexValSpells(low);
    Nibbles(HexVal(high), HexVal(low), b);
  }

  lemma Nibbles(high: nat, low: nat, b: byte)
    requires high < 16 && low < 16 && b == high * 16 + low
    ensures b / 16 == high && b % 16 == low
  {
  }

  lemma HexStr2BinFront(s: string, n: nat, data: seq<byte>)
    requires n > 0 && |s| == 2 * n && HexStr2Bin(s, n) == Some(data)
    ensures |data| == n && HexStr2Bin(s[2..], n - 1) == Some(data[1..]) && HexVal(s[0]) >= 0 && HexVal(s[1]) >= 0
    ensures data[0] == HexVal(s[0]) * 16 + HexVal(s[1])
  {
    var rest := HexStr2Bin(s[2..], n - 1).value;
    assert data == [HexVal(s[0]) * 16 + HexVal(s[1])] + rest;
  }

  /** What hexstr2bin makes bytes of is a spelling of them. */
  lemma {:induction false} HexStr2BinSpelled(s: string, n: nat, data: seq<byte>)
    requires |s| == 2 * n && HexStr2Bin(s, n) == Some(data)
    ensures SpellsHex(s, data)
    decreases n
  {
    if n > 0 {
      HexStr2BinFront(s, n, data);
      HexStr2BinSpelled(s[2..], n - 1, data[1..]);
      PairIsByte(s[0], s[1], data[0]);
    }
  }
}
