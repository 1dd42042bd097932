/**
  Byte blocks as numbers: the big-endian reading, and memcmp.
 */
module ByteOrder {
  import opened Bits

  // ---- big-endian bytes ---------------------------------------------------------

  /** The number that big-endian bytes spell. */
  function BeValue(s: seq<byte>): (v: nat)
  {
    if s == [] then 0 else BeValue(s[..|s| - 1]) * 256 + s[|s| - 1]
  }

  /** The len low-order bytes of v, most significant first. */
  function BeBytes(v: nat, len: nat): (s: seq<byte>)
    ensures |s| == len
  {
    if len == 0 then [] else BeBytes(v / 256, len - 1) + [v % 256]
  }

  lemma {:induction false} BeValueOfBytes(v: nat, len: nat)
    requires v < Pow2(8 * len)
    ensures BeValue(BeBytes(v, len)) == v
  {
    if len > 0 {
      Pow2Add(8, 8 * (len - 1));
      assert Pow2(8) == 256;
      BeValueOfBytes(v / 256, len - 1);
      assert BeBytes(v, len)[..len - 1] == BeBytes(v / 256, len - 1);
    }
  }

  lemma {:induction false} BeValueBound(s: seq<byte>)
    ensures BeValue(s) < Pow2(8 * |s|)
  {
    if s != [] {
      BeValueBound(s[..|s| - 1]);
      Pow2Add(8, 8 * (|s| - 1));
      assert Pow2(8) == 256;
    }
  }

  // ---- comparing bytes ---------------------------------------------------------

  /** memcmp on two blocks of the same size: the sign of the first difference. */
  function Memcmp(s: seq<byte>, t: seq<byte>): int
    requires |s| == |t|
  {
    if s == [] then 0
    else if s[0] != t[0] then s[0] as int - t[0] as int
    else Memcmp(s[1..], t[1..])
  }

  /** The last bytes decide only when all earlier ones agree. */
  lemma {:induction false} MemcmpLast(s: seq<byte>, t: seq<byte>)
    requires |s| == |t| > 0
    ensures var n := |s| - 1;
            var front := Memcmp(s[..n], t[..n]);
            Memcmp(s, t) == if front != 0 then front else s[n] as int - t[n] as int
  {
    var n := |s| - 1;
    if n > 0 && s[0] == t[0] {
      MemcmpLast(s[1..], t[1..]);
      assert s[..n][1..] == s[1..][..n - 1] && t[..n][1..] == t[1..][..n - 1];
    }
  }

  /** Comparing big-endian blocks with memcmp compares the numbers they spell. */
  lemma {:induction false} MemcmpComparesValues(s: seq<byte>, t: seq<byte>)
    requires |s| == |t|
    ensures Memcmp(s, t) < 0 <==> BeValue(s) < BeValue(t)
    ensures Memcmp(s, t) == 0 <==> s == t
    ensures Memcmp(s, t) == 0 <==> BeValue(s) == BeValue(t)
  {
    if s != [] {
      var n := |s| - 1;
      MemcmpLast(s, t);
      MemcmpComparesValues(s[..n], t[..n]);
      assert s == s[..n] + [s[n]] && t == t[..n] + [t[n]];
    }
  }
}
