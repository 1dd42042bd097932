/**
  The MAC access control lists: reading a list file into an array with in-place
  removal, sorting it, and the binary search that relies on the order.
 */
module MacAcl {
  import opened Bits
  import opened ByteOrder
  import opened CStrings

  type Mac = s: seq<byte> | |s| == 6 witness [0, 0, 0, 0, 0, 0]

  datatype Entry = Entry(addr: Mac, untagged: int, notempty: bool)

  // ---- addresses in text ---------------------------------------------------------------

  /** hex2byte at a position. */
  function HexByteAt(s: string, pos: nat): Option<byte>
  {
    if pos + 2 <= |s| && HexVal(s[pos]) >= 0 && HexVal(s[pos + 1]) >= 0
    then Some(HexVal(s[pos]) * 16 + HexVal(s[pos + 1]))
    else None
  }

  /** The last n bytes of an address, from a position on; what follows them is not looked at. */
  function HwaddrFrom(s: string, pos: nat, n: nat): (r: Option<seq<byte>>)
    ensures r.Some? ==> |r.value| == n
    decreases n
  {
    if n == 0 then Some([])
    else
      match HexByteAt(s, pos)
      case None => None
      case Some(b) =>
        if n == 1 then Some([b])
        else if pos + 2 < |s| && s[pos + 2] == ':' then Prepend([b], HwaddrFrom(s, pos + 3, n - 1))
        else None
  }

  /** hwaddr_aton. */
  function HwaddrAton(s: string, pos: nat): (r: Option<Mac>)
  {
    match HwaddrFrom(s, pos, 6)
    case None => None
    case Some(a) => Some(a)
  }

  /** Bytes in the usual colon-separated form. */
  function AddrText(a: seq<byte>): string
  {
    if a == [] then "" else if |a| == 1 then HexByte(a[0]) else HexByte(a[0]) + ":" + AddrText(a[1..])
  }

  /** The text of an address stands at a position. */
  ghost predicate TextAt(s: string, pos: nat, t: string) { pos + |t| <= |s| && s[pos..pos + |t|] == t }

  lemma ByteAt(s: string, pos: nat, b: byte)
    requires TextAt(s, pos, HexByte(b))
    ensures HexByteAt(s, pos) == Some(b)
  {
    var t := s[pos..pos + 2];
    assert s[pos] == t[0] && s[pos + 1] == t[1];
  }

  lemma TextSplits(s: string, pos: nat, t: string, h: string, r: string)
    requires t == h + [':'] + r && |h| == 2 && TextAt(s, pos, t)
    ensures TextAt(s, pos, h) && s[pos + 2] == ':' && TextAt(s, pos + 3, r)
  {
    var w := s[pos..pos + |t|];
    assert w[..2] == h && w[2] == ':' && w[3..] == r;
    assert s[pos..pos + 2] == w[..2];
    assert s[pos + 3..pos + 3 + |r|] == w[3..];
  }

  lemma {:induction false} AddrRoundTrip(s: string, pos: nat, a: seq<byte>)
    requires TextAt(s, pos, AddrText(a))
    ensures HwaddrFrom(s, pos, |a|) == Some(a)
    decreases |a|
  {
    if |a| == 1 {
      ByteAt(s, pos, a[0]);
      assert a == [a[0]];
    } else if |a| > 1 {
      TextSplits(s, pos, AddrText(a), HexByte(a[0]), AddrText(a[1..]));
      ByteAt(s, pos, a[0]);
      AddrRoundTrip(s, pos + 3, a[1..]);
      assert a == [a[0]] + a[1..];
    }
  }

  // ---- lines -----------------------------------------------------------------------------

  /** What a line asks for. */
  datatype Op = Skip | Bad | Add(entry: Entry) | Remove(addr: Mac)

  predicate IsBlank(c: char) { c == ' ' || c == '\t' }

  function SkipWord(s: string, i: nat): (j: nat)
    requires i <= |s|
    ensures i <= j <= |s|
    decreases |s| - i
  {
    if i < |s| && !IsBlank(s[i]) then SkipWord(s, i + 1) else i
  }

  function SkipBlanks(s: string, i: nat): (j: nat)
    requires i <= |s|
    ensures i <= j <= |s|
    decreases |s| - i
  {
    if i < |s| && IsBlank(s[i]) then SkipBlanks(s, i + 1) else i
  }

  /** The VLAN id after the first word; 0 when there is none. */
  function VlanOf(atoi: string -> int, s: string): int
  {
    var p := SkipBlanks(s, SkipWord(s, 0));
    if p < |s| then atoi(s[p..]) else 0
  }

  /** One line as fgets delivers it. */
  function OpOf(atoi: string -> int, line: string): Op
  {
    if line != "" && line[0] == '#' then Skip
    else
      var s := line[..IndexOf(line, '\n')];
      if s == "" then Skip
      else
        match HwaddrAton(s, if s[0] == '-' then 1 else 0)
        case None => Bad
        case Some(a) =>
          if s[0] == '-' then Remove(a)
          else
            var vlan := VlanOf(atoi, s);
            Add(Entry(a, vlan, vlan != 0))
  }

  predicate AddrChar(c: char) { HexVal(c) >= 0 || c == ':' }

  lemma {:induction false} AddrChars(a: seq<byte>)
    ensures forall i :: 0 <= i < |AddrText(a)| ==> AddrChar(AddrText(a)[i])
    ensures a != [] ==> AddrText(a) != [] && HexVal(AddrText(a)[0]) >= 0
    decreases |a|
  {
    if a != [] {
      var h := HexByte(a[0]);
      assert AddrChar(h[0]) && AddrChar(h[1]) && AddrChar(':');
      AddrChars(a[1..]);
    }
  }

  lemma {:induction false} WordIsAll(s: string, i: nat)
    requires i <= |s| && forall k :: 0 <= k < |s| ==> !IsBlank(s[k])
    ensures SkipWord(s, i) == |s|
    decreases |s| - i
  {
    if i < |s| {
      WordIsAll(s, i + 1);
    }
  }

  /** An address on a line of its own adds an entry without VLAN; with '-' in front it removes. */
  lemma LineOps(atoi: string -> int, a: Mac)
    ensures OpOf(atoi, AddrText(a) + "\n") == Add(Entry(a, 0, false))
    ensures OpOf(atoi, "-" + AddrText(a) + "\n") == Remove(a)
  {
    var t := AddrText(a);
    AddrChars(a);
    assert !AddrChar('\n') && !AddrChar(' ') && !AddrChar('\t') && !AddrChar('#') && !AddrChar('-');
    var add, rem := t + "\n", "-" + t + "\n";
    IndexOfIs(add, '\n', |t|);
    IndexOfIs(rem, '\n', |t| + 1);
    assert add[..|t|] == t && rem[..|t| + 1] == "-" + t;
    AddrRoundTrip(t, 0, a);
    AddrRoundTrip("-" + t, 1, a);
    WordIsAll(t, 0);
  }

  function OpsOf(atoi: string -> int, lines: seq<string>): (ops: seq<Op>)
    ensures |ops| == |lines|
  {
    seq(|lines|, i requires 0 <= i < |lines| => OpOf(atoi, lines[i]))
  }

  // ---- what the operations do to a list ---------------------------------------------------

  /** The entries with another address. */
  function Without(acl: seq<Entry>, a: Mac): seq<Entry>
  {
    if acl == [] then [] else (if acl[0].addr == a then [] else [acl[0]]) + Without(acl[1..], a)
  }

  function ApplyOp(acl: seq<Entry>, op: Op): seq<Entry>
  {
    match op
    case Add(e) => acl + [e]
    case Remove(a) => Without(acl, a)
    case _ => acl
  }

  function ApplyOps(acl: seq<Entry>, ops: seq<Op>): seq<Entry>
  {
    if ops == [] then acl else ApplyOp(ApplyOps(acl, ops[..|ops| - 1]), ops[|ops| - 1])
  }

  /** The position of the first bad line, or the number of lines. */
  function FirstBad(ops: seq<Op>, i: nat): (n: nat)
    requires i <= |ops|
    ensures i <= n <= |ops| && (n < |ops| ==> ops[n] == Bad)
    decreases |ops| - i
  {
    if i == |ops| || ops[i] == Bad then i else FirstBad(ops, i + 1)
  }

  // ---- the entries of one address -----------------------------------------------------------

  /** The entries with an address, in order. */
  function EntriesOf(acl: seq<Entry>, a: Mac): seq<Entry>
  {
    if acl == [] then []
    else EntriesOf(acl[..|acl| - 1], a) + (if acl[|acl| - 1].addr == a then [acl[|acl| - 1]] else [])
  }

  /** How many operations there are up to the last removal of an address: 0 when it is never removed. */
  function LastRemoval(ops: seq<Op>, a: Mac): (n: nat)
    ensures n <= |ops|
    ensures n > 0 ==> ops[n - 1] == Remove(a)
  {
    if ops == [] then 0
    else if ops[|ops| - 1] == Remove(a) then |ops|
    else LastRemoval(ops[..|ops| - 1], a)
  }

  lemma {:induction false} NoLaterRemoval(ops: seq<Op>, a: Mac)
    ensures forall k :: LastRemoval(ops, a) <= k < |ops| ==> ops[k] != Remove(a)
  {
    if ops != [] && ops[|ops| - 1] != Remove(a) {
      NoLaterRemoval(ops[..|ops| - 1], a);
    }
  }

  /** The entries some operations add for an address. */
  function AddedFor(ops: seq<Op>, a: Mac): seq<Entry>
  {
    if ops == [] then []
    else
      var op := ops[|ops| - 1];
      AddedFor(ops[..|ops| - 1], a) + AddedBy(op, a)
  }

  /**
    What a list is meant to hold for an address: the entries added since its last
    removal, after the starting ones when it was never removed.
   */
  function Meant(start: seq<Entry>, ops: seq<Op>, a: Mac): seq<Entry>
  {
    var n := LastRemoval(ops, a);
    (if n == 0 then EntriesOf(start, a) else []) + AddedFor(ops[n..], a)
  }

  lemma EntriesSnoc(acl: seq<Entry>, e: Entry, a: Mac)
    ensures EntriesOf(acl + [e], a) == EntriesOf(acl, a) + if e.addr == a then [e] else []
  {
    assert (acl + [e])[..|acl|] == acl;
  }

  lemma {:induction false} EntriesConcat(s: seq<Entry>, t: seq<Entry>, a: Mac)
    ensures EntriesOf(s + t, a) == EntriesOf(s, a) + EntriesOf(t, a)
    decreases |t|
  {
    if t == [] {
      assert s + t == s;
    } else {
      var t', e := t[..|t| - 1], t[|t| - 1];
      EntriesConcat(s, t', a);
      assert s + t == (s + t') + [e] && t == t' + [e];
      EntriesSnoc(s + t', e, a);
      EntriesSnoc(t', e, a);
      var x, y, z := EntriesOf(s, a), EntriesOf(t', a), if e.addr == a then [e] else [];
      assert x + y + z == x + (y + z);
    }
  }

  /** Removing an address leaves none of its entries and all of the others. */
  lemma {:induction false} EntriesWithout(acl: seq<Entry>, b: Mac, a: Mac)
    ensures EntriesOf(Without(acl, b), a) == if a == b then [] else EntriesOf(acl, a)
    decreases |acl|
  {
    if acl != [] {
      var e, rest := acl[0], acl[1..];
      EntriesWithout(rest, b, a);
      assert acl == [e] + rest;
      EntriesConcat([e], rest, a);
      EntriesSnoc([], e, a);
      assert [] + [e] == [e];
      if e.addr != b {
        EntriesConcat([e], Without(rest, b), a);
      } else {
        assert [] + Without(rest, b) == Without(rest, b);
      }
    }
  }

  /** An operation list gives each address exactly its entries since the last removal. */
  lemma {:induction false} OpsKeepMeant(start: seq<Entry>, ops: seq<Op>, a: Mac)
    ensures EntriesOf(ApplyOps(start, ops), a) == Meant(start, ops, a)
    decreases |ops|
  {
    if ops == [] {
      assert EntriesOf(start, a) + [] == EntriesOf(start, a);
    } else {
      var k := |ops| - 1;
      var front, op := ops[..k], ops[k];
      OpsKeepMeant(start, front, a);
      MeantStep(start, front, op, a);
      assert ops == front + [op];
      OpEntries(ApplyOps(start, front), op, a);
    }
  }

  /** What one operation does to the entries of an address. */
  lemma OpEntries(acl: seq<Entry>, op: Op, a: Mac)
    ensures EntriesOf(ApplyOp(acl, op), a) == if op == Remove(a) then [] else EntriesOf(acl, a) + AddedBy(op, a)
  {
    match op
    case Add(e) => EntriesSnoc(acl, e, a);
    case Remove(b) => EntriesWithout(acl, b, a);
    case _ =>
  }

  /** The entry an operation adds for an address, if any. */
  function AddedBy(op: Op, a: Mac): seq<Entry> { if op.Add? && op.entry.addr == a then [op.entry] else [] }

  lemma LastRemovalSnoc(ops: seq<Op>, op: Op, a: Mac)
    ensures LastRemoval(ops + [op], a) == if op == Remove(a) then |ops| + 1 else LastRemoval(ops, a)
  {
    assert (ops + [op])[..|ops|] == ops;
  }

  lemma AddedSnoc(ops: seq<Op>, op: Op, a: Mac)
    ensures AddedFor(ops + [op], a) == AddedFor(ops, a) + AddedBy(op, a)
  {
    assert (ops + [op])[..|ops|] == ops;
  }

  lemma MeantStep(start: seq<Entry>, ops: seq<Op>, op: Op, a: Mac)
    ensures Meant(start, ops + [op], a) == if op == Remove(a) then [] else Meant(start, ops, a) + AddedBy(op, a)
  {
    var all, n := ops + [op], LastRemoval(ops, a);
    LastRemovalSnoc(ops, op, a);
    if op == Remove(a) {
      assert all[|all|..] == [];
    } else {
      var since, first := ops[n..], if n == 0 then EntriesOf(start, a) else [];
      assert all[n..] == since + [op];
      AddedSnoc(since, op, a);
      assert first + (AddedFor(since, a) + AddedBy(op, a)) == first + AddedFor(since, a) + AddedBy(op, a);
    }
  }

  // ---- order ------------------------------------------------------------------------------------

  /** hostapd_acl_comp. */
  function AclComp(x: Entry, y: Entry): int { Memcmp(x.addr, y.addr) }

  ghost predicate Sorted(s: seq<Entry>) { forall i, j :: 0 <= i <= j < |s| ==> AclComp(s[i], s[j]) <= 0 }

  lemma AclCompLinear(x: Entry, y: Entry)
    ensures AclComp(x, y) <= 0 <==> BeValue(x.addr) <= BeValue(y.addr)
    ensures AclComp(x, y) == 0 <==> x.addr == y.addr
  {
    MemcmpComparesValues(x.addr, y.addr);
  }

  lemma AclCompOrder(x: Entry, y: Entry, z: Entry)
    ensures AclComp(x, y) > 0 ==> AclComp(y, x) <= 0
    ensures AclComp(x, y) <= 0 && AclComp(y, z) <= 0 ==> AclComp(x, z) <= 0
  {
    AclCompLinear(x, y);
    AclCompLinear(y, x);
    AclCompLinear(y, z);
    AclCompLinear(x, z);
  }

  /** The place of an entry in a sorted list. */
  method PlaceOf(s: seq<Entry>, e: Entry) returns (k: nat)
    requires Sorted(s)
    ensures k <= |s|
    ensures forall i :: 0 <= i < k ==> AclComp(s[i], e) <= 0
    ensures forall i :: k <= i < |s| ==> AclComp(e, s[i]) <= 0
  {
    k := |s|;
    while k > 0 && AclComp(s[k - 1], e) > 0
      invariant k <= |s|
      invariant forall i :: k <= i < |s| ==> AclComp(e, s[i]) <= 0
    {
      AclCompOrder(s[k - 1], e, e);
      k := k - 1;
    }
    if k > 0 {
      forall i | 0 <= i < k
        ensures AclComp(s[i], e) <= 0
      {
        AclCompOrder(s[i], s[k - 1], e);
      }
    }
  }

  /** qsort: any order that agrees with the comparison and loses no entry. */
  method Qsort(s: seq<Entry>) returns (r: seq<Entry>)
    ensures Sorted(r) && multiset(r) == multiset(s)
  {
    r := [];
    for n := 0 to |s|
      invariant Sorted(r) && multiset(r) == multiset(s[..n])
    {
      var k := PlaceOf(r, s[n]);
      InsertSorted(r, s[n], k);
      r := r[..k] + [s[n]] + r[k..];
      assert s[..n + 1] == s[..n] + [s[n]];
    }
    assert s[..|s|] == s;
  }

  lemma InsertSorted(r: seq<Entry>, e: Entry, k: nat)
    requires Sorted(r) && k <= |r|
    requires forall i :: 0 <= i < k ==> AclComp(r[i], e) <= 0
    requires forall i :: k <= i < |r| ==> AclComp(e, r[i]) <= 0
    ensures var t := r[..k] + [e] + r[k..]; Sorted(t) && multiset(t) == multiset(r) + multiset{e}
  {
    var t := r[..k] + [e] + r[k..];
    assert r == r[..k] + r[k..];
    AclCompLinear(e, e);
    forall i, j | 0 <= i <= j < |t|
      ensures AclComp(t[i], t[j]) <= 0
    {
      var i', j' := if i < k then i else i - 1, if j < k then j else j - 1;
      if i != k && j != k {
        assert t[i] == r[i'] && t[j] == r[j'];
      }
    }
  }

  lemma {:induction false} EntryCount(s: seq<Entry>, a: Mac, e: Entry)
    ensures multiset(EntriesOf(s, a))[e] == if e.addr == a then multiset(s)[e] else 0
    decreases |s|
  {
    if s != [] {
      EntryCount(s[..|s| - 1], a, e);
      assert s == s[..|s| - 1] + [s[|s| - 1]];
    }
  }

  lemma SameEntries(s: seq<Entry>, t: seq<Entry>, a: Mac)
    requires multiset(s) == multiset(t)
    ensures multiset(EntriesOf(s, a)) == multiset(EntriesOf(t, a))
  {
    forall e: Entry
      ensures multiset(EntriesOf(s, a))[e] == multiset(EntriesOf(t, a))[e]
    {
      EntryCount(s, a, e);
      EntryCount(t, a, e);
    }
  }

  // ---- the list and its file ----------------------------------------------------------------------

  /** The file argument: none given, not found, or its lines. */
  datatype File = NoName | Missing | Lines(lines: seq<string>)

  /** The list without the entry at an index. */
  function Dropped(s: seq<Entry>, i: nat): (r: seq<Entry>)
    requires i < |s|
    ensures multiset(r) == multiset(s) - multiset{s[i]}
  {
    assert s == s[..i] + [s[i]] + s[i + 1..];
    s[..i] + s[i + 1..]
  }

  /**
    os_remove_in_array: the memmove of the members above the index. The members
    keep their order and lose exactly the one at the index; the last place keeps
    a stale copy.
   */
  method RemoveInArray(a: array<Entry>, nmemb: nat, idx: nat)
    requires idx < nmemb <= a.Length
    modifies a
    ensures a[..nmemb - 1] == Dropped(old(a[..nmemb]), idx)
    ensures multiset(a[..nmemb - 1]) == multiset(old(a[..nmemb])) - multiset{old(a[idx])}
    ensures forall k :: nmemb - 1 <= k < a.Length ==> a[k] == old(a[k])
  {
    ghost var was := a[..nmemb];
    if idx < nmemb - 1 {
      MoveDown(a, idx, nmemb - 1);
    }
    MovedIsDropped(was, a[..nmemb - 1], idx);
  }

  /** memmove of the members from + 1 .. to one place down. */
  method MoveDown(a: array<Entry>, from: nat, to: nat)
    requires from <= to < a.Length
    modifies a
    ensures forall j :: from < j <= to ==> a[j - 1] == old(a[j])
    ensures forall j :: 0 <= j < from || to <= j < a.Length ==> a[j] == old(a[j])
  {
    for k := from to to
      invariant forall j :: from < j <= k ==> a[j - 1] == old(a[j])
      invariant forall j :: 0 <= j < from || k <= j < a.Length ==> a[j] == old(a[j])
    {
      a[k] := a[k + 1];
    }
  }

  lemma MovedIsDropped(was: seq<Entry>, now: seq<Entry>, idx: nat)
    requires idx < |was| && |now| == |was| - 1
    requires forall j :: 0 <= j < idx ==> now[j] == was[j]
    requires forall j :: idx < j < |was| ==> now[j - 1] == was[j]
    ensures now == Dropped(was, idx)
  {
    var d := Dropped(was, idx);
    forall j | 0 <= j < |now|
      ensures now[j] == d[j]
    {
      if j >= idx {
        var k := j + 1;
        assert now[k - 1] == was[k];
      }
    }
  }

  /** What is still kept of n members, when those before the index have been looked at. */
  ghost predicate Keeps(w: seq<Entry>, i: nat, n: nat, addr: Mac, left: seq<Entry>)
  {
    i <= n <= |w| && left == w[..i] + Without(w[i..n], addr)
  }

  lemma KeepsStart(w: seq<Entry>, n: nat, addr: Mac)
    requires n <= |w|
    ensures Keeps(w, 0, n, addr, Without(w[..n], addr))
  {
    assert w[..0] == [] && w[0..n] == w[..n];
  }

  lemma KeepsDone(w: seq<Entry>, n: nat, addr: Mac, left: seq<Entry>)
    requires Keeps(w, n, n, addr, left)
    ensures left == w[..n]
  {
    assert w[n..n] == [];
  }

  lemma KeepsDrop(w: seq<Entry>, w': seq<Entry>, i: nat, n: nat, addr: Mac, left: seq<Entry>)
    requires Keeps(w, i, n, addr, left) && i < n && w[i].addr == addr
    requires |w'| == |w| && w'[..n - 1] == Dropped(w[..n], i)
    ensures Keeps(w', i, n - 1, addr, left)
  {
    var s := w[..n];
    var d := Dropped(s, i);
    WithoutDrop(s, addr, i, d);
    assert s[..i] == w[..i] && s[i..] == w[i..n];
    assert w'[..i] == d[..i] && w'[i..n - 1] == d[i..];
  }

  lemma KeepsPass(w: seq<Entry>, i: nat, n: nat, addr: Mac, left: seq<Entry>)
    requires Keeps(w, i, n, addr, left) && i < n && w[i].addr != addr
    ensures Keeps(w, i + 1, n, addr, left)
  {
    var s := w[..n];
    WithoutPass(s, addr, i);
    assert s[..i] == w[..i] && s[i..] == w[i..n];
    assert s[..i + 1] == w[..i + 1] && s[i + 1..] == w[i + 1..n];
  }

  /** The removal loop over an array: the index stays where a member was taken out. */
  method RemoveMatching(a: array<Entry>, num: nat, addr: Mac) returns (n: nat)
    requires num <= a.Length
    modifies a
    ensures n <= num && a[..n] == Without(old(a[..num]), addr)
  {
    var i: nat := 0;
    n := num;
    ghost var left := Without(a[..num], addr);
    KeepsStart(a[..], num, addr);
    assert a[..][..num] == a[..num];
    while i < n
      invariant i <= n <= num && Keeps(a[..], i, n, addr, left)
      decreases n - i
    {
      ghost var w := a[..];
      if a[i].addr == addr {
        assert w[..n] == a[..n];
        RemoveInArray(a, n, i);
        assert a[..][..n - 1] == a[..n - 1];
        KeepsDrop(w, a[..], i, n, addr, left);
        n := n - 1;
      } else {
        KeepsPass(w, i, n, addr, left);
        i := i + 1;
      }
    }
    KeepsDone(a[..], n, addr, left);
    assert a[..][..n] == a[..n];
  }

  /** A copy of entries into the front of an array. */
  method CopyIn(a: array<Entry>, s: seq<Entry>)
    requires |s| <= a.Length
    modifies a
    ensures a[..|s|] == s
  {
    for k := 0 to |s|
      invariant a[..k] == s[..k]
    {
      a[k] := s[k];
      assert a[..k + 1] == a[..k] + [s[k]];
    }
  }

  class MacList {
    var acl: array<Entry>
    var num: nat

    ghost predicate Valid()
      reads this
    {
      num <= acl.Length
    }

    ghost function Entries(): (s: seq<Entry>)
      requires Valid()
      reads this, acl
    {
      acl[..num]
    }

    constructor (start: seq<Entry>)
      ensures Valid() && fresh(acl) && Entries() == start
    {
      acl := new Entry[|start|](i requires 0 <= i < |start| => start[i]);
      num := |start|;
    }

    /** All entries of an address are taken out. */
    method RemoveAll(a: Mac)
      requires Valid()
      modifies this`num, acl
      ensures Valid() && Entries() == Without(old(Entries()), a)
    {
      num := RemoveMatching(acl, num, a);
    }

    /** realloc to one more member, which is filled in. */
    method Append(e: Entry)
      requires Valid()
      modifies this
      ensures Valid() && fresh(acl) && Entries() == old(Entries()) + [e]
    {
      var newacl := new Entry[num + 1](_ => e);
      CopyIn(newacl, acl[..num]);
      acl := newacl;
      acl[num] := e;
      num := num + 1;
    }

    /** A line that adds or removes; false for a bad one. */
    method TakeLine(atoi: string -> int, line: string) returns (ok: bool)
      requires Valid()
      modifies this, acl
      ensures Valid() && (acl == old(acl) || fresh(acl))
      ensures ok <==> OpOf(atoi, line) != Bad
      ensures Entries() == ApplyOp(old(Entries()), OpOf(atoi, line))
    {
      match OpOf(atoi, line)
      case Skip =>
        ok := true;
      case Bad =>
        ok := false;
      case Remove(a) =>
        RemoveAll(a);
        ok := true;
      case Add(e) =>
        Append(e);
        ok := true;
    }

    /** The loop over the lines of the file; false when it stops at a bad one. */
    method TakeLines(atoi: string -> int, lines: seq<string>) returns (ok: bool)
      requires Valid()
      modifies this, acl
      ensures Valid() && (acl == old(acl) || fresh(acl))
      ensures var ops := OpsOf(atoi, lines);
              && (ok <==> Bad !in ops)
              && Entries() == ApplyOps(old(Entries()), ops[..FirstBad(ops, 0)])
    {
      ghost var ops, start := OpsOf(atoi, lines), Entries();
      for n := 0 to |lines|
        invariant Valid() && (acl == old(acl) || fresh(acl))
        invariant Entries() == ApplyOps(start, ops[..n])
        invariant Bad !in ops[..n] && FirstBad(ops, 0) == FirstBad(ops, n)
      {
        assert ops[..n + 1][..n] == ops[..n];
        ok := TakeLine(atoi, lines[n]);
        if !ok {
          return;
        }
      }
      assert ops[..|ops|] == ops;
      ok := true;
    }

    /** hostapd_config_read_maclist. */
    method ReadMaclist(atoi: string -> int, file: File) returns (code: int)
      requires Valid()
      modifies this, acl
      ensures Valid() && (acl == old(acl) || fresh(acl))
      ensures code == if file == Missing || (file.Lines? && Bad in OpsOf(atoi, file.lines)) then -1 else 0
      ensures !file.Lines? ==> Entries() == old(Entries())
      ensures file.Lines? ==>
                var ops := OpsOf(atoi, file.lines);
                if code == 0 then Sorted(Entries()) && multiset(Entries()) == multiset(ApplyOps(old(Entries()), ops))
                else Entries() == ApplyOps(old(Entries()), ops[..FirstBad(ops, 0)])
    {
      if file == NoName {
        return 0;
      }
      if file == Missing {
        return -1;
      }
      var ok := TakeLines(atoi, file.lines);
      if !ok {
        return -1;
      }
      AllGood(OpsOf(atoi, file.lines), 0);
      var sorted := Qsort(acl[..num]);
      SameLength(sorted, acl[..num]);
      CopyIn(acl, sorted);
      return 0;
    }

    /** hostapd_maclist_found: binary search for an address in the sorted list. */
    method Found(a: Mac) returns (r: Option<Entry>)
      requires Valid() && Sorted(Entries())
      ensures r.Some? ==> r.value in Entries() && r.value.addr == a
      ensures r.None? ==> forall e :: e in Entries() ==> e.addr != a
    {
      ghost var s := Entries();
      var start, end := 0, num - 1;
      while start <= end
        invariant 0 <= start <= end + 1 <= num
        invariant forall i :: 0 <= i < start ==> s[i].addr != a
        invariant forall i :: end < i < num ==> s[i].addr != a
      {
        var middle := (start + end) / 2;
        var res := Memcmp(acl[middle].addr, a);
        assert acl[middle] == s[middle];
        MemcmpComparesValues(s[middle].addr, a);
        if res == 0 {
          return Some(acl[middle]);
        }
        NotAround(s, middle, a);
        if res < 0 {
          start := middle + 1;
        } else {
          end := middle - 1;
        }
      }
      return None;
    }
  }

  lemma {:induction false} AllGood(ops: seq<Op>, i: nat)
    requires i <= |ops| && Bad !in ops[i..]
    ensures FirstBad(ops, i) == |ops| && ops[..|ops|] == ops
    decreases |ops| - i
  {
    if i < |ops| {
      assert ops[i] == ops[i..][0] && ops[i + 1..] == ops[i..][1..];
      AllGood(ops, i + 1);
    }
  }

  lemma SameLength(s: seq<Entry>, t: seq<Entry>)
    requires multiset(s) == multiset(t)
    ensures |s| == |t|
  {
    assert |multiset(s)| == |s| && |multiset(t)| == |t|;
  }

  /** Taking out an entry of the address leaves the same to be kept. */
  lemma WithoutDrop(s: seq<Entry>, a: Mac, i: nat, d: seq<Entry>)
    requires i < |s| && s[i].addr == a && d == Dropped(s, i)
    ensures s[..i] + Without(s[i..], a) == d[..i] + Without(d[i..], a)
  {
    var rest := s[i..];
    assert rest[0] == s[i] && rest[1..] == s[i + 1..];
    assert [] + Without(rest[1..], a) == Without(rest[1..], a);
    assert d[..i] == s[..i] && d[i..] == s[i + 1..];
  }

  /** Passing an entry of another address keeps it. */
  lemma WithoutPass(s: seq<Entry>, a: Mac, i: nat)
    requires i < |s| && s[i].addr != a
    ensures s[..i] + Without(s[i..], a) == s[..i + 1] + Without(s[i + 1..], a)
  {
    var rest, w := s[i..], Without(s[i + 1..], a);
    assert rest[0] == s[i] && rest[1..] == s[i + 1..];
    assert s[..i + 1] == s[..i] + [s[i]];
    assert s[..i] + ([s[i]] + w) == s[..i] + [s[i]] + w;
  }

  /** In a sorted list, an address below that of an entry is not above it, and the other way round. */
  lemma NotAround(acl: seq<Entry>, m: nat, a: Mac)
    requires Sorted(acl) && m < |acl| && acl[m].addr != a
    ensures Memcmp(acl[m].addr, a) < 0 ==> forall i :: 0 <= i <= m ==> acl[i].addr != a
    ensures Memcmp(acl[m].addr, a) >= 0 ==> forall i :: m <= i < |acl| ==> acl[i].addr != a
  {
    MemcmpComparesValues(acl[m].addr, a);
    forall i | 0 <= i < |acl|
      ensures i <= m ==> BeValue(acl[i].addr) <= BeValue(acl[m].addr)
      ensures m <= i ==> BeValue(acl[m].addr) <= BeValue(acl[i].addr)
    {
      AclCompLinear(acl[i], acl[m]);
      AclCompLinear(acl[m], acl[i]);
    }
  }

  // ---- the whole story ---------------------------------------------------------------------------

  /**
    Whatever the starting list and the file: the sorted result holds for each
    address, counting repetitions, exactly the entries that were meant.
   */
  lemma LoadedHoldsMeant(start: seq<Entry>, ops: seq<Op>, acl: seq<Entry>, a: Mac)
    requires multiset(acl) == multiset(ApplyOps(start, ops))
    ensures multiset(EntriesOf(acl, a)) == multiset(Meant(start, ops, a))
    ensures (exists e :: e in acl && e.addr == a) <==> Meant(start, ops, a) != []
  {
    OpsKeepMeant(start, ops, a);
    SameEntries(acl, ApplyOps(start, ops), a);
    var mine, meant := EntriesOf(acl, a), Meant(start, ops, a);
    if e :| e in acl && e.addr == a {
      EntryCount(acl, a, e);
      assert multiset(meant)[e] > 0;
      assert e in meant;
    }
    if meant != [] {
      var e := meant[0];
      assert e in multiset(meant);
      EntryCount(acl, a, e);
      assert e in multiset(acl);
    }
  }

  /** Loading a file and asking for an address: found exactly when the file means it to be listed. */
  method LoadThenAsk(list: MacList, atoi: string -> int, lines: seq<string>, a: Mac) returns (r: Option<Entry>)
    requires list.Valid() && Bad !in OpsOf(atoi, lines)
    modifies list, list.acl
    ensures var meant := Meant(old(list.Entries()), OpsOf(atoi, lines), a);
            && (r.Some? <==> meant != [])
            && (r.Some? ==> r.value in meant)
  {
    var code := list.ReadMaclist(atoi, Lines(lines));
    ghost var now := list.Entries();
    LoadedHoldsMeant(old(list.Entries()), OpsOf(atoi, lines), now, a);
    r := list.Found(a);
    if r.Some? {
      EntryCount(now, a, r.value);
      assert r.value in multiset(now);
      assert r.value in multiset(EntriesOf(now, a));
    }
  }
}
