/**
  Static WEP keys on the command line, [d:]index:data, with the data as 5 or 13
  characters or as 10 or 26 hex digits.
 */
module WepKeys {
  import opened Bits
  import opened CStrings
  import opened Netlink
  import opened Spelling

  const ATTR_PRIVACY: nat := 70
  const ATTR_KEYS: nat := 81
  const KEY_DATA: nat := 1
  const KEY_IDX: nat := 2
  const KEY_CIPHER: nat := 3
  const KEY_DEFAULT: nat := 5
  const CIPHER_WEP40: nat := 0x000FAC01
  const CIPHER_WEP104: nat := 0x000FAC05

  datatype Key = Key(dflt: bool, idx: byte, data: seq<byte>)

  /** What stands before the data: a default mark, the index, and how long that is. */
  datatype Head = Head(dflt: bool, idx: byte, len: nat)

  // ---- one argument ------------------------------------------------------------------

  /** Where the index is expected. */
  function IndexPos(arg: string): nat
  {
    if arg == "" || arg[0] != 'd' then 0 else if |arg| > 1 && arg[1] == ':' then 2 else 1
  }

  function HeadOf(arg: string): (h: Option<Head>)
    ensures h.Some? ==> 2 <= h.value.len <= |arg|
  {
    var p := IndexPos(arg);
    if p + 2 > |arg| || !IsDigit(arg[p]) || arg[p + 1] != ':' then None
    else Some(Head(p > 0, arg[p] as int - '0' as int, p + 2))
  }

  /** The characters of a string as bytes. */
  function Chars(s: string): (b: seq<byte>)
    ensures |b| == |s|
  {
    seq(|s|, i requires 0 <= i < |s| => s[i] as int % 256)
  }

  function DataOf(s: string): Option<seq<byte>>
  {
    if |s| == 10 then HexStr2Bin(s, 5)
    else if |s| == 26 then HexStr2Bin(s, 13)
    else if |s| == 5 || |s| == 13 then Some(Chars(s))
    else None
  }

  function KeyOf(arg: string): Option<Key>
  {
    match HeadOf(arg)
    case None => None
    case Some(h) =>
      match DataOf(arg[h.len..])
      case None => None
      case Some(data) => Some(Key(h.dflt, h.idx, data))
  }

  // ---- all arguments -------------------------------------------------------------------

  function FlagIf(c: bool): seq<Attr> { if c then [Flag(KEY_DEFAULT)] else [] }

  /** The attributes of a key; the last one becomes the default when none was asked for. */
  function KeyAttr(k: Key, num: nat, madeDefault: bool): Attr
  {
    Nest(num, FlagIf(k.dflt)
              + [U8(KEY_IDX, k.idx), U32(KEY_CIPHER, if |k.data| == 5 then CIPHER_WEP40 else CIPHER_WEP104),
                 Bytes(KEY_DATA, k.data)]
              + FlagIf(madeDefault))
  }

  predicate Requested(keys: seq<Key>) { exists i :: 0 <= i < |keys| && keys[i].dflt }

  function KeyAttrs(keys: seq<Key>): (r: seq<Attr>)
    ensures |r| == |keys|
  {
    seq(|keys|, i requires 0 <= i < |keys| => KeyAttr(keys[i], i + 1, i == |keys| - 1 && !Requested(keys)))
  }

  /** All keys, or None when one of the arguments is no key. */
  function KeysFrom(argv: seq<string>, i: nat): Option<seq<Key>>
    requires i <= |argv|
    decreases |argv| - i
  {
    if i == |argv| then Some([])
    else
      match KeyOf(argv[i])
      case None => None
      case Some(k) => Prepend([k], KeysFrom(argv, i + 1))
  }

  /** The keys so far as the loop has put them, when more are to come. */
  function PutSoFar(keys: seq<Key>): (r: seq<Attr>)
    ensures |r| == |keys|
  {
    seq(|keys|, i requires 0 <= i < |keys| => KeyAttr(keys[i], i + 1, false))
  }

  /** parse_keys; the message counts only with error 0. */
  method ParseKeys(argv: seq<string>) returns (err: int, out: seq<Attr>)
    ensures err == if argv == [] then 1 else if KeysFrom(argv, 0).None? then 2 else 0
    ensures err == 0 ==> out == [Flag(70), Nest(81, KeyAttrs(KeysFrom(argv, 0).value))]
  {
    if argv == [] {
      return 1, [];
    }
    var i, haveDefault := 0, false;
    var put: seq<Attr> := [];
    ghost var keys: seq<Key> := [];
    PrependNothing(KeysFrom(argv, 0));
    while i < |argv|
      invariant 0 <= i <= |argv| && |keys| == i && haveDefault == Requested(keys)
      invariant KeysFrom(argv, 0) == Prepend(keys, KeysFrom(argv, i))
      invariant put == if i < |argv| then PutSoFar(keys) else KeyAttrs(keys)
    {
      var key := KeyOf(argv[i]);
      if key.None? {
        return 2, put;
      }
      var k := key.value;
      PrependNext(keys, k, KeysFrom(argv, i + 1));
      RequestedSnoc(keys, k);
      PutNext(keys, k);
      keys := keys + [k];
      haveDefault := haveDefault || k.dflt;
      i := i + 1;
      put := put + [KeyAttr(k, i, !haveDefault && i == |argv|)];
    }
    PrependLast(keys);
    return 0, [Flag(ATTR_PRIVACY), Nest(ATTR_KEYS, put)];
  }

  /** One more key, as the last or with more to come. */
  lemma PutNext(keys: seq<Key>, k: Key)
    ensures PutSoFar(keys + [k]) == PutSoFar(keys) + [KeyAttr(k, |keys| + 1, false)]
    ensures KeyAttrs(keys + [k]) == PutSoFar(keys) + [KeyAttr(k, |keys| + 1, !Requested(keys + [k]))]
  {
  }

  lemma RequestedSnoc(keys: seq<Key>, k: Key)
    ensures Requested(keys + [k]) <==> Requested(keys) || k.dflt
  {
    var all := keys + [k];
    if k.dflt {
      assert all[|keys|].dflt;
    }
    if Requested(keys) {
      var i :| 0 <= i < |keys| && keys[i].dflt;
      assert all[i].dflt;
    }
  }

  // ---- the two spellings -------------------------------------------------------------------

  lemma HeadExtends(head: string, data: string)
    requires HeadOf(head).Some? && HeadOf(head).value.len == |head|
    ensures HeadOf(head + data) == HeadOf(head)
  {
  }

  /** A key of 5 or 13 characters and its hex spelling are the same key. */
  lemma HexSpellsSameKey(head: string, data: string)
    requires HeadOf(head).Some? && HeadOf(head).value.len == |head|
    requires |data| == 5 || |data| == 13
    ensures KeyOf(head + data).Some? && KeyOf(head + data) == KeyOf(head + HexPrint(Chars(data)))
  {
    var hex := HexPrint(Chars(data));
    HeadExtends(head, data);
    HeadExtends(head, hex);
    assert (head + data)[|head|..] == data && (head + hex)[|head|..] == hex;
    HexRoundTrip(Chars(data), "");
    assert hex + "" == hex;
  }

  // ---- the default key -----------------------------------------------------------------------

  predicate Marked(a: Attr) { a.Nest? && Flag(KEY_DEFAULT) in a.kids }

  lemma MarkedIff(k: Key, num: nat, made: bool)
    ensures Marked(KeyAttr(k, num, made)) <==> k.dflt || made
  {
  }

  /** The marked keys are those asked for, or else exactly the last: one key always is. */
  lemma DefaultMarked(keys: seq<Key>)
    requires keys != []
    ensures forall i :: 0 <= i < |keys| ==>
              (Marked(KeyAttrs(keys)[i]) <==> if Requested(keys) then keys[i].dflt else i == |keys| - 1)
    ensures exists i :: 0 <= i < |keys| && Marked(KeyAttrs(keys)[i])
  {
    forall i | 0 <= i < |keys|
      ensures Marked(KeyAttrs(keys)[i]) <==> if Requested(keys) then keys[i].dflt else i == |keys| - 1
    {
      MarkedIff(keys[i], i + 1, i == |keys| - 1 && !Requested(keys));
    }
    var last := |keys| - 1;
    if Requested(keys) {
      var i :| 0 <= i < |keys| && keys[i].dflt;
      assert Marked(KeyAttrs(keys)[i]);
    } else {
      assert Marked(KeyAttrs(keys)[last]);
    }
  }

  // ---- which arguments are keys ------------------------------------------------------------------

  /** 5 or 13 characters stand for themselves, 10 or 26 hex digits for bytes. */
  ghost predicate SpellsData(data: string, key: seq<byte>)
  {
    || ((|data| == 5 || |data| == 13) && |key| == |data|
        && forall i :: 0 <= i < |data| ==> key[i] == data[i] as int % 256)
    || ((|data| == 10 || |data| == 26) && SpellsHex(data, key))
  }

  lemma DataOfIff(data: string, key: seq<byte>)
    ensures DataOf(data) == Some(key) <==> SpellsData(data, key)
  {
    if |data| == 10 || |data| == 26 {
      var n := |data| / 2;
      if SpellsHex(data, key) {
        HexSpelling(data, key);
        HexStr2BinReads(data, key, data, n);
      }
      if HexStr2Bin(data, n) == Some(key) {
        HexStr2BinSpelled(data, n, key);
      }
    } else if |data| == 5 || |data| == 13 {
      if SpellsData(data, key) {
        assert Chars(data) == key;
      }
    }
  }

  predicate IsMark(m: string) { m == "" || m == "d" || m == "d:" }

  /** [d:]index:data, where the colon behind the d may be missing. */
  function KeyText(mark: string, idx: nat, data: string): string
    requires idx <= 9
  {
    mark + (["0123456789"[idx]] + (":" + data))
  }

  ghost predicate SpellsKey(arg: string, k: Key)
  {
    k.idx <= 9 && exists mark: string, data: string {:trigger IsMark(mark), SpellsData(data, k.data)} ::
      && IsMark(mark) && SpellsData(data, k.data)
      && arg == KeyText(mark, k.idx, data) && (k.dflt <==> mark != "")
  }

  lemma DigitOfIndex(idx: nat)
    requires idx <= 9
    ensures var c := "0123456789"[idx]; IsDigit(c) && c as int - '0' as int == idx && c != 'd' && c != ':'
  {
    var digits := "0123456789";
    assert forall k :: 0 <= k < 10 ==> digits[k] as int == '0' as int + k;
  }

  lemma HeadOfText(mark: string, idx: nat, data: string)
    requires IsMark(mark) && idx <= 9
    ensures var arg := KeyText(mark, idx, data);
            HeadOf(arg) == Some(Head(mark != "", idx, |mark| + 2)) && arg[|mark| + 2..] == data
  {
    var arg := KeyText(mark, idx, data);
    DigitOfIndex(idx);
    assert arg[|mark|] == "0123456789"[idx] && arg[|mark| + 1] == ':' && arg[|mark| + 2..] == data;
    assert |mark| > 0 ==> arg[0] == mark[0] == 'd';
    assert |mark| > 1 ==> arg[1] == mark[1] == ':';
  }

  lemma TextOfHead(arg: string)
    requires HeadOf(arg).Some?
    ensures var h := HeadOf(arg).value;
            var mark := arg[..h.len - 2];
            h.idx <= 9 && IsMark(mark) && (h.dflt <==> mark != "") && arg == KeyText(mark, h.idx, arg[h.len..])
  {
    var h := HeadOf(arg).value;
    var p := h.len - 2;
    var digits := "0123456789";
    assert forall k :: 0 <= k < 10 ==> digits[k] as int == '0' as int + k;
    assert arg[p] == digits[h.idx];
    assert arg == arg[..p] + ([arg[p]] + ([arg[p + 1]] + arg[p + 2..]));
  }

  /** An argument is taken for a key exactly when it spells it. */
  lemma KeyOfIff(arg: string, k: Key)
    ensures KeyOf(arg) == Some(k) <==> SpellsKey(arg, k)
  {
    if SpellsKey(arg, k) {
      var mark: string, data: string :| IsMark(mark) && SpellsData(data, k.data)
        && arg == KeyText(mark, k.idx, data) && (k.dflt <==> mark != "");
      HeadOfText(mark, k.idx, data);
      DataOfIff(data, k.data);
    }
    if KeyOf(arg) == Some(k) {
      TextOfHead(arg);
      DataOfIff(arg[HeadOf(arg).value.len..], k.data);
    }
  }

  /** Keys are read exactly from argument lists that spell them, one each. */
  lemma {:induction false} KeysFromIff(argv: seq<string>, i: nat, keys: seq<Key>)
    requires i <= |argv|
    ensures KeysFrom(argv, i) == Some(keys)
            <==> |keys| == |argv| - i && forall j :: 0 <= j < |keys| ==> SpellsKey(argv[i + j], keys[j])
    decreases |argv| - i
  {
    if i < |argv| && keys != [] {
      KeyOfIff(argv[i], keys[0]);
      KeysFromIff(argv, i + 1, keys[1..]);
      KeysUnfold(argv, i, keys);
      if |keys| == |argv| - i {
        SpellingsUnfold(argv, i, keys);
      }
    }
  }

  lemma KeysUnfold(argv: seq<string>, i: nat, keys: seq<Key>)
    requires i < |argv| && keys != []
    ensures KeysFrom(argv, i) == Some(keys)
            <==> KeyOf(argv[i]) == Some(keys[0]) && KeysFrom(argv, i + 1) == Some(keys[1..])
  {
    assert keys == [keys[0]] + keys[1..];
  }

  lemma SpellingsUnfold(argv: seq<string>, i: nat, keys: seq<Key>)
    requires i < |argv| && keys != [] && |keys| == |argv| - i
    ensures (forall j :: 0 <= j < |keys| ==> SpellsKey(argv[i + j], keys[j]))
            <==> SpellsKey(argv[i], keys[0])
                 && forall j :: 0 <= j < |keys| - 1 ==> SpellsKey(argv[i + 1 + j], keys[1..][j])
  {
    var rest := keys[1..];
    if SpellsKey(argv[i], keys[0]) && (forall j :: 0 <= j < |rest| ==> SpellsKey(argv[i + 1 + j], rest[j])) {
      forall j | 0 <= j < |keys|
        ensures SpellsKey(argv[i + j], keys[j])
      {
        if j > 0 {
          assert SpellsKey(argv[i + 1 + (j - 1)], rest[j - 1]);
        }
      }
    }
    if forall j :: 0 <= j < |keys| ==> SpellsKey(argv[i + j], keys[j]) {
      assert SpellsKey(argv[i + 0], keys[0]);
      forall j | 0 <= j < |rest|
        ensures SpellsKey(argv[i + 1 + j], rest[j])
      {
        assert SpellsKey(argv[i + (j + 1)], keys[j + 1]);
      }
    }
  }

  // ---- the message, by attribute numbers ------------------------------------------------------------

  /** Index 2, cipher 3, data 1 and, for a default key, the mark 5. */
  ghost predicate CarriesKey(a: Attr, num: nat, k: Key, marked: bool)
  {
    && a.Nest? && a.id == num && |a.kids| == (if marked then 4 else 3)
    && U8(2, k.idx) in a.kids && Bytes(1, k.data) in a.kids
    && U32(3, if |k.data| == 5 then 0x000FAC01 else 0x000FAC05) in a.kids
    && (Flag(5) in a.kids <==> marked)
  }

  /** Key i is nest i + 1; the marked keys are those asked for, or else the last. */
  lemma KeysCarried(keys: seq<Key>, i: nat)
    requires i < |keys|
    ensures CarriesKey(KeyAttrs(keys)[i], i + 1, keys[i], if Requested(keys) then keys[i].dflt else i == |keys| - 1)
  {
    var k, made := keys[i], i == |keys| - 1 && !Requested(keys);
    var a, b, c := U8(KEY_IDX, k.idx), U32(KEY_CIPHER, if |k.data| == 5 then CIPHER_WEP40 else CIPHER_WEP104),
                   Bytes(KEY_DATA, k.data);
    var kids := KeyAttrs(keys)[i].kids;
    assert kids == FlagIf(k.dflt) + [a, b, c] + FlagIf(made);
    var n := |FlagIf(k.dflt)|;
    assert kids[n] == a && kids[n + 1] == b && kids[n + 2] == c;
    MarkedIff(k, i + 1, made);
  }
}
