/**
  GSM triplets handed out by a cursor that all subscribers share. The list is a
  sequence and the cursor an index into it; the index |db| is the NULL pointer.
 */
module TripletCursor {
  import opened Bits
  import opened CStrings

  datatype Triplet = Triplet(imsi: string, kc: seq<byte>, sres: seq<byte>, rand: seq<byte>)

  /** The first triplet of imsi in db[lo..hi], or hi. */
  function FirstMatch(db: seq<Triplet>, imsi: string, lo: nat, hi: nat): (i: nat)
    requires lo <= hi <= |db|
    ensures lo <= i <= hi
    ensures i < hi ==> db[i].imsi == imsi
    ensures forall j :: lo <= j < i ==> db[j].imsi != imsi
    decreases hi - lo
  {
    if lo == hi || db[lo].imsi == imsi then lo else FirstMatch(db, imsi, lo + 1, hi)
  }

  /** The triplet get_gsm_triplet returns: from the cursor on, then from the start. */
  function NextTriplet(db: seq<Triplet>, pos: nat, imsi: string): (r: Option<nat>)
    requires pos <= |db|
    ensures r.Some? ==> r.value < |db|
  {
    var i := FirstMatch(db, imsi, pos, |db|);
    if i < |db| then Some(i)
    else
      var j := FirstMatch(db, imsi, 0, pos);
      if j < pos then Some(j) else None
  }

  function CursorAfter(db: seq<Triplet>, pos: nat, imsi: string): (r: nat)
    requires pos <= |db|
    ensures r <= |db|
  {
    match NextTriplet(db, pos, imsi)
    case None => pos
    case Some(i) => i + 1
  }

  /** The positions up to n successive lookups return; it stops at a NULL. */
  function Lookups(db: seq<Triplet>, pos: nat, imsi: string, n: nat): (r: seq<nat>)
    requires pos <= |db|
    ensures |r| <= n
    ensures forall t :: 0 <= t < |r| ==> r[t] < |db|
    decreases n
  {
    if n == 0 then []
    else
      match NextTriplet(db, pos, imsi)
      case None => []
      case Some(i) => [i] + Lookups(db, i + 1, imsi, n - 1)
  }

  function CursorAfterAll(db: seq<Triplet>, pos: nat, imsi: string, n: nat): (r: nat)
    requires pos <= |db|
    ensures r <= |db|
    decreases n
  {
    if n == 0 then pos
    else
      match NextTriplet(db, pos, imsi)
      case None => pos
      case Some(i) => CursorAfterAll(db, i + 1, imsi, n - 1)
  }

  /** One round of the lookup loop. */
  lemma LookupsUnfold(db: seq<Triplet>, pos: nat, imsi: string, n: nat)
    requires pos <= |db| && n > 0
    ensures var g := NextTriplet(db, pos, imsi);
            if g.None? then Lookups(db, pos, imsi, n) == [] && CursorAfterAll(db, pos, imsi, n) == pos
            else Lookups(db, pos, imsi, n) == [g.value] + Lookups(db, g.value + 1, imsi, n - 1)
                 && CursorAfterAll(db, pos, imsi, n) == CursorAfterAll(db, g.value + 1, imsi, n - 1)
  {
  }

  lemma AppendAssociates<T>(a: seq<T>, x: T, b: seq<T>)
    ensures a + ([x] + b) == a + [x] + b
  {
  }

  // ---- the cyclic order ---------------------------------------------------------

  /** The positions of imsi's triplets in db[lo..hi], in order. */
  function Matches(db: seq<Triplet>, imsi: string, lo: nat, hi: nat): (r: seq<nat>)
    requires lo <= hi <= |db|
    decreases hi - lo
  {
    if lo == hi then []
    else if db[lo].imsi == imsi then [lo] + Matches(db, imsi, lo + 1, hi)
    else Matches(db, imsi, lo + 1, hi)
  }

  /** All of imsi's triplets in the cyclic order that starts at the cursor. */
  function Cycle(db: seq<Triplet>, imsi: string, pos: nat): seq<nat>
    requires pos <= |db|
  {
    Matches(db, imsi, pos, |db|) + Matches(db, imsi, 0, pos)
  }

  lemma {:induction false} MatchesBelong(db: seq<Triplet>, imsi: string, lo: nat, hi: nat, i: int)
    requires lo <= hi <= |db|
    ensures i in Matches(db, imsi, lo, hi) <==> lo <= i < hi && db[i].imsi == imsi
    decreases hi - lo
  {
    if lo < hi {
      MatchesBelong(db, imsi, lo + 1, hi, i);
    }
  }

  lemma {:induction false} MatchesAscend(db: seq<Triplet>, imsi: string, lo: nat, hi: nat, t: nat, u: nat)
    requires lo <= hi <= |db| && t < u < |Matches(db, imsi, lo, hi)|
    ensures Matches(db, imsi, lo, hi)[t] < Matches(db, imsi, lo, hi)[u]
    decreases hi - lo
  {
    var r' := Matches(db, imsi, lo + 1, hi);
    if db[lo].imsi != imsi {
      MatchesAscend(db, imsi, lo + 1, hi, t, u);
    } else if t > 0 {
      MatchesAscend(db, imsi, lo + 1, hi, t - 1, u - 1);
    } else {
      MatchesBelong(db, imsi, lo + 1, hi, r'[u - 1]);
    }
  }

  lemma {:induction false} MatchesSplit(db: seq<Triplet>, imsi: string, lo: nat, mid: nat, hi: nat)
    requires lo <= mid <= hi <= |db|
    ensures Matches(db, imsi, lo, hi) == Matches(db, imsi, lo, mid) + Matches(db, imsi, mid, hi)
    decreases mid - lo
  {
    if lo < mid {
      MatchesSplit(db, imsi, lo + 1, mid, hi);
    }
  }

  lemma {:induction false} MatchesFirst(db: seq<Triplet>, imsi: string, lo: nat, hi: nat)
    requires lo <= hi <= |db|
    ensures var i := FirstMatch(db, imsi, lo, hi);
            Matches(db, imsi, lo, hi) == if i < hi then [i] + Matches(db, imsi, i + 1, hi) else []
    ensures var i := FirstMatch(db, imsi, lo, hi);
            i < hi ==> Matches(db, imsi, lo, i + 1) == [i]
    decreases hi - lo
  {
    if lo < hi {
      if db[lo].imsi == imsi {
        assert Matches(db, imsi, lo + 1, lo + 1) == [];
      } else {
        MatchesFirst(db, imsi, lo + 1, hi);
      }
    }
  }

  /** One lookup takes the head of the cycle and moves it to the back. */
  lemma LookupRotates(db: seq<Triplet>, imsi: string, pos: nat)
    requires pos <= |db|
    ensures var c := Cycle(db, imsi, pos);
            if c == [] then NextTriplet(db, pos, imsi) == None
            else NextTriplet(db, pos, imsi) == Some(c[0]) && Cycle(db, imsi, c[0] + 1) == c[1..] + [c[0]]
  {
    MatchesFirst(db, imsi, pos, |db|);
    MatchesFirst(db, imsi, 0, pos);
    var i, j := FirstMatch(db, imsi, pos, |db|), FirstMatch(db, imsi, 0, pos);
    if i < |db| {
      RotateAhead(db, imsi, pos, i);
    } else if j < pos {
      RotateWrapped(db, imsi, pos, j);
    }
  }

  lemma RotateAhead(db: seq<Triplet>, imsi: string, pos: nat, i: nat)
    requires pos <= i < |db| && i == FirstMatch(db, imsi, pos, |db|)
    ensures var c := Cycle(db, imsi, pos);
            c != [] && c[0] == i && Cycle(db, imsi, i + 1) == c[1..] + [i]
  {
    MatchesFirst(db, imsi, pos, |db|);
    MatchesSplit(db, imsi, 0, pos, i + 1);
    var a, b := Matches(db, imsi, i + 1, |db|), Matches(db, imsi, 0, pos);
    assert Cycle(db, imsi, pos) == [i] + a + b;
    assert ([i] + a + b)[1..] == a + b;
    assert a + (b + [i]) == a + b + [i];
  }

  lemma RotateWrapped(db: seq<Triplet>, imsi: string, pos: nat, j: nat)
    requires j < pos <= |db| && FirstMatch(db, imsi, pos, |db|) == |db| && j == FirstMatch(db, imsi, 0, pos)
    ensures var c := Cycle(db, imsi, pos);
            c != [] && c[0] == j && Cycle(db, imsi, j + 1) == c[1..] + [j]
  {
    MatchesFirst(db, imsi, pos, |db|);
    MatchesFirst(db, imsi, 0, pos);
    MatchesSplit(db, imsi, j + 1, pos, |db|);
    var a := Matches(db, imsi, j + 1, pos);
    assert Cycle(db, imsi, pos) == [j] + a;
    assert ([j] + a)[1..] == a;
    assert Cycle(db, imsi, j + 1) == a + [] + [j];
  }

  lemma RotatedIndex(t: nat, k: nat)
    requires t >= 1 && k >= 1
    ensures t % k == if (t - 1) % k == k - 1 then 0 else (t - 1) % k + 1
  {
    var q, r := (t - 1) / k, (t - 1) % k;
    assert (q + 1) * k == q * k + k;
    if r == k - 1 {
      DivModUnique(t, q + 1, k, 0);
    } else {
      DivModUnique(t, q, k, r + 1);
    }
  }

  /** w visits the members of c in cyclic order, starting with the first. */
  ghost predicate WalksCycle(w: seq<nat>, c: seq<nat>)
  {
    c != [] && forall t :: 0 <= t < |w| ==> w[t] == c[t % |c|]
  }

  /** A cyclic walk over the rotated list continues one over the list itself. */
  lemma RotatedWalk(c: seq<nat>, w: seq<nat>)
    requires c != [] && WalksCycle(w, c[1..] + [c[0]])
    ensures WalksCycle([c[0]] + w, c)
  {
    forall t | 0 <= t < |w| + 1
      ensures ([c[0]] + w)[t] == c[t % |c|]
    {
      if t > 0 {
        RotatedIndex(t, |c|);
        assert w[t - 1] == (c[1..] + [c[0]])[(t - 1) % |c|];
      } else {
        SmallMod(0, |c|);
      }
    }
  }

  /** w takes the head of c, then of c rotated by one, and so on. */
  ghost predicate Rotates(w: seq<nat>, c: seq<nat>)
    requires c != []
    decreases |w|
  {
    w == [] || (w[0] == c[0] && Rotates(w[1..], c[1..] + [c[0]]))
  }

  lemma {:induction false} RotatesIsWalk(w: seq<nat>, c: seq<nat>)
    requires c != [] && Rotates(w, c)
    ensures WalksCycle(w, c)
    decreases |w|
  {
    if w != [] {
      RotatesIsWalk(w[1..], c[1..] + [c[0]]);
      RotatedWalk(c, w[1..]);
      assert w == [c[0]] + w[1..];
    }
  }

  lemma {:induction false} LookupsRotate(db: seq<Triplet>, imsi: string, pos: nat, n: nat, c: seq<nat>)
    requires pos <= |db| && c == Cycle(db, imsi, pos)
    ensures var w := Lookups(db, pos, imsi, n);
            if c == [] then w == [] else |w| == n && Rotates(w, c)
    decreases n
  {
    LookupRotates(db, imsi, pos);
    if n > 0 {
      LookupsUnfold(db, pos, imsi, n);
      if c != [] {
        LookupsRotate(db, imsi, c[0] + 1, n - 1, c[1..] + [c[0]]);
        var w, rest := Lookups(db, pos, imsi, n), Lookups(db, c[0] + 1, imsi, n - 1);
        assert w[0] == c[0] && w[1..] == rest;
      }
    }
  }

  /**
    Any number of consecutive lookups for one IMSI walks its triplets in cyclic
    order: lookup t returns member t mod k of the cycle of its k triplets.
   */
  lemma LookupsWalkTheCycle(db: seq<Triplet>, imsi: string, pos: nat, n: nat)
    requires pos <= |db|
    ensures var c, w := Cycle(db, imsi, pos), Lookups(db, pos, imsi, n);
            if c == [] then w == [] else |w| == n && WalksCycle(w, c)
  {
    var c := Cycle(db, imsi, pos);
    LookupsRotate(db, imsi, pos, n, c);
    if c != [] {
      RotatesIsWalk(Lookups(db, pos, imsi, n), c);
    }
  }

  lemma CycleDistinct(db: seq<Triplet>, imsi: string, pos: nat)
    requires pos <= |db|
    ensures var c := Cycle(db, imsi, pos);
            forall t, u :: 0 <= t < u < |c| ==> c[t] != c[u]
    ensures var c := Cycle(db, imsi, pos);
            forall i :: 0 <= i < |db| ==> (i in c <==> db[i].imsi == imsi)
  {
    var a, b := Matches(db, imsi, pos, |db|), Matches(db, imsi, 0, pos);
    var c := a + b;
    forall i: int
      ensures i in c <==> 0 <= i < |db| && db[i].imsi == imsi
      ensures i in a ==> pos <= i
      ensures i in b ==> i < pos
    {
      MatchesBelong(db, imsi, pos, |db|, i);
      MatchesBelong(db, imsi, 0, pos, i);
    }
    forall t, u | 0 <= t < u < |c|
      ensures c[t] != c[u]
    {
      if u < |a| {
        MatchesAscend(db, imsi, pos, |db|, t, u);
      } else if t >= |a| {
        MatchesAscend(db, imsi, 0, pos, t - |a|, u - |a|);
      } else {
        assert c[t] in a && c[u] in b;
      }
    }
  }

  /** A lookup fails exactly when the list has no triplet for the IMSI. */
  lemma LookupFailsIffNone(db: seq<Triplet>, imsi: string, pos: nat)
    requires pos <= |db|
    ensures NextTriplet(db, pos, imsi).None? <==> forall i :: 0 <= i < |db| ==> db[i].imsi != imsi
  {
    LookupRotates(db, imsi, pos);
    CycleDistinct(db, imsi, pos);
    var c := Cycle(db, imsi, pos);
    if c != [] {
      assert c[0] in c;
    }
  }

  /** Any k or fewer consecutive lookups return k different triplets of the IMSI. */
  lemma LookupsDistinct(db: seq<Triplet>, imsi: string, pos: nat, n: nat)
    requires pos <= |db|
    requires n <= |Cycle(db, imsi, pos)|
    ensures |Lookups(db, pos, imsi, n)| == n
    ensures forall t, u :: 0 <= t < u < n ==> Lookups(db, pos, imsi, n)[t] != Lookups(db, pos, imsi, n)[u]
    ensures n == |Cycle(db, imsi, pos)| ==> Lookups(db, pos, imsi, n) == Cycle(db, imsi, pos)
  {
    LookupsWalkTheCycle(db, imsi, pos, n);
    CycleDistinct(db, imsi, pos);
    var c, w := Cycle(db, imsi, pos), Lookups(db, pos, imsi, n);
    forall t | 0 <= t < n
      ensures w[t] == c[t]
    {
      SmallMod(t, |c|);
    }
  }

  // ---- interleaved lookups ----------------------------------------------------------

  /** The triplets of imsi that a cursor passes on its way from p to q. */
  function Arc(db: seq<Triplet>, imsi: string, p: nat, q: nat): seq<nat>
    requires p <= |db| && q <= |db|
  {
    if p <= q then Matches(db, imsi, p, q) else Matches(db, imsi, p, |db|) + Matches(db, imsi, 0, q)
  }

  /** Seen from either end, the cycle is the two arcs between the cursors. */
  lemma CycleIsArcs(db: seq<Triplet>, imsi: string, p: nat, q: nat)
    requires p <= |db| && q <= |db| && p != q
    ensures Cycle(db, imsi, p) == Arc(db, imsi, p, q) + Arc(db, imsi, q, p)
  {
    if p < q {
      MatchesSplit(db, imsi, p, q, |db|);
    } else {
      MatchesSplit(db, imsi, 0, q, p);
    }
  }

  /** None or all of the IMSI's triplets lie on the way from p to q. */
  predicate NoneOrAll(db: seq<Triplet>, imsi: string, p: nat, q: nat)
    requires p <= |db| && q <= |db|
  {
    var arc := Arc(db, imsi, p, q);
    arc == [] || |arc| == |Cycle(db, imsi, p)|
  }

  /** Two cursors give the same triplet exactly when none or all of them lie between. */
  lemma SameNextIff(db: seq<Triplet>, imsi: string, p: nat, q: nat)
    requires p <= |db| && q <= |db|
    ensures NextTriplet(db, q, imsi) == NextTriplet(db, p, imsi) <==> NoneOrAll(db, imsi, p, q)
  {
    if p != q {
      var x, y := Arc(db, imsi, p, q), Arc(db, imsi, q, p);
      CycleIsArcs(db, imsi, p, q);
      CycleIsArcs(db, imsi, q, p);
      LookupRotates(db, imsi, p);
      LookupRotates(db, imsi, q);
      CycleDistinct(db, imsi, p);
      var c := Cycle(db, imsi, p);
      if x != [] && y != [] {
        assert c[0] == x[0] && c[|x|] == y[0];
      } else {
        assert x + y == y + x;
      }
    }
  }

  /** What imsi's own lookups return while any IMSIs are looked up in turn. */
  function OwnLookups(db: seq<Triplet>, pos: nat, reqs: seq<string>, imsi: string): (r: seq<Option<nat>>)
    requires pos <= |db|
    decreases |reqs|
  {
    if reqs == [] then []
    else
      (if reqs[0] == imsi then [NextTriplet(db, pos, imsi)] else [])
      + OwnLookups(db, CursorAfter(db, pos, reqs[0]), reqs[1..], imsi)
  }

  /**
    At each lookup for imsi, none or all of its triplets lie on the way from `mark`,
    where its previous lookup left the cursor, to where the cursor is now.
   */
  predicate Undisturbed(db: seq<Triplet>, mark: nat, pos: nat, reqs: seq<string>, imsi: string)
    requires mark <= |db| && pos <= |db|
    decreases |reqs|
  {
    if reqs == [] then true
    else
      var next := CursorAfter(db, pos, reqs[0]);
      if reqs[0] != imsi then Undisturbed(db, mark, next, reqs[1..], imsi)
      else NoneOrAll(db, imsi, mark, pos) && Undisturbed(db, next, next, reqs[1..], imsi)
  }

  /** w takes the head of c, then of c rotated by one, and so on. */
  ghost predicate Served(w: seq<Option<nat>>, c: seq<nat>)
    requires c != []
    decreases |w|
  {
    w == [] || (w[0] == Some(c[0]) && Served(w[1..], c[1..] + [c[0]]))
  }

  lemma {:induction false} ServedIffUndisturbed(db: seq<Triplet>, mark: nat, pos: nat, reqs: seq<string>, imsi: string,
                                                c: seq<nat>)
    requires mark <= |db| && pos <= |db| && c == Cycle(db, imsi, mark) && c != []
    ensures Served(OwnLookups(db, pos, reqs, imsi), c) <==> Undisturbed(db, mark, pos, reqs, imsi)
    decreases |reqs|
  {
    if reqs != [] {
      var next, rest := CursorAfter(db, pos, reqs[0]), reqs[1..];
      var later := OwnLookups(db, next, rest, imsi);
      if reqs[0] != imsi {
        ServedIffUndisturbed(db, mark, next, rest, imsi, c);
        assert [] + later == later;
      } else {
        SameNextIff(db, imsi, mark, pos);
        LookupRotates(db, imsi, mark);
        var w := [NextTriplet(db, pos, imsi)] + later;
        assert w[0] == NextTriplet(db, pos, imsi) && w[1..] == later;
        if NoneOrAll(db, imsi, mark, pos) {
          assert next == c[0] + 1;
          ServedIffUndisturbed(db, next, next, rest, imsi, c[1..] + [c[0]]);
        }
      }
    }
  }

  /** w visits the members of c in cyclic order, and never misses. */
  ghost predicate ServesCycle(w: seq<Option<nat>>, c: seq<nat>)
  {
    c != [] && forall t :: 0 <= t < |w| ==> w[t] == Some(c[t % |c|])
  }

  lemma RotatedServes(c: seq<nat>, w: seq<Option<nat>>)
    requires c != [] && w != []
    ensures ServesCycle(w, c) <==> w[0] == Some(c[0]) && ServesCycle(w[1..], c[1..] + [c[0]])
  {
    var k, c', w' := |c|, c[1..] + [c[0]], w[1..];
    SmallMod(0, k);
    forall t | 0 < t < |w|
      ensures w'[t - 1] == w[t] && c'[(t - 1) % k] == c[t % k]
    {
      RotatedIndex(t, k);
    }
    if ServesCycle(w, c) {
      forall t | 0 <= t < |w'|
        ensures w'[t] == Some(c'[t % |c'|])
      {
        var u := t + 1;
        assert w[u] == Some(c[u % k]) && c'[(u - 1) % k] == c[u % k];
      }
    }
  }

  lemma {:induction false} ServedIsCyclic(w: seq<Option<nat>>, c: seq<nat>)
    requires c != []
    ensures Served(w, c) <==> ServesCycle(w, c)
    decreases |w|
  {
    if w != [] {
      ServedIsCyclic(w[1..], c[1..] + [c[0]]);
      RotatedServes(c, w);
    }
  }

  /**
    Fairness under any interleaving: while any IMSIs are looked up in any order, the
    lookups of one IMSI walk its triplets in cyclic order if and only if, at each of
    them, the cursor has passed none or all of its triplets since its previous one.
   */
  lemma InterleavedFairIff(db: seq<Triplet>, pos: nat, reqs: seq<string>, imsi: string)
    requires pos <= |db| && Cycle(db, imsi, pos) != []
    ensures ServesCycle(OwnLookups(db, pos, reqs, imsi), Cycle(db, imsi, pos))
            <==> Undisturbed(db, pos, pos, reqs, imsi)
  {
    var c := Cycle(db, imsi, pos);
    ServedIffUndisturbed(db, pos, pos, reqs, imsi, c);
    ServedIsCyclic(OwnLookups(db, pos, reqs, imsi), c);
  }

  /** What n lookups return when two subscribers take turns, the first one first. */
  function Turns(db: seq<Triplet>, pos: nat, a: string, b: string, n: nat): (r: seq<Option<nat>>)
    requires pos <= |db|
    ensures |r| == n
    decreases n
  {
    if n == 0 then [] else [NextTriplet(db, pos, a)] + Turns(db, CursorAfter(db, pos, a), b, a, n - 1)
  }

  /**
    The walk is fair only to consecutive lookups. With the list A1, A2, B1, two
    subscribers taking turns from the NULL cursor see A1 and B1 for ever: A2 is
    never handed out.
   */
  lemma {:induction false} SharedCursorStarves(db: seq<Triplet>, a: string, b: string, n: nat)
    requires |db| == 3 && a != b
    requires db[0].imsi == a && db[1].imsi == a && db[2].imsi == b
    ensures forall t :: 0 <= t < n ==> Turns(db, 3, a, b, n)[t] == Some(if t % 2 == 0 then 0 else 2)
    decreases n
  {
    assert FirstMatch(db, b, 1, 3) == FirstMatch(db, b, 2, 3);
    assert NextTriplet(db, 3, a) == Some(0) && CursorAfter(db, 3, a) == 1;
    assert NextTriplet(db, 1, b) == Some(2) && CursorAfter(db, 1, b) == 3;
    if n >= 2 {
      SharedCursorStarves(db, a, b, n - 2);
      var rest := Turns(db, 3, a, b, n - 2);
      assert Turns(db, 3, a, b, n) == [Some(0)] + ([Some(2)] + rest);
    }
  }
}
