/**
  What repeated SQN increments guarantee: the closed form of n increments, when
  the value grows, how bytes compare, and that a batch of SQNs passes the
  per-IND freshness check of section C.2.2 of 3GPP TS 33.102 in any order.
 */
module SqnFreshness {
  import opened Bits
  import opened ByteOrder
  import opened Sqn

  // ---- closed form ---------------------------------------------------------------

  /** The halves of an advanced SQN, each reduced in its own ring. */
  lemma AdvanceHalves(v: nat, k: nat, n: nat)
    requires k <= MAX_IND_LEN
    ensures Seq(Advance(v, k, n), k) == (Seq(v, k) + n) % SeqCount(k)
    ensures Ind(Advance(v, k, n), k) == (Ind(v, k) + n) % Pow2(k)
  {
    Unpack((Seq(v, k) + n) % SeqCount(k), Pow2(k), (Ind(v, k) + n) % Pow2(k));
  }

  lemma AdvanceCompose(v: nat, k: nat, m: nat, n: nat)
    requires k <= MAX_IND_LEN
    ensures Advance(Advance(v, k, m), k, n) == Advance(v, k, m + n)
  {
    AdvanceHalves(v, k, m);
    RingCompose(Seq(v, k), m, n, SeqCount(k));
    RingCompose(Ind(v, k), m, n, Pow2(k));
  }

  lemma RingCompose(a: nat, m: nat, n: nat, c: nat)
    requires c >= 1
    ensures ((a + m) % c + n) % c == (a + (m + n)) % c
  {
    AddThenMod(a + m, n, c);
  }

  lemma AdvanceNone(v: nat, k: nat)
    requires k <= MAX_IND_LEN && v < SQN_MOD
    ensures Advance(v, k, 0) == v
    ensures Seq(v, k) < SeqCount(k)
  {
    SeqTimesInd(k);
    PackedAgain(v, Pow2(k), SeqCount(k));
  }

  lemma PackedAgain(v: nat, p: nat, c: nat)
    requires p >= 1 && c >= 1 && v < c * p
    ensures Quotient(v, p) < c
    ensures Pack((Quotient(v, p) + 0) % c, p, (Remainder(v, p) + 0) % p) == v
  {
    SeqBelow(v, p, c);
    SmallMod(v / p, c);
    SmallMod(v % p, p);
    Repacked(v, p);
  }

  lemma SeqBelow(v: nat, p: nat, c: nat)
    requires p >= 1 && v < c * p
    ensures v / p < c
  {
    if c <= v / p {
      MulMono(c, v / p, p);
    }
  }

  /** The stored bytes after n calls of inc_sqn. */
  function IncTimes(s: Sqn6, k: nat, n: nat): Sqn6
    requires k <= MAX_IND_LEN
  {
    if n == 0 then s else NextSqn(IncTimes(s, k, n - 1), k)
  }

  /** After n increments SEQ is SEQ0 + n and IND is IND0 + n, each in its ring. */
  lemma {:induction false} IncTimesClosedForm(s: Sqn6, k: nat, n: nat)
    requires k <= MAX_IND_LEN
    ensures BeValue(IncTimes(s, k, n)) == Advance(BeValue(s), k, n)
    ensures Seq(BeValue(IncTimes(s, k, n)), k) == (Seq(BeValue(s), k) + n) % SeqCount(k)
    ensures Ind(BeValue(IncTimes(s, k, n)), k) == (Ind(BeValue(s), k) + n) % Pow2(k)
  {
    SqnBound(s);
    if n == 0 {
      AdvanceNone(BeValue(s), k);
    } else {
      IncTimesClosedForm(s, k, n - 1);
      NextSqnValue(IncTimes(s, k, n - 1), k);
      AdvanceCompose(BeValue(s), k, n - 1, 1);
    }
    AdvanceHalves(BeValue(s), k, n);
  }

  /** An increment makes the 48-bit value larger exactly when SEQ has room left. */
  lemma IncreaseIffRoom(v: nat, k: nat)
    requires k <= MAX_IND_LEN && v < SQN_MOD
    ensures v < Advance(v, k, 1) <==> Seq(v, k) + 1 < SeqCount(k)
  {
    AdvanceNone(v, k);
    AdvanceHalves(v, k, 1);
    var q, c, w := Seq(v, k), SeqCount(k), Advance(v, k, 1);
    if q + 1 < c {
      SmallMod(q + 1, c);
      LargerSeq(v, w, Pow2(k));
    } else {
      WrappedMod(q + 1, c);
      ManySeqs(k);
      LargerSeq(w, v, Pow2(k));
    }
  }

  lemma WrappedMod(x: nat, m: nat)
    requires x == m >= 1
    ensures x % m == 0
  {
  }

  lemma ManySeqs(k: nat)
    requires k <= MAX_IND_LEN
    ensures SeqCount(k) > 1
  {
    Pow2Mono(1, SQN_BITS - k);
  }

  lemma LargerSeq(v: nat, w: nat, p: nat)
    requires p >= 1 && v / p < w / p
    ensures v < w
  {
    PackMono(v / p, v % p, w / p, w % p, p);
    Repacked(v, p);
    Repacked(w, p);
  }

  /** While SEQ has room, later SQNs of a run are larger, and have a larger SEQ. */
  lemma AdvanceMonotone(v: nat, k: nat, m: nat, n: nat)
    requires k <= MAX_IND_LEN
    requires m < n && Seq(v, k) + n < SeqCount(k)
    ensures Advance(v, k, m) < Advance(v, k, n)
    ensures Seq(Advance(v, k, m), k) < Seq(Advance(v, k, n), k)
  {
    AdvanceHalves(v, k, m);
    AdvanceHalves(v, k, n);
    SmallMod(Seq(v, k) + m, SeqCount(k));
    SmallMod(Seq(v, k) + n, SeqCount(k));
    LargerSeq(Advance(v, k, m), Advance(v, k, n), Pow2(k));
  }

  // ---- freshness of a batch -------------------------------------------------------

  /** The two halves of a received SQN. */
  datatype Received = Received(sq: nat, ind: nat)

  function Halves(sqn: nat, k: nat): Received { Received(Seq(sqn, k), Ind(sqn, k)) }

  /** The highest SEQ accepted so far for each IND value. */
  type SeqStore = seq<int>

  predicate Fresh(store: SeqStore, r: Received) { r.ind < |store| && r.sq > store[r.ind] }

  function Receive(store: SeqStore, r: Received): (store': SeqStore)
    ensures |store'| == |store|
  {
    if Fresh(store, r) then store[r.ind := r.sq] else store
  }

  /** The receiver's verdicts on batch members delivered in the given order. */
  function Verdicts(store: SeqStore, batch: seq<Received>, order: seq<nat>): (r: seq<bool>)
    requires forall i :: 0 <= i < |order| ==> order[i] < |batch|
    ensures |r| == |order|
    decreases |order|
  {
    if order == [] then []
    else [Fresh(store, batch[order[0]])] + Verdicts(Receive(store, batch[order[0]]), batch, order[1..])
  }

  ghost predicate DistinctInds(batch: seq<Received>, size: nat)
  {
    && (forall t :: 0 <= t < |batch| ==> batch[t].ind < size)
    && (forall t, u :: 0 <= t < u < |batch| ==> batch[t].ind != batch[u].ind)
  }

  /** The store after receiving exactly the batch members in `seen`. */
  ghost predicate StoreHolds(store: SeqStore, batch: seq<Received>, seen: set<nat>)
    requires DistinctInds(batch, |store|)
  {
    forall t :: 0 <= t < |batch| ==>
      if t in seen then store[batch[t].ind] == batch[t].sq else store[batch[t].ind] < batch[t].sq
  }

  lemma ReceiveKeepsStore(store: SeqStore, batch: seq<Received>, seen: set<nat>, t: nat)
    requires DistinctInds(batch, |store|) && StoreHolds(store, batch, seen) && t < |batch|
    ensures Fresh(store, batch[t]) <==> t !in seen
    ensures StoreHolds(Receive(store, batch[t]), batch, seen + {t})
  {
    var store' := Receive(store, batch[t]);
    forall u | 0 <= u < |batch|
      ensures if u in seen + {t} then store'[batch[u].ind] == batch[u].sq else store'[batch[u].ind] < batch[u].sq
    {
      if u != t {
        assert batch[u].ind != batch[t].ind;
      }
    }
  }

  lemma SeenBefore(order: seq<nat>, seen: set<nat>, i: nat)
    requires 0 < i < |order|
    ensures var rest := order[1..];
            order[i] in seen || order[i] in order[..i]
            <==> rest[i - 1] in seen + {order[0]} || rest[i - 1] in rest[..i - 1]
  {
    assert order[..i] == [order[0]] + order[1..][..i - 1];
  }

  lemma {:induction false} VerdictAt(store: SeqStore, batch: seq<Received>, seen: set<nat>, order: seq<nat>, i: nat)
    requires DistinctInds(batch, |store|) && StoreHolds(store, batch, seen)
    requires i < |order| && forall j :: 0 <= j < |order| ==> order[j] < |batch|
    ensures Verdicts(store, batch, order)[i] <==> order[i] !in seen && order[i] !in order[..i]
    decreases |order|
  {
    var t, rest := order[0], order[1..];
    ReceiveKeepsStore(store, batch, seen, t);
    if i > 0 {
      var store' := Receive(store, batch[t]);
      VerdictAt(store', batch, seen + {t}, rest, i - 1);
      SeenBefore(order, seen, i);
      assert Verdicts(store, batch, order)[i] == Verdicts(store', batch, rest)[i - 1];
    }
  }

  lemma RingDistinct(a: nat, t: nat, u: nat, m: nat)
    requires m >= 1 && t < u < t + m
    ensures (a + t) % m != (a + u) % m
  {
    var x, y := (a + t) / m, (a + u) / m;
    if (a + t) % m == (a + u) % m {
      assert (y - x) * m == y * m - x * m;
      MultipleNearZero(y - x, m);
    }
  }

  /** The n SQNs issued after v, as the receiver splits them. */
  function IssuedBatch(v: nat, k: nat, n: nat): (batch: seq<Received>)
    requires k <= MAX_IND_LEN
    ensures |batch| == n
  {
    seq(n, t requires 0 <= t < n => Halves(Advance(v, k, t + 1), k))
  }

  /** Within a batch no longer than the IND ring, IND values are pairwise distinct. */
  lemma BatchIndDistinct(v: nat, k: nat, n: nat)
    requires k <= MAX_IND_LEN && n <= Pow2(k)
    ensures DistinctInds(IssuedBatch(v, k, n), Pow2(k))
  {
    forall t | 0 <= t < n
      ensures IssuedBatch(v, k, n)[t].ind == (Ind(v, k) + (t + 1)) % Pow2(k)
    {
      AdvanceHalves(v, k, t + 1);
    }
    forall t, u | 0 <= t < u < n
      ensures IssuedBatch(v, k, n)[t].ind != IssuedBatch(v, k, n)[u].ind
    {
      RingDistinct(Ind(v, k), t + 1, u + 1, Pow2(k));
    }
  }

  /**
    A batch of at most 2^IND-length SQNs, delivered in any order and with any
    repetitions to a receiver that is not ahead of the batch: every first
    delivery is accepted and every repetition is refused.
   */
  lemma BatchFreshInAnyOrder(store: SeqStore, k: nat, v: nat, n: nat, order: seq<nat>)
    requires k <= MAX_IND_LEN && |store| == Pow2(k)
    requires n <= Pow2(k) && Seq(v, k) + n < SeqCount(k)
    requires forall i :: 0 <= i < |store| ==> store[i] <= Seq(v, k)
    requires forall i :: 0 <= i < |order| ==> order[i] < n
    ensures forall i :: 0 <= i < |order| ==>
              (Verdicts(store, IssuedBatch(v, k, n), order)[i] <==> order[i] !in order[..i])
  {
    BatchIndDistinct(v, k, n);
    BatchSeqs(v, k, n);
    var batch := IssuedBatch(v, k, n);
    forall i | 0 <= i < |order|
      ensures Verdicts(store, batch, order)[i] <==> order[i] !in order[..i]
    {
      VerdictAt(store, batch, {}, order, i);
    }
  }

  lemma BatchSeqs(v: nat, k: nat, n: nat)
    requires k <= MAX_IND_LEN && Seq(v, k) + n < SeqCount(k)
    ensures forall t :: 0 <= t < n ==> IssuedBatch(v, k, n)[t].sq == Seq(v, k) + (t + 1)
  {
    forall t | 0 <= t < n
      ensures IssuedBatch(v, k, n)[t].sq == Seq(v, k) + (t + 1)
    {
      AdvanceHalves(v, k, t + 1);
      SmallMod(Seq(v, k) + (t + 1), SeqCount(k));
    }
  }

  /** Any SQN more than the IND ring holds, and a delivery order is refused. */
  lemma LongerBatchCanFail(store: SeqStore, k: nat, v: nat, n: nat)
    requires k <= MAX_IND_LEN && |store| == Pow2(k)
    requires n > Pow2(k) && Seq(v, k) + n < SeqCount(k)
    requires forall i :: 0 <= i < |store| ==> store[i] <= Seq(v, k)
    ensures Verdicts(store, IssuedBatch(v, k, n), [Pow2(k), 0]) == [true, false]
  {
    var p := Pow2(k);
    RingMeets(v, k, p, n);
    OverwrittenIsStale(store, IssuedBatch(v, k, n), p);
  }

  /** A full turn of the ring later, the IND is the same and the SEQ is larger. */
  lemma RingMeets(v: nat, k: nat, p: nat, n: nat)
    requires k <= MAX_IND_LEN && p == Pow2(k) && n > p && Seq(v, k) + n < SeqCount(k)
    ensures var batch := IssuedBatch(v, k, n);
            batch[p].ind == batch[0].ind < p && batch[p].sq > batch[0].sq > Seq(v, k)
  {
    BatchSeqs(v, k, n);
    IndsMeet(v, k, p);
  }

  lemma IndsMeet(v: nat, k: nat, p: nat)
    requires k <= MAX_IND_LEN && p == Pow2(k)
    ensures Ind(Advance(v, k, p + 1), k) == Ind(Advance(v, k, 1), k) < p
  {
    AdvanceHalves(v, k, 1);
    AdvanceHalves(v, k, p + 1);
    FullTurn(Ind(v, k) + 1, p);
  }

  /** Deliveries of batch members, in some order and with any repetitions. */
  ghost predicate IsDelivery(batch: seq<Received>, order: seq<nat>)
  {
    forall i :: 0 <= i < |order| ==> order[i] < |batch|
  }

  /** Whatever the order, first deliveries are accepted and repetitions refused. */
  ghost predicate FreshInAnyOrder(store: SeqStore, batch: seq<Received>)
  {
    forall order :: IsDelivery(batch, order) ==>
      forall i :: 0 <= i < |order| ==> (Verdicts(store, batch, order)[i] <==> order[i] !in order[..i])
  }

  /** The size of the IND ring is the exact bound on a batch that may be delivered in any order. */
  lemma BatchBoundExact(store: SeqStore, k: nat, v: nat, n: nat)
    requires k <= MAX_IND_LEN && |store| == Pow2(k) && Seq(v, k) + n < SeqCount(k)
    requires forall i :: 0 <= i < |store| ==> store[i] <= Seq(v, k)
    ensures FreshInAnyOrder(store, IssuedBatch(v, k, n)) <==> n <= Pow2(k)
  {
    var batch := IssuedBatch(v, k, n);
    if n <= Pow2(k) {
      forall order | IsDelivery(batch, order)
        ensures forall i :: 0 <= i < |order| ==> (Verdicts(store, batch, order)[i] <==> order[i] !in order[..i])
      {
        BatchFreshInAnyOrder(store, k, v, n, order);
      }
    } else {
      LongerBatchCanFail(store, k, v, n);
      RefusedOrder(store, batch, Pow2(k));
    }
  }

  lemma RefusedOrder(store: SeqStore, batch: seq<Received>, p: nat)
    requires 0 < p < |batch| && Verdicts(store, batch, [p, 0]) == [true, false]
    ensures !FreshInAnyOrder(store, batch)
  {
    var order := [p, 0];
    assert IsDelivery(batch, order);
    assert order[1] !in order[..1];
    assert !Verdicts(store, batch, order)[1];
  }

  lemma OverwrittenIsStale(store: SeqStore, batch: seq<Received>, t: nat)
    requires 0 < t < |batch| && batch[0].ind == batch[t].ind < |store|
    requires batch[t].sq > batch[0].sq && batch[t].sq > store[batch[t].ind]
    ensures Verdicts(store, batch, [t, 0]) == [true, false]
  {
    assert [t, 0][1..] == [0];
    var store' := Receive(store, batch[t]);
    assert Verdicts(store', batch, [0]) == [false];
  }

  lemma FullTurn(a: nat, p: nat)
    requires p >= 1
    ensures (a + p) % p == a % p
  {
    assert (a / p + 1) * p == (a / p) * p + p;
    DivModUnique(a + p, a / p + 1, p, a % p);
  }
}
