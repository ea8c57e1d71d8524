/** Feature slots and the inputs that own them: each slot records the size of the input that took it
    last, and that input's index; each input counts its slots. A slot of size zero was never hit. */
module Ownership {
  import opened FeatureSlots

  datatype Table = Table(counts: seq<nat>, sizes: seq<nat>, owners: seq<nat>, added: nat)

  ghost predicate Shape(t: Table) {
    |t.sizes| == |t.owners| == FEATURE_SET_SIZE
  }

  ghost function Seen(t: Table): set<nat>
    requires Shape(t)
  {
    set s | 0 <= s < FEATURE_SET_SIZE && t.sizes[s] > 0
  }

  ghost function Owned(t: Table, i: nat): set<nat>
    requires Shape(t)
  {
    set s | 0 <= s < FEATURE_SET_SIZE && t.sizes[s] > 0 && t.owners[s] == i
  }

  function Total(counts: seq<nat>): nat {
    if counts == [] then 0 else Total(counts[..|counts| - 1]) + counts[|counts| - 1]
  }

  /** The counters agree with who owns what; `pending` slots belong to the input about to be added. */
  ghost predicate Consistent(t: Table, pending: nat) {
    && Shape(t)
    && (forall i | 0 <= i < |t.counts| :: t.counts[i] == |Owned(t, i)|)
    && |Owned(t, |t.counts|)| == pending
    && Total(t.counts) + pending == t.added == |Seen(t)|
    && forall s | 0 <= s < FEATURE_SET_SIZE && t.sizes[s] > 0 :: t.owners[s] <= |t.counts|
  }

  /** What taking a slot needs: an owner there is must exist and count it. */
  ghost predicate CanTake(t: Table, s: nat) {
    && Shape(t) && s < FEATURE_SET_SIZE
    && (t.sizes[s] > 0 ==> t.owners[s] < |t.counts| && t.counts[t.owners[s]] > 0)
  }

  /** The input about to be added takes slot `s`. */
  function Take(t: Table, s: nat, newSize: nat): Table
    requires CanTake(t, s)
  {
    var o := t.owners[s];
    Table(if t.sizes[s] > 0 then t.counts[o := t.counts[o] - 1] else t.counts,
          t.sizes[s := newSize], t.owners[s := |t.counts|], if t.sizes[s] > 0 then t.added else t.added + 1)
  }

  function Append(t: Table, count: nat): Table {
    t.(counts := t.counts + [count])
  }

  lemma {:induction false} TotalUpdate(counts: seq<nat>, i: nat, n: nat)
    requires i < |counts|
    ensures Total(counts[i := n]) + counts[i] == Total(counts) + n
  {
    var k := |counts| - 1;
    if i < k {
      TotalUpdate(counts[..k], i, n);
      assert counts[i := n][..k] == counts[..k][i := n];
    } else {
      assert counts[i := n][..k] == counts[..k];
    }
  }

  lemma CardinalityOfMove(a: set<nat>, s: nat)
    ensures |a + {s}| == |a| + if s in a then 0 else 1
    ensures |a - {s}| + (if s in a then 1 else 0) == |a|
  {
    if s in a {
      assert a + {s} == a && a == (a - {s}) + {s};
    } else {
      assert a - {s} == a;
    }
  }

  lemma InOwned(t: Table, s: nat, i: nat)
    requires Shape(t) && s < FEATURE_SET_SIZE
    ensures s in Owned(t, i) <==> t.sizes[s] > 0 && t.owners[s] == i
    ensures s in Owned(t, i) ==> |Owned(t, i)| > 0
    ensures s in Seen(t) <==> t.sizes[s] > 0
  {
  }

  lemma OwnerExists(t: Table, pending: nat, s: nat)
    requires Consistent(t, pending) && s < FEATURE_SET_SIZE && s !in Owned(t, |t.counts|)
    ensures CanTake(t, s)
  {
    InOwned(t, s, t.owners[s]);
    InOwned(t, s, |t.counts|);
  }

  lemma OwnedMoves(t: Table, s: nat, newSize: nat, i: nat)
    requires CanTake(t, s) && newSize > 0 && i <= |t.counts| && s !in Owned(t, |t.counts|)
    ensures var t' := Take(t, s, newSize);
            && Shape(t') && Owned(t', i) == (if i == |t.counts| then Owned(t, i) + {s} else Owned(t, i) - {s})
            && Seen(t') == Seen(t) + {s}
  {
  }

  lemma OwnedAfterTake(t: Table, s: nat, newSize: nat, i: nat)
    requires CanTake(t, s) && newSize > 0 && i <= |t.counts| && s !in Owned(t, |t.counts|)
    ensures var t' := Take(t, s, newSize);
            && Shape(t')
            && |Owned(t', i)| == (if i == |t.counts| then |Owned(t, i)| + 1
                                  else |Owned(t, i)| - if s in Owned(t, i) then 1 else 0)
            && |Seen(t')| == |Seen(t)| + if t.sizes[s] == 0 then 1 else 0
  {
    hide Owned, Seen, Take;
    InOwned(t, s, i);
    OwnedMoves(t, s, newSize, i);
    CardinalityOfMove(Owned(t, i), s);
    CardinalityOfMove(Seen(t), s);
  }

  /** Taking a slot keeps all counters right. */
  lemma TakeConsistent(t: Table, s: nat, newSize: nat, pending: nat)
    requires Consistent(t, pending) && CanTake(t, s) && newSize > 0 && s !in Owned(t, |t.counts|)
    ensures Consistent(Take(t, s, newSize), pending + 1)
  {
    hide Owned, Seen;
    var t' := Take(t, s, newSize);
    forall i | 0 <= i < |t.counts| ensures t'.counts[i] == |Owned(t', i)| {
      OwnedAfterTake(t, s, newSize, i);
      InOwned(t, s, i);
    }
    OwnedAfterTake(t, s, newSize, |t.counts|);
    if t.sizes[s] > 0 {
      TotalUpdate(t.counts, t.owners[s], t'.counts[t.owners[s]]);
    }
  }

  /** The input added must be given exactly the slots it took. */
  lemma AppendConsistent(t: Table, pending: nat, count: nat)
    requires Consistent(t, pending)
    ensures Consistent(Append(t, count), 0) <==> count == pending
  {
    var t' := Append(t, count);
    assert forall i :: Owned(t', i) == Owned(t, i);
    assert Seen(t') == Seen(t);
    assert t'.counts[..|t.counts|] == t.counts && t'.counts[|t.counts|] == count;
    if count == pending {
      assert Owned(t', |t'.counts|) == {};
    }
  }

  lemma OwnedBounded(t: Table, i: nat)
    requires Shape(t)
    ensures |Owned(t, i)| <= FEATURE_SET_SIZE
  {
    RangeSize(FEATURE_SET_SIZE, Owned(t, i));
  }

  lemma {:induction false} RangeSize(n: nat, a: set<nat>)
    requires forall x | x in a :: x < n
    ensures |a| <= n
  {
    if n == 0 {
      assert a == {};
    } else {
      RangeSize(n - 1, a - {n - 1});
      CardinalityOfMove(a, n - 1);
    }
  }

  lemma EmptyConsistent(t: Table)
    requires Shape(t) && t.counts == [] && t.added == 0
    requires forall s | 0 <= s < FEATURE_SET_SIZE :: t.sizes[s] == 0
    ensures Consistent(t, 0)
  {
    assert Seen(t) == {} && Owned(t, 0) == {};
  }
}
