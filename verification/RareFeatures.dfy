/** What the eviction of rare features achieves, and what it does not. */
module RareFeatures {
  import opened Widths
  import opened Collections
  import opened FeatureSlots
  import opened Frequencies

  /** Position `at` holds the last of the most abundant rare features. */
  ghost predicate LastMaximum(rare: seq<nat>, global: seq<nat>, at: nat)
    requires forall k | 0 <= k < |rare| :: rare[k] < |global|
  {
    && at < |rare|
    && (forall k | 0 <= k < |rare| :: global[rare[k]] <= global[rare[at]])
    && (forall k | at < k < |rare| :: global[rare[k]] < global[rare[at]])
  }

  /** The scan deletes the last maximum; its second candidate is the greatest of those before that, or the maximum
      itself if it comes first. */
  lemma {:induction false} ScanFinds(rare: seq<nat>, global: seq<nat>, n: nat)
    requires 0 < n <= |rare| && forall k | 0 <= k < |rare| :: rare[k] < |global|
    ensures var (first, second, at) := Scan(rare, global, n);
            && first == rare[at] && LastMaximum(rare[..n], global, at)
            && (if at == 0 then second == first
                else second in rare[..at] && forall k | 0 <= k < at :: global[rare[k]] <= global[second])
  {
    if n > 1 {
      ScanFinds(rare, global, n - 1);
      var (first, second, at) := Scan(rare, global, n - 1);
      if global[rare[n - 1]] >= global[first] {
        assert first == rare[..n - 1][at];
      }
    }
  }

  /** One round: the last of the most abundant rare features goes, from the list and from every input, and no other. */
  ghost predicate RoundTold(e: Entropy, at: nat, e': Entropy)
    requires Sane(e) && |e.rare| <= FEATURE_SET_SIZE
  {
    && LastMaximum(e.rare, e.global, at)
    && (forall x :: x in e'.rare <==> x in e.rare && x != e.rare[at])
    && |e'.rare| == |e.rare| - 1 && NoDuplicates(e'.rare)
    && e'.isRare == e.isRare[at := false]
    && e'.lists == DropAll(e.lists, e.rare[at]) && e'.global == e.global
    && RoundBound(e, at, e'.most)
  }

  lemma RoundEvicts(e: Entropy) returns (at: nat)
    requires Evictable(e) && e.rare != [] && NoDuplicates(e.rare)
    ensures RoundTold(e, at, EvictOne(e)) && Evictable(EvictOne(e))
  {
    hide DropAll, Scan, LastMaximum, RoundBound;
    var n := |e.rare|;
    ScanFinds(e.rare, e.global, n);
    at := Scan(e.rare, e.global, n).2;
    assert e.rare[..n] == e.rare;
    RemovedAt(e.rare, at);
    ScanBounds(e);
  }

  lemma ScanBounds(e: Entropy)
    requires Sane(e) && 0 < |e.rare| <= FEATURE_SET_SIZE
    ensures var (_, second, at) := Scan(e.rare, e.global, |e.rare|);
            second < |e.global| && RoundBound(e, at, e.global[second])
  {
    ScanFinds(e.rare, e.global, |e.rare|);
    hide Scan, LastMaximum;
    var (_, second, at) := Scan(e.rare, e.global, |e.rare|);
    if at > 0 {
      var k :| 0 <= k < at && e.rare[k] == second;
    }
  }

  lemma OneLastMaximum(rare: seq<nat>, global: seq<nat>, a: nat, b: nat)
    requires forall k | 0 <= k < |rare| :: rare[k] < |global|
    requires LastMaximum(rare, global, a) && LastMaximum(rare, global, b)
    ensures a == b < |rare|
  {
    assert global[rare[a]] == global[rare[b]];
  }

  /** The new bound: the greatest count before the one evicted; its own count if it came first. */
  ghost predicate RoundBound(e: Entropy, at: nat, most: nat)
    requires Sane(e) && at < |e.rare|
  {
    if at == 0 then most == e.global[e.rare[0]] else
      && (exists k :: 0 <= k < at && e.global[e.rare[k]] == most)
      && forall k | 0 <= k < at :: e.global[e.rare[k]] <= most
  }

  /** Overwriting a position by the last element and shortening. */
  lemma RemovedAt(s: seq<nat>, at: nat)
    requires at < |s| && NoDuplicates(s)
    ensures var t := s[at := s[|s| - 1]][..|s| - 1];
            && NoDuplicates(t) && forall x :: x in t <==> x in s && x != s[at]
  {
    var last := |s| - 1;
    var t := s[at := s[last]][..last];
    forall x | x in s && x != s[at] ensures x in t {
      var i :| 0 <= i < |s| && s[i] == x;
      if i == last { assert t[at] == x; } else { assert t[i] == x; }
    }
  }

  function Least(a: nat, b: nat): nat { if a < b then a else b }

  /** No feature evicted is rarer than one that stays. */
  ghost predicate RarerStay(before: seq<nat>, after: seq<nat>, global: seq<nat>) {
    forall x, y | x in before && x !in after && y in after && x < |global| && y < |global| :: global[y] <= global[x]
  }

  /** Evicted features have no local count left, the others keep theirs. */
  ghost predicate CountsCleared(e: Entropy, e': Entropy) {
    && |e'.lists| == |e.lists|
    && forall i, t | 0 <= i < |e.lists| && 0 <= t < FEATURE_SET_SIZE ::
         CountOf(e'.lists[i], t) == if t in e.rare && t !in e'.rare then 0 else CountOf(e.lists[i], t)
  }

  lemma RoundClears(e: Entropy, at: nat, e': Entropy)
    requires Conserved(e) && at < |e.rare| <= FEATURE_SET_SIZE && RoundTold(e, at, e')
    ensures CountsCleared(e, e')
  {
    ListsWellFormed(e);
    hide CountOf, WellFormed, Drop, Conserved, RoundBound;
    forall i, t | 0 <= i < |e.lists| && 0 <= t < FEATURE_SET_SIZE
      ensures CountOf(e'.lists[i], t) == if t in e.rare && t !in e'.rare then 0 else CountOf(e.lists[i], t)
    {
      DropEffect(e.lists[i], e.rare[at], t);
    }
  }

  lemma ClearedTwice(e0: Entropy, e1: Entropy, e2: Entropy)
    requires CountsCleared(e0, e1) && CountsCleared(e1, e2)
    requires (forall x | x in e1.rare :: x in e0.rare) && forall x | x in e2.rare :: x in e1.rare
    ensures CountsCleared(e0, e2)
  {
    hide CountOf;
  }

  /** The loop keeps at least as many rare features as are wanted, the rarest ones, and stops as soon as there are no
      more than that or the bound is low enough. */
  lemma {:induction false} EvictKeepsRarest(e: Entropy, opts: EntropicOptions)
    requires Conserved(e) && Evictable(e) && NoDuplicates(e.rare)
    ensures var e' := Evict(e, opts);
            && (|e'.rare| <= opts.numRarest || e'.most <= opts.threshold)
            && |e'.rare| >= Least(|e.rare|, opts.numRarest) && (forall x | x in e'.rare :: x in e.rare)
            && (|e.rare| <= opts.numRarest || e.most <= opts.threshold ==> e' == e)
            && NoDuplicates(e'.rare) && e'.global == e.global
            && RarerStay(e.rare, e'.rare, e.global) && CountsCleared(e, e')
    decreases |e.rare|
  {
    hide CountsCleared, RarerStay, RoundBound, Conserved, EvictOne;
    if MustEvict(e, opts) {
      var at := RoundEvicts(e);
      var e1 := EvictOne(e);
      EvictOneConserves(e);
      RoundClears(e, at, e1);
      EvictKeepsRarest(e1, opts);
      ClearedTwice(e, e1, Evict(e, opts));
      RarerStays(e, at, e1.rare, Evict(e, opts).rare);
    } else {
      NothingCleared(e);
    }
  }

  lemma NothingCleared(e: Entropy)
    ensures CountsCleared(e, e) && RarerStay(e.rare, e.rare, e.global)
  {
  }

  lemma RarerStays(e: Entropy, at: nat, between: seq<nat>, after: seq<nat>)
    requires Sane(e) && LastMaximum(e.rare, e.global, at)
    requires (forall x :: x in between <==> x in e.rare && x != e.rare[at]) && forall x | x in after :: x in between
    requires RarerStay(between, after, e.global)
    ensures RarerStay(e.rare, after, e.global)
  {
    forall x, y | x in e.rare && x !in after && y in after && x < |e.global| && y < |e.global|
      ensures e.global[y] <= e.global[x]
    {
      if x == e.rare[at] {
        var k :| 0 <= k < |e.rare| && e.rare[k] == y;
      }
    }
  }

  /** A feature enters with all its counts at zero; what is evicted to make room is as above. */
  lemma AddRareTells(e: Entropy, opts: EntropicOptions, s: nat)
    requires Conserved(e) && Evictable(e) && NoDuplicates(e.rare) && s < FEATURE_SET_SIZE && s !in e.rare
    ensures var e' := AddRare(e, opts, s);
            && e'.rare != [] && e'.rare[|e'.rare| - 1] == s && |e'.isRare| == FEATURE_SET_SIZE && e'.isRare[s]
            && (forall x | x in e'.rare :: x == s || x in e.rare)
            && |e'.rare| > Least(|e.rare|, opts.numRarest)
            && (|e'.rare| <= opts.numRarest + 1 || e'.most <= opts.threshold)
            && RarerStay(e.rare, e'.rare[..|e'.rare| - 1], e.global)
            && e'.global == e.global[s := 0]
            && |e'.lists| == |e.lists|
            && forall i, t | 0 <= i < |e.lists| && 0 <= t < FEATURE_SET_SIZE ::
                 CountOf(e'.lists[i], t)
                 == if t == s || (t in e.rare && t !in e'.rare) then 0 else CountOf(e.lists[i], t)
  {
    hide CountOf, Conserved, Drop;
    EvictKeepsRarest(e, opts);
    EvictConserves(e, opts);
    EvictSane(e, opts);
    var e1, e' := Evict(e, opts), AddRare(e, opts, s);
    assert e'.rare[..|e'.rare| - 1] == e1.rare;
    assert forall t :: t in e'.rare <==> t == s || t in e1.rare;
    forall i, t | 0 <= i < |e.lists| && 0 <= t < FEATURE_SET_SIZE
      ensures CountOf(e'.lists[i], t)
           == if t == s || (t in e.rare && t !in e'.rare) then 0 else CountOf(e.lists[i], t)
    {
      assert WellFormed(e1.lists[i]) by { ListsWellFormed(e1); }
      DropEffect(e1.lists[i], s, t);
    }
  }

  lemma ListsWellFormed(e: Entropy)
    requires Conserved(e)
    ensures forall i | 0 <= i < |e.lists| :: WellFormed(e.lists[i])
  {
  }

  // ----- what a round should do, and when it does

  /** The membership bits agree with the list. */
  ghost predicate Agrees(e: Entropy) {
    |e.isRare| == FEATURE_SET_SIZE && forall s | 0 <= s < FEATURE_SET_SIZE :: e.isRare[s] <==> s in e.rare
  }

  /** A round clears the bit of the position instead of the feature's: the bits agree afterwards iff the two are equal. */
  lemma AgreesIff(e: Entropy, at: nat)
    requires Evictable(e) && e.rare != [] && NoDuplicates(e.rare) && Agrees(e)
    requires LastMaximum(e.rare, e.global, at)
    ensures Agrees(EvictOne(e)) <==> e.rare[at] == at
  {
    hide EvictOne, RoundBound, LastMaximum;
    var at' := RoundEvicts(e);
    OneLastMaximum(e.rare, e.global, at, at');
    AgreesAfter(e, at, EvictOne(e));
  }

  lemma AgreesAfter(e: Entropy, at: nat, e': Entropy)
    requires Sane(e) && at < |e.rare| <= FEATURE_SET_SIZE && Agrees(e) && RoundTold(e, at, e')
    ensures Agrees(e') <==> e.rare[at] == at
  {
    hide RoundBound, LastMaximum, DropAll;
    assert e.rare[at] in e.rare && e.rare[at] !in e'.rare;
    if e.rare[at] != at {
      assert e'.isRare[e.rare[at]];
    }
  }

  /** The bound is the greatest count among the rare features. */
  ghost predicate BoundIsGreatest(e: Entropy)
    requires Sane(e)
  {
    && (exists x :: x in e.rare && e.global[x] == e.most)
    && forall x | x in e.rare :: e.global[x] <= e.most
  }

  /** No rare feature but the one at position `at` is more abundant than the one at position k. */
  ghost predicate GreatestOfOthers(e: Entropy, at: nat, k: nat)
    requires Sane(e) && k < |e.rare|
  {
    forall j | 0 <= j < |e.rare| && j != at :: e.global[e.rare[j]] <= e.global[e.rare[k]]
  }

  /** "Set 2nd most abundant as the new most abundant": so it is iff the feature evicted does not come first in the
      list and the greatest of the others comes before it. */
  lemma BoundIsGreatestIff(e: Entropy, at: nat)
    requires Evictable(e) && e.rare != [] && NoDuplicates(e.rare) && LastMaximum(e.rare, e.global, at)
    ensures Sane(EvictOne(e))
    ensures BoundIsGreatest(EvictOne(e)) <==>
              exists k :: 0 <= k < at && GreatestOfOthers(e, at, k)
  {
    hide EvictOne, RoundBound, LastMaximum, BoundIsGreatest, GreatestOfOthers;
    var at' := RoundEvicts(e);
    OneLastMaximum(e.rare, e.global, at, at');
    var e' := EvictOne(e);
    if BoundIsGreatest(e') { BoundNeeds(e, at, e'); }
    if k :| 0 <= k < at && GreatestOfOthers(e, at, k) {
      BoundHolds(e, at, e', k);
    }
  }

  lemma BoundNeeds(e: Entropy, at: nat, e': Entropy)
    requires Sane(e) && Sane(e') && |e.rare| <= FEATURE_SET_SIZE && NoDuplicates(e.rare) && RoundTold(e, at, e') && BoundIsGreatest(e')
    ensures exists k :: 0 <= k < at && GreatestOfOthers(e, at, k)
  {
    var x :| x in e'.rare && e'.global[x] == e'.most;
    var i :| 0 <= i < |e.rare| && e.rare[i] == x;
    assert i > at ==> e.global[e.rare[i]] < e.global[e.rare[at]];
    assert at > 0;
    var k := BoundAt(e, at, e'.most);
    forall j | 0 <= j < |e.rare| && j != at ensures e.global[e.rare[j]] <= e.global[e.rare[k]] {
      assert e.rare[j] in e'.rare;
    }
    assert GreatestOfOthers(e, at, k);
  }

  ghost function BoundAt(e: Entropy, at: nat, most: nat): (k: nat)
    requires Sane(e) && 0 < at < |e.rare| && RoundBound(e, at, most)
    ensures k < at && e.global[e.rare[k]] == most
  {
    var k :| 0 <= k < at && e.global[e.rare[k]] == most;
    k
  }

  lemma BoundHolds(e: Entropy, at: nat, e': Entropy, k: nat)
    requires Sane(e) && Sane(e') && |e.rare| <= FEATURE_SET_SIZE && NoDuplicates(e.rare) && k < at < |e.rare| && RoundTold(e, at, e')
    requires GreatestOfOthers(e, at, k)
    ensures BoundIsGreatest(e')
  {
    assert e.rare[k] in e'.rare;
    var m := BoundAt(e, at, e'.most);
    assert e.rare[m] in e'.rare;
    forall x | x in e'.rare ensures e'.global[x] <= e'.most {
      var j :| 0 <= j < |e.rare| && e.rare[j] == x;
    }
  }

  /** Two rare features, the more abundant one first: its bit stays set, and the bound stays at its count. */
  lemma FirstIsWorst(e: Entropy)
    requires Evictable(e) && Agrees(e) && e.rare == [5, 7] && e.global[5] == 3 && e.global[7] == 2
    ensures var e' := EvictOne(e); e'.rare == [7] && e'.isRare[5] && e'.most == 3 && !Agrees(e') && !BoundIsGreatest(e')
  {
    hide EvictOne, Agrees, BoundIsGreatest;
    assert LastMaximum(e.rare, e.global, 0);
    AgreesIff(e, 0);
    BoundIsGreatestIff(e, 0);
    var at := RoundEvicts(e);
    OneLastMaximum(e.rare, e.global, 0, at);
    var e' := EvictOne(e);
    assert e'.rare[0] in e'.rare && e'.rare == [e'.rare[0]];
    assert e.isRare[5] by { Flagged(e, 5); }
  }

  lemma Flagged(e: Entropy, s: nat)
    requires Agrees(e) && s < FEATURE_SET_SIZE && s in e.rare
    ensures e.isRare[s]
  {
  }

  // ----- counting one feature

  /** A feature counts for the input if it is rare and no more abundant than the bound. */
  ghost predicate Counted(e: Entropy, s: nat)
    requires Sane(e) && s < FEATURE_SET_SIZE
  {
    e.isRare[s] && e.global[s] <= e.most && e.global[s] < U16 - 1
  }

  /** The global count rises by one up to 65535; the local one as well if the feature counts; the bound follows the
      most abundant feature that does; and nothing else changes. */
  lemma UpdateTells(e: Entropy, ii: int, s: nat)
    requires Conserved(e) && s < FEATURE_SET_SIZE && -1 <= ii < |e.lists|
    ensures var e' := Update(e, ii, s);
            && e'.global == e.global[s := if e.global[s] == 0xFFFF then 0xFFFF else e.global[s] + 1]
            && e'.rare == e.rare && e'.isRare == e.isRare
            && e'.most == (if Counted(e, s) && e.global[s] + 1 > e.most then e.global[s] + 1 else e.most)
            && |e'.lists| == |e.lists|
            && forall i, t | 0 <= i < |e.lists| && 0 <= t < FEATURE_SET_SIZE ::
                 CountOf(e'.lists[i], t) == CountOf(e.lists[i], t) + if i == ii && t == s && Counted(e, s) then 1 else 0
  {
    ListsWellFormed(e);
    hide CountOf, WellFormed, Bump, TotalCount;
    if ii >= 0 && Counted(e, s) {
      TotalCountUpdate(e.lists, ii, e.lists[ii], s);
      forall t | 0 <= t < FEATURE_SET_SIZE
        ensures CountOf(Bump(e.lists[ii], s), t) == CountOf(e.lists[ii], t) + if t == s then 1 else 0
      {
        BumpEffect(e.lists[ii], s, t);
      }
    }
  }
}
