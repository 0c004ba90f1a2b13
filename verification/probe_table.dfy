/** Open-addressed tables with linear probing (ser/hashmap.c), as values: what it means for a table
    to hold a finite map, and what the probes and the shifts of its operations do to it. */
module ProbeTable {
  import opened Collections

  /** An entry keeps the hash it was stored with. */
  datatype Bucket<K, V> = Free | Used(hash: nat, key: K, value: V)

  type Table<K, V> = seq<Bucket<K, V>>

  function Home(cap: nat, hash: nat): (h: nat)
    requires cap > 0
    ensures h < cap
  {
    hash % cap
  }

  function Next(cap: nat, i: nat): (n: nat)
    requires i < cap
    ensures n < cap
  {
    if i + 1 == cap then 0 else i + 1
  }

  /** k is met on the way from bucket i to bucket j, before j. */
  predicate Between(i: nat, k: nat, j: nat) {
    if i <= j then i <= k < j else i <= k || k < j
  }

  /** The entries that count: all but the one in the bucket that is about to be emptied, if any. */
  predicate Live<K, V>(t: Table<K, V>, hole: nat, i: nat) {
    i < |t| && i != hole && t[i].Used?
  }

  /** Entries carry the hash of their key, and no two have the same key. */
  ghost predicate Coherent<K, V>(t: Table<K, V>, hole: nat, hash: K -> nat) {
    && (forall i: nat :: Live(t, hole, i) ==> t[i].hash == hash(t[i].key))
    && forall i: nat, j: nat :: Live(t, hole, i) && Live(t, hole, j) && t[i].key == t[j].key ==> i == j
  }

  /** A probe for the entry in bucket i passes over occupied buckets only. */
  ghost predicate Reachable<K, V>(t: Table<K, V>, i: nat)
    requires i < |t| && t[i].Used?
  {
    forall k: nat :: k < |t| && Between(Home(|t|, t[i].hash), k, i) ==> t[k].Used?
  }

  ghost predicate AllReachable<K, V>(t: Table<K, V>) {
    forall i: nat :: i < |t| && t[i].Used? ==> Reachable(t, i)
  }

  ghost predicate Represents<K, V>(t: Table<K, V>, hole: nat, m: map<K, V>) {
    && (forall i: nat :: Live(t, hole, i) ==> t[i].key in m && m[t[i].key] == t[i].value)
    && forall k :: k in m ==> exists i: nat :: Live(t, hole, i) && t[i].key == k
  }

  /** A table in which every lookup works. */
  ghost predicate Sound<K, V>(t: Table<K, V>, hash: K -> nat, m: map<K, V>) {
    Coherent(t, |t|, hash) && AllReachable(t) && Represents(t, |t|, m)
  }

  // ----- probing

  predicate Matches<K(==), V>(b: Bucket<K, V>, hash: nat, key: K) {
    b.Used? && b.hash == hash && b.key == key
  }

  /** Where a probe for key stops: at its entry, or at the first free bucket on the way. */
  ghost predicate IsProbeEnd<K, V>(t: Table<K, V>, hash: nat, key: K, p: nat) {
    && p < |t| && (t[p].Free? || Matches(t[p], hash, key))
    && forall k: nat :: k < |t| && Between(Home(|t|, hash), k, p) ==> t[k].Used? && !Matches(t[k], hash, key)
  }

  /** A probe finds a key exactly when the map has it, and then with its value. */
  lemma ProbeFinds<K, V>(t: Table<K, V>, hash: K -> nat, m: map<K, V>, key: K, p: nat)
    requires Sound(t, hash, m) && IsProbeEnd(t, hash(key), key, p)
    ensures t[p].Used? <==> key in m
    ensures t[p].Used? ==> t[p].key == key && t[p].value == m[key]
  {
    if t[p].Used? {
      assert Live(t, |t|, p);
    } else if key in m {
      var i: nat :| Live(t, |t|, i) && t[i].key == key;
      assert Matches(t[i], hash(key), key) && Reachable(t, i);
      OneBeforeOther(Home(|t|, hash(key)), i, p);
    }
  }

  /** Going round from home, one of two buckets comes first. */
  lemma OneBeforeOther(home: nat, i: nat, j: nat)
    ensures i == j || Between(home, i, j) || Between(home, j, i)
  {
  }

  lemma {:induction false} DistinctKeysFill<K, V>(t: Table<K, V>, hash: K -> nat, m: map<K, V>, n: nat)
    returns (keys: set<K>)
    requires n <= |t| && Coherent(t, |t|, hash) && Represents(t, |t|, m)
    requires forall i :: 0 <= i < n ==> t[i].Used?
    ensures |keys| == n && keys <= m.Keys
    ensures forall k :: k in keys ==> exists i :: 0 <= i < n && t[i].key == k
  {
    if n == 0 {
      keys := {};
    } else {
      var rest := DistinctKeysFill(t, hash, m, n - 1);
      assert Live(t, |t|, n - 1);
      var k := t[n - 1].key;
      forall i | 0 <= i < n - 1 ensures t[i].key != k {
        assert Live(t, |t|, i);
      }
      keys := rest + {k};
    }
  }

  /** A table with more buckets than entries has a free one, so every probe ends. */
  lemma SomeFree<K, V>(t: Table<K, V>, hash: K -> nat, m: map<K, V>) returns (f: nat)
    requires Sound(t, hash, m) && |m| < |t|
    ensures f < |t| && t[f].Free?
  {
    if forall i: nat :: i < |t| ==> t[i].Used? {
      var keys := DistinctKeysFill(t, hash, m, |t|);
      SubsetSize(keys, m.Keys);
      assert false;
    }
    f :| 0 <= f < |t| && t[f].Free?;
  }

  lemma EmptyIsSound<K, V>(t: Table<K, V>, hash: K -> nat)
    requires forall i :: 0 <= i < |t| ==> t[i].Free?
    ensures Sound(t, hash, map[])
  {
  }

  /** Writing an entry where the probe for its key ended adds it to the map, or replaces its value. */
  lemma StoreIsSound<K, V>(t: Table<K, V>, hash: K -> nat, m: map<K, V>, key: K, value: V, p: nat)
    requires Sound(t, hash, m) && IsProbeEnd(t, hash(key), key, p)
    ensures Sound(t[p := Used(hash(key), key, value)], hash, m[key := value])
  {
    ProbeFinds(t, hash, m, key, p);
    var t' := t[p := Used(hash(key), key, value)];
    assert forall i: nat :: i != p ==> (Live(t', |t|, i) <==> Live(t, |t|, i));
    assert forall i: nat :: Live(t, |t|, i) && i != p ==> t[i].key != key by {
      forall i: nat | Live(t, |t|, i) && i != p ensures t[i].key != key {
        if t[p].Used? {
          assert Live(t, |t|, p);
        }
      }
    }
    forall i: nat | i < |t'| && t'[i].Used? ensures Reachable(t', i) {
      if i != p {
        assert Reachable(t, i);
      }
    }
    assert Live(t', |t|, p);
    var m' := m[key := value];
    forall k | k in m' ensures exists i: nat :: Live(t', |t|, i) && t'[i].key == k {
      if k != key {
        var i: nat :| Live(t, |t|, i) && t[i].key == k;
        assert Live(t', |t|, i);
      }
    }
  }

  // ----- taking an entry out

  /** The shifting loop of hashmap_take as a function: the hole, the bucket looked at, and how many to go. */
  function Shifted<K, V>(t: Table<K, V>, hole: nat, n: nat, left: nat): (r: Table<K, V>)
    requires hole < |t| && n < |t|
    ensures |r| == |t|
    decreases left
  {
    if left == 0 || t[n].Free? then t[hole := Free]
    else if Home(|t|, t[n].hash) > hole then Shifted(t, hole, Next(|t|, n), left - 1)
    else Shifted(t[hole := t[n]], n, Next(|t|, n), left - 1)
  }

  /** Half way: the bucket of the hole counts no more, but still holds the probes for others together. */
  ghost predicate Halfway<K, V>(t: Table<K, V>, hole: nat, hash: K -> nat, m: map<K, V>) {
    && hole < |t| && t[hole].Used?
    && Coherent(t, hole, hash) && Represents(t, hole, m)
    && forall i: nat :: Live(t, hole, i) ==> Reachable(t, i)
  }

  lemma HoleOpens<K, V>(t: Table<K, V>, hash: K -> nat, m: map<K, V>, p: nat)
    requires Sound(t, hash, m) && p < |t| && t[p].Used?
    ensures Halfway(t, p, hash, m - {t[p].key})
  {
    assert Live(t, |t|, p);
    assert forall i: nat :: Live(t, p, i) <==> Live(t, |t|, i) && i != p;
  }

  lemma MovedIsReachable<K, V>(t: Table<K, V>, hole: nat, hash: K -> nat, m: map<K, V>, n: nat, i: nat)
    requires Halfway(t, hole, hash, m) && Live(t, hole, n)
    requires Home(|t|, t[n].hash) == hole || Between(Home(|t|, t[n].hash), hole, n)
    requires Live(t[hole := t[n]], n, i)
    ensures Reachable(t[hole := t[n]], i)
  {
    assert Reachable(t, n);
    if i != hole {
      assert Live(t, hole, i) && Reachable(t, i);
    }
  }

  lemma MovedIsCoherent<K, V>(t: Table<K, V>, hole: nat, hash: K -> nat, n: nat)
    requires Coherent(t, hole, hash) && hole < |t| && Live(t, hole, n)
    ensures Coherent(t[hole := t[n]], n, hash)
  {
    var t' := t[hole := t[n]];
    assert forall i: nat :: i != hole ==> (Live(t', n, i) <==> Live(t, hole, i) && i != n);
  }

  lemma MovedRepresents<K, V>(t: Table<K, V>, hole: nat, m: map<K, V>, n: nat)
    requires Represents(t, hole, m) && hole < |t| && Live(t, hole, n)
    ensures Represents(t[hole := t[n]], n, m)
  {
    var t' := t[hole := t[n]];
    assert Live(t', n, hole);
    assert forall i: nat :: i != hole ==> (Live(t', n, i) <==> Live(t, hole, i) && i != n);
    forall k | k in m ensures exists i: nat :: Live(t', n, i) && t'[i].key == k {
      var i: nat :| Live(t, hole, i) && t[i].key == k;
      assert Live(t', n, if i == n then hole else i);
    }
  }

  /** An entry that is probed for across the hole may move back into it. */
  lemma HoleMoves<K, V>(t: Table<K, V>, hole: nat, hash: K -> nat, m: map<K, V>, n: nat)
    requires Halfway(t, hole, hash, m) && Live(t, hole, n)
    requires Home(|t|, t[n].hash) == hole || Between(Home(|t|, t[n].hash), hole, n)
    ensures Halfway(t[hole := t[n]], n, hash, m)
  {
    hide Coherent, Represents, Reachable, Between;
    MovedIsCoherent(t, hole, hash, n);
    MovedRepresents(t, hole, m, n);
    var t' := t[hole := t[n]];
    forall i: nat | Live(t', n, i) ensures Reachable(t', i) {
      MovedIsReachable(t, hole, hash, m, n, i);
    }
  }

  lemma ReachableAfter<K, V>(t: Table<K, V>, hole: nat, hash: K -> nat, m: map<K, V>, i: nat)
    requires Halfway(t, hole, hash, m) && Live(t, hole, i)
    ensures Reachable(t[hole := Free], i) <==> !Between(Home(|t|, t[i].hash), hole, i)
  {
    hide Between, Home;
    var t' := t[hole := Free];
    assert Reachable(t, i);
    if Between(Home(|t|, t[i].hash), hole, i) {
      assert t'[hole].Free?;
    } else {
      forall k: nat | k < |t'| && Between(Home(|t'|, t'[i].hash), k, i) ensures t'[k].Used? {
        assert t'[k] == t[k];
      }
    }
  }

  lemma HoleHoldsNothing<K, V>(t: Table<K, V>, hole: nat, hash: K -> nat, m: map<K, V>)
    requires Halfway(t, hole, hash, m)
    ensures var t' := t[hole := Free];
            && Coherent(t', |t|, hash) && Represents(t', |t|, m)
            && forall i: nat :: Live(t', |t|, i) <==> Live(t, hole, i)
  {
    hide Coherent, Represents;
    var t' := t[hole := Free];
    assert forall i: nat :: Live(t', |t|, i) <==> Live(t, hole, i);
    SameLive(t, hole, t', |t|, hash, m);
  }

  lemma SameLive<K, V>(t: Table<K, V>, hole: nat, t': Table<K, V>, hole': nat, hash: K -> nat, m: map<K, V>)
    requires Coherent(t, hole, hash) && Represents(t, hole, m)
    requires forall i: nat :: Live(t', hole', i) <==> Live(t, hole, i)
    requires forall i: nat :: Live(t, hole, i) ==> i < |t'| && t'[i] == t[i]
    ensures Coherent(t', hole', hash) && Represents(t', hole', m)
  {
    hide Live;
  }

  /** The hole may be emptied exactly if no probe passes over it. */
  lemma HoleCloses<K, V>(t: Table<K, V>, hole: nat, hash: K -> nat, m: map<K, V>)
    requires Halfway(t, hole, hash, m)
    ensures Sound(t[hole := Free], hash, m) <==>
            forall i: nat :: Live(t, hole, i) ==> !Between(Home(|t|, t[i].hash), hole, i)
  {
    hide Halfway, Coherent, Represents, Reachable, Between, Home;
    HoleIsUsed(t, hole, hash, m);
    HoleHoldsNothing(t, hole, hash, m);
    var t' := t[hole := Free];
    forall i: nat | Live(t, hole, i) ensures Reachable(t', i) <==> !Between(Home(|t|, t[i].hash), hole, i) {
      ReachableAfter(t, hole, hash, m, i);
    }
    forall i: nat ensures i < |t'| && t'[i].Used? <==> Live(t, hole, i) {
    }
  }

  lemma HoleIsUsed<K, V>(t: Table<K, V>, hole: nat, hash: K -> nat, m: map<K, V>)
    requires Halfway(t, hole, hash, m)
    ensures hole < |t| && t[hole].Used?
  {
  }

  /** How many buckets ahead of n bucket f is. */
  function Ahead(cap: nat, n: nat, f: nat): nat
    requires n < cap && f < cap
  {
    if n <= f then f - n else f + cap - n
  }

  // ----- when it is safe

  /** The entry in bucket i was pushed on across the end of the table. */
  predicate Wrapped<K, V>(t: Table<K, V>, i: nat) {
    i < |t| && t[i].Used? && Home(|t|, t[i].hash) > i
  }

  /** Some entry from beyond h, below stop, may move to h or further back: the hole does not stay at h. */
  predicate Passed<K, V>(t: Table<K, V>, h: nat, stop: nat)
    requires stop <= |t|
  {
    exists n :: h < n < stop && t[n].Used? && Home(|t|, t[n].hash) <= h
  }

  /** From p the hole gets to k, or beyond. */
  predicate GetsTo<K, V>(t: Table<K, V>, p: nat, k: nat, stop: nat)
    requires stop <= |t|
  {
    forall h :: p <= h < k ==> Passed(t, h, stop)
  }

  /** The hole gets past all entries before stop that were pushed across the end; the loop takes them for entries
      at home beyond the hole, and never moves them. */
  predicate PassesWrapped<K, V>(t: Table<K, V>, p: nat, stop: nat)
    requires stop <= |t|
  {
    forall w :: p < w < stop && Wrapped(t, w) ==> GetsTo(t, p, w, stop)
  }

  /** The entry in bucket n, in the front of the table, is moved when the hole is in its back, where it was opened at p. */
  predicate GoesBack<K, V>(t: Table<K, V>, p: nat, n: nat)
    requires n < |t|
  {
    t[n].Used? && (Wrapped(t, n) ==> GetsTo(t, p, Home(|t|, t[n].hash), |t|))
  }

  /** The first entry that is moved to the back of the table belongs there, and from its bucket on the hole
      passes all that belong there, too. */
  predicate PassesEnd<K, V>(t: Table<K, V>, p: nat, stop: nat)
    requires stop < |t|
  {
    forall n :: 0 <= n < stop && GoesBack(t, p, n) && (forall k :: 0 <= k < n ==> !GoesBack(t, p, k)) ==>
      Wrapped(t, n) && PassesWrapped(t, n, stop)
  }

  /** The first free bucket from p on. */
  ghost predicate IsRunEnd<K, V>(t: Table<K, V>, p: nat, f: nat) {
    p < |t| && f < |t| && t[f].Free? && forall k: nat :: k < |t| && Between(p, k, f) ==> t[k].Used?
  }

  /** What is seen before the deletion of the entry in p, of the run of buckets from p up to f. */
  predicate IsSafe<K, V>(t: Table<K, V>, p: nat, f: nat)
    requires p < |t| && f < |t|
  {
    if p < f then PassesWrapped(t, p, f) else PassesEnd(t, p, f)
  }

  /** All buckets from i up to j hold entries at home beyond the hole. */
  ghost predicate Skipped<K, V>(t: Table<K, V>, hole: nat, i: nat, j: nat) {
    j <= |t| && forall k: nat :: i <= k < j ==> t[k].Used? && Home(|t|, t[k].hash) > hole
  }

  ghost predicate AllUsed<K, V>(t: Table<K, V>, i: nat, j: nat) {
    j <= |t| && forall k: nat :: i <= k < j ==> t[k].Used?
  }

  /** One round of the loop. */
  lemma ShiftedOnce<K, V>(t: Table<K, V>, hole: nat, n: nat, left: nat)
    requires hole < |t| && n < |t| && left > 0
    ensures Shifted(t, hole, n, left) ==
            if t[n].Free? then t[hole := Free]
            else if Home(|t|, t[n].hash) > hole then Shifted(t, hole, Next(|t|, n), left - 1)
            else Shifted(t[hole := t[n]], n, Next(|t|, n), left - 1)
  {
  }

  /** A probe that passes over the hole is for an entry between the hole and the free bucket after it. */
  lemma PassedFromBehind<K, V>(t: Table<K, V>, hole: nat, hash: K -> nat, m: map<K, V>, f: nat, i: nat)
    requires Halfway(t, hole, hash, m) && f < |t| && t[f].Free? && Live(t, hole, i)
    requires Between(Home(|t|, t[i].hash), hole, i)
    ensures i != f && Between(hole, i, f)
  {
    assert Reachable(t, i);
  }

  /** In front of the end of the table, a probe passes over the hole just for entries pushed across the end. */
  lemma PassedIfWrapped<K, V>(t: Table<K, V>, hole: nat, f: nat, i: nat)
    requires hole < i < f < |t| && t[i].Used? && Home(|t|, t[i].hash) > hole
    ensures Between(Home(|t|, t[i].hash), hole, i) <==> Wrapped(t, i)
  {
  }

  /** At the end of a run that does not go on across the end of the table. */
  lemma ClosesBelow<K, V>(t: Table<K, V>, hole: nat, hash: K -> nat, m: map<K, V>, f: nat)
    requires Halfway(t, hole, hash, m) && hole < f < |t| && t[f].Free? && Skipped(t, hole, hole + 1, f)
    ensures Sound(t[hole := Free], hash, m) <==> PassesWrapped(t, hole, f)
  {
    hide Sound, Halfway, Between, Wrapped;
    HoleCloses(t, hole, hash, m);
    assert !Passed(t, hole, f);
    if forall i: nat :: Live(t, hole, i) ==> !Between(Home(|t|, t[i].hash), hole, i) {
      forall w | hole < w < f && Wrapped(t, w) ensures false {
        assert Live(t, hole, w);
        PassedIfWrapped(t, hole, f, w);
      }
    }
    if PassesWrapped(t, hole, f) {
      forall i: nat | Live(t, hole, i) ensures !Between(Home(|t|, t[i].hash), hole, i) {
        if Between(Home(|t|, t[i].hash), hole, i) {
          PassedFromBehind(t, hole, hash, m, f, i);
          InFront(hole, i, f);
          PassedIfWrapped(t, hole, f, i);
        }
      }
    }
  }

  lemma InFront(hole: nat, i: nat, f: nat)
    requires hole < f && Between(hole, i, f) && i != hole
    ensures hole < i < f
  {
  }
  /** An entry that moves back to the hole takes it along: from there on it gets to the same places. */
  lemma GetsOn<K, V>(t: Table<K, V>, hole: nat, n: nat, k: nat, stop: nat)
    requires hole < n < stop <= |t| && t[n].Used? && Home(|t|, t[n].hash) <= hole
    ensures GetsTo(t, hole, k, stop) <==> GetsTo(t[hole := t[n]], n, k, stop)
  {
    var t' := t[hole := t[n]];
    forall h | hole <= h ensures Passed(t, h, stop) <==> Passed(t', h, stop) {
      PassedSame(t, t', h, stop);
    }
    forall h | hole <= h < n ensures Passed(t, h, stop) {
    }
    if GetsTo(t', n, k, stop) {
      forall h | hole <= h < k ensures Passed(t, h, stop) {
        if n <= h {
          assert Passed(t', h, stop);
        }
      }
    }
  }

  lemma PassedSame<K, V>(t: Table<K, V>, t': Table<K, V>, h: nat, stop: nat)
    requires |t| == |t'| && stop <= |t| && forall i :: h < i < stop ==> t[i] == t'[i]
    ensures Passed(t, h, stop) <==> Passed(t', h, stop)
  {
  }

  lemma GetsToSame<K, V>(t: Table<K, V>, t': Table<K, V>, p: nat, k: nat, stop: nat)
    requires |t| == |t'| && stop <= |t| && forall i :: p < i < stop ==> t[i] == t'[i]
    ensures GetsTo(t, p, k, stop) <==> GetsTo(t', p, k, stop)
  {
    hide Passed;
    forall h | p <= h < k ensures Passed(t, h, stop) <==> Passed(t', h, stop) {
      PassedSame(t, t', h, stop);
    }
  }

  lemma PassesSame<K, V>(t: Table<K, V>, t': Table<K, V>, p: nat, stop: nat)
    requires |t| == |t'| && stop <= |t| && forall i :: p < i < stop ==> t[i] == t'[i]
    ensures PassesWrapped(t, p, stop) <==> PassesWrapped(t', p, stop)
  {
    hide GetsTo;
    forall w | p < w < stop ensures GetsTo(t, p, w, stop) <==> GetsTo(t', p, w, stop) {
      GetsToSame(t, t', p, w, stop);
    }
  }

  /** An entry that moves back in front of the end of the table. */
  lemma PassesOn<K, V>(t: Table<K, V>, hole: nat, n: nat, f: nat)
    requires hole < n < f <= |t| && t[n].Used? && Home(|t|, t[n].hash) <= hole
    ensures PassesWrapped(t, hole, f) <==> PassesWrapped(t[hole := t[n]], n, f)
  {
    hide GetsTo;
    var t' := t[hole := t[n]];
    forall w | hole < w < f ensures GetsTo(t, hole, w, f) <==> GetsTo(t', n, w, f) {
      GetsOn(t, hole, n, w, f);
    }
    forall w | hole < w <= n ensures GetsTo(t', n, w, f) {
      GetsNowhere(t', n, w, f);
    }
    assert forall w :: hole < w < f ==> (Wrapped(t, w) <==> Wrapped(t', w));
  }

  lemma GetsNowhere<K, V>(t: Table<K, V>, p: nat, k: nat, stop: nat)
    requires k <= p && stop <= |t|
    ensures GetsTo(t, p, k, stop)
  {
  }

  /** The loop from hole on, in a run that ends in front of the end of the table. */
  lemma {:induction false} ShiftBelow<K, V>(t: Table<K, V>, hole: nat, hash: K -> nat, m: map<K, V>,
                                            n: nat, left: nat, f: nat)
    requires Halfway(t, hole, hash, m) && hole < n <= f < |t| && t[f].Free? && AllUsed(t, n, f)
    requires Skipped(t, hole, hole + 1, n) && f - n < left
    ensures Sound(Shifted(t, hole, n, left), hash, m) <==> PassesWrapped(t, hole, f)
    decreases left
  {
    hide Sound, Halfway, Home, Shifted, PassesWrapped, Between;
    HoleIsUsed(t, hole, hash, m);
    ShiftedOnce(t, hole, n, left);
    if n == f {
      ClosesBelow(t, hole, hash, m, f);
    } else if Home(|t|, t[n].hash) > hole {
      ShiftBelow(t, hole, hash, m, n + 1, left - 1, f);
    } else {
      Across(Home(|t|, t[n].hash), hole, n);
      HoleMoves(t, hole, hash, m, n);
      PassesOn(t, hole, n, f);
      ShiftBelow(t[hole := t[n]], n, hash, m, n + 1, left - 1, f);
    }
  }

  lemma Across(home: nat, hole: nat, n: nat)
    requires home <= hole < n || n < home <= hole
    ensures home == hole || Between(home, hole, n)
  {
  }

  /** An entry that moves back behind the front of the table. */
  lemma PassesEndOn<K, V>(t: Table<K, V>, hole: nat, n: nat, f: nat)
    requires f < hole < n < |t| && t[n].Used? && Home(|t|, t[n].hash) <= hole
    ensures PassesEnd(t, hole, f) <==> PassesEnd(t[hole := t[n]], n, f)
  {
    hide GetsTo, PassesWrapped, Home;
    var t' := t[hole := t[n]];
    forall k: nat | k < f
      ensures GoesBack(t, hole, k) <==> GoesBack(t', n, k)
      ensures Wrapped(t, k) <==> Wrapped(t', k)
      ensures PassesWrapped(t, k, f) <==> PassesWrapped(t', k, f)
    {
      PassesSame(t, t', k, f);
      if t[k].Used? {
        GetsOn(t, hole, n, Home(|t|, t[k].hash), |t|);
      }
    }
  }

  /** Once the hole stays in the back of the table, entries go back that are not at home beyond it. */
  lemma GoesBackIff<K, V>(t: Table<K, V>, hole: nat, k: nat)
    requires k < hole < |t| && t[k].Used? && Skipped(t, hole, hole + 1, |t|)
    ensures GoesBack(t, hole, k) <==> Home(|t|, t[k].hash) <= hole
  {
    assert !Passed(t, hole, |t|);
  }

  /** No entry of the front belongs to the back. */
  lemma ClosesAround<K, V>(t: Table<K, V>, hole: nat, hash: K -> nat, m: map<K, V>, f: nat)
    requires Halfway(t, hole, hash, m) && f < hole && t[f].Free?
    requires Skipped(t, hole, hole + 1, |t|) && Skipped(t, hole, 0, f)
    ensures Sound(t[hole := Free], hash, m)
  {
    hide Sound;
    HoleCloses(t, hole, hash, m);
    forall i: nat | Live(t, hole, i) ensures !Between(Home(|t|, t[i].hash), hole, i) {
      assert Reachable(t, i);
      if Between(Home(|t|, t[i].hash), hole, i) {
        PassedFromBehind(t, hole, hash, m, f, i);
      }
    }
  }

  /** An entry of the front that is moved to the back without belonging there is lost: the run ends between. */
  lemma FrontEntryIsLost<K, V>(t: Table<K, V>, hole: nat, hash: K -> nat, m: map<K, V>, n: nat, left: nat, f: nat)
    requires n < f < hole < |t| && t[n].Used? && !Wrapped(t, n) && t[f].Free? && f - n <= left
    ensures !Sound(Shifted(t[hole := t[n]], n, n + 1, left), hash, m)
  {
    hide Shifted;
    var t' := t[hole := t[n]];
    var r := Shifted(t', n, n + 1, left);
    ShiftStaysBelow(t', n, n + 1, left, f);
    assert r[hole] == t[n] && Between(Home(|t|, t[n].hash), f, hole);
    assert !Reachable(r, hole);
  }

  /** The first entry that goes back decides. */
  lemma FirstDecides<K, V>(t: Table<K, V>, hole: nat, n: nat, f: nat)
    requires n < f < |t| && GoesBack(t, hole, n) && forall k: nat :: k < n ==> !GoesBack(t, hole, k)
    ensures PassesEnd(t, hole, f) <==> Wrapped(t, n) && PassesWrapped(t, n, f)
  {
    hide GoesBack, Wrapped, PassesWrapped;
  }

  lemma NoneDecides<K, V>(t: Table<K, V>, hole: nat, f: nat)
    requires f < |t| && forall k: nat :: k < f ==> !GoesBack(t, hole, k)
    ensures PassesEnd(t, hole, f)
  {
    hide GoesBack, Wrapped, PassesWrapped;
  }

  /** The loop once it has gone on to the front of the table, with the hole still in its back. */
  lemma {:induction false} ShiftAround<K, V>(t: Table<K, V>, hole: nat, hash: K -> nat, m: map<K, V>,
                                             n: nat, left: nat, f: nat)
    requires Halfway(t, hole, hash, m) && n <= f < hole && t[f].Free? && AllUsed(t, n, f)
    requires Skipped(t, hole, hole + 1, |t|) && Skipped(t, hole, 0, n) && f - n < left
    ensures Sound(Shifted(t, hole, n, left), hash, m) <==> PassesEnd(t, hole, f)
    decreases left
  {
    hide Sound, Halfway, Home, Shifted, PassesWrapped, PassesEnd, GoesBack, Between;
    HoleIsUsed(t, hole, hash, m);
    ShiftedOnce(t, hole, n, left);
    forall k: nat | k < n ensures !GoesBack(t, hole, k) {
      GoesBackIff(t, hole, k);
    }
    if n == f {
      ClosesAround(t, hole, hash, m, f);
      NoneDecides(t, hole, f);
    } else {
      GoesBackIff(t, hole, n);
      if Home(|t|, t[n].hash) > hole {
        ShiftAround(t, hole, hash, m, n + 1, left - 1, f);
      } else {
        FirstDecides(t, hole, n, f);
        if Wrapped(t, n) {
          var t' := t[hole := t[n]];
          Across(Home(|t|, t[n].hash), hole, n);
          HoleMoves(t, hole, hash, m, n);
          ShiftBelow(t', n, hash, m, n + 1, left - 1, f);
          PassesSame(t, t', n, f);
        } else {
          FrontEntryIsLost(t, hole, hash, m, n, left - 1, f);
        }
      }
    }
  }

  /** The loop in the back of the table, in a run that goes on in its front. */
  lemma {:induction false} ShiftAbove<K, V>(t: Table<K, V>, hole: nat, hash: K -> nat, m: map<K, V>,
                                            n: nat, left: nat, f: nat)
    requires Halfway(t, hole, hash, m) && f < hole < n <= |t| && t[f].Free? && AllUsed(t, n, |t|) && AllUsed(t, 0, f)
    requires Skipped(t, hole, hole + 1, n) && |t| - n + f < left
    ensures Sound(Shifted(t, hole, if n == |t| then 0 else n, left), hash, m) <==> PassesEnd(t, hole, f)
    decreases left
  {
    hide Sound, Halfway, Home, Shifted, PassesEnd, Between;
    HoleIsUsed(t, hole, hash, m);
    if n == |t| {
      ShiftAround(t, hole, hash, m, 0, left, f);
    } else {
      ShiftedOnce(t, hole, n, left);
      if Home(|t|, t[n].hash) > hole {
        ShiftAbove(t, hole, hash, m, n + 1, left - 1, f);
      } else {
        Across(Home(|t|, t[n].hash), hole, n);
        HoleMoves(t, hole, hash, m, n);
        PassesEndOn(t, hole, n, f);
        ShiftAbove(t[hole := t[n]], n, hash, m, n + 1, left - 1, f);
      }
    }
  }

  /** Probing from p on finds the end of the run. */
  lemma {:induction false} RunEnd<K, V>(t: Table<K, V>, p: nat, n: nat, g: nat) returns (f: nat)
    requires p < |t| && n < |t| && g < |t| && t[g].Free?
    requires forall k: nat :: k < |t| && Between(p, k, n) ==> t[k].Used?
    ensures IsRunEnd(t, p, f)
    decreases Ahead(|t|, n, g)
  {
    if t[n].Free? {
      f := n;
    } else {
      f := RunEnd(t, p, Next(|t|, n), g);
    }
  }

  lemma RunIsUsed<K, V>(t: Table<K, V>, p: nat, f: nat)
    requires IsRunEnd(t, p, f)
    ensures p < f ==> AllUsed(t, p, f)
    ensures f < p ==> AllUsed(t, p, |t|) && AllUsed(t, 0, f)
  {
  }

  /** hashmap_take as a whole takes out the entry in p and nothing else exactly if the run from p on is safe. */
  lemma TakeIsSoundIff<K, V>(t: Table<K, V>, hash: K -> nat, m: map<K, V>, p: nat, f: nat)
    requires Sound(t, hash, m) && p < |t| && t[p].Used? && IsRunEnd(t, p, f)
    ensures Sound(Shifted(t, p, Next(|t|, p), |t|), hash, m - {t[p].key}) <==> IsSafe(t, p, f)
  {
    hide Sound, Halfway, Shifted, PassesWrapped, PassesEnd, Between;
    HoleOpens(t, hash, m, p);
    RunIsUsed(t, p, f);
    if p < f {
      ShiftBelow(t, p, hash, m - {t[p].key}, p + 1, |t|, f);
    } else {
      ShiftAbove(t, p, hash, m - {t[p].key}, p + 1, |t|, f);
    }
  }

  /** The run of occupied buckets around p goes on from the last bucket to the first. */
  ghost predicate RunWraps<K, V>(t: Table<K, V>, p: nat) {
    && AllUsed(t, 0, 1) && AllUsed(t, |t| - 1, |t|)
    && (AllUsed(t, p, |t|) || AllUsed(t, 0, p))
  }

  /** In a run that does not wrap every deletion is sound. */
  lemma TakeIsSound<K, V>(t: Table<K, V>, hash: K -> nat, m: map<K, V>, p: nat)
    requires Sound(t, hash, m) && |m| < |t| && p < |t| && t[p].Used? && !RunWraps(t, p)
    ensures Sound(Shifted(t, p, Next(|t|, p), |t|), hash, m - {t[p].key})
  {
    hide Sound, Shifted, IsSafe;
    var g := SomeFree(t, hash, m);
    var f := RunEnd(t, p, p, g);
    OwnRunIsSafe(t, hash, m, p, f);
    TakeIsSoundIff(t, hash, m, p, f);
  }

  lemma OwnRunIsSafe<K, V>(t: Table<K, V>, hash: K -> nat, m: map<K, V>, p: nat, f: nat)
    requires Sound(t, hash, m) && p < |t| && t[p].Used? && IsRunEnd(t, p, f) && !RunWraps(t, p)
    ensures IsSafe(t, p, f)
  {
    hide GetsTo, GoesBack, Sound, RunWraps;
    RunIsUsed(t, p, f);
    if p < f {
      forall w | p < w < f && Wrapped(t, w) ensures false {
        WrappedInRun(t, hash, m, p, w);
      }
    } else if 0 < f {
      WrapsAtEnd(t, p, f);
    }
  }

  lemma WrappedInRun<K, V>(t: Table<K, V>, hash: K -> nat, m: map<K, V>, p: nat, w: nat)
    requires Sound(t, hash, m) && p < w && Wrapped(t, w)
    ensures RunWraps(t, p)
  {
    assert Reachable(t, w);
  }

  lemma WrapsAtEnd<K, V>(t: Table<K, V>, p: nat, f: nat)
    requires 0 < f < p < |t| && IsRunEnd(t, p, f)
    ensures RunWraps(t, p)
  {
    RunIsUsed(t, p, f);
  }

  // ----- wrapped runs

  /** Below a free bucket the loop stays below it. */
  lemma {:induction false} ShiftStaysBelow<K, V>(t: Table<K, V>, hole: nat, n: nat, left: nat, f: nat)
    requires hole < n <= f < |t| && t[f].Free? && f - n < left
    ensures var r := Shifted(t, hole, n, left);
            r[f].Free? && forall j :: f < j < |t| ==> r[j] == t[j]
    decreases left
  {
    if t[n].Used? {
      if Home(|t|, t[n].hash) > hole {
        ShiftStaysBelow(t, hole, n + 1, left - 1, f);
      } else {
        ShiftStaysBelow(t[hole := t[n]], n, n + 1, left - 1, f);
      }
    }
  }

  /** A run that wraps is not safe: taking the last bucket's entry loses one that is at home in the first. */
  lemma WrappedRunLosesEntry<K, V>(t: Table<K, V>, hash: K -> nat, m: map<K, V>)
    requires Sound(t, hash, m) && 0 < |m| < |t|
    requires t[|t| - 1].Used? && t[0].Used? && Home(|t|, t[0].hash) == 0
    ensures !AllReachable(Shifted(t, |t| - 1, 0, |t|))
  {
    var f := SomeFree(t, hash, m);
    var last := |t| - 1;
    var t' := t[last := t[0]];
    var r := Shifted(t', 0, 1, |t| - 1);
    ShiftStaysBelow(t', 0, 1, |t| - 1, f);
    assert Shifted(t, last, 0, |t|) == r;
    assert r[last] == t[0] && Between(0, f, last);
    assert !Reachable(r, last);
  }

  function OwnHash(k: nat): nat {
    k
  }

  /** A new table of 64 buckets after two entries, at home in the last bucket and in the first. */
  function AcrossTheEnd(): (t: Table<nat, nat>)
    ensures |t| == 64
  {
    seq(64, i => if i == 0 then Used(0, 0, 10) else if i == 63 then Used(63, 63, 20) else Free)
  }

  lemma AcrossTheEndIs(i: nat)
    ensures Live(AcrossTheEnd(), 64, i) <==> i == 0 || i == 63
    ensures AcrossTheEnd()[0] == Used(0, 0, 10) && AcrossTheEnd()[63] == Used(63, 63, 20)
  {
  }

  lemma AcrossTheEndIsSound()
    ensures Sound(AcrossTheEnd(), OwnHash, map[0 := 10, 63 := 20])
  {
    hide AcrossTheEnd, Live;
    var t, m := AcrossTheEnd(), map[0 := 10, 63 := 20];
    forall i: nat ensures Live(t, 64, i) <==> i == 0 || i == 63 {
      AcrossTheEndIs(i);
    }
    AcrossTheEndIs(0);
    assert Represents(t, 64, m);
    assert Coherent(t, 64, OwnHash);
    forall i: nat | i < 64 && t[i].Used? ensures Reachable(t, i) {
      UsedIsLive(t, i);
    }
  }

  lemma UsedIsLive<K, V>(t: Table<K, V>, i: nat)
    requires i < |t| && t[i].Used?
    ensures Live(t, |t|, i)
  {
  }

  /** Taking the entry in the last bucket of it loses the one in the first. */
  lemma AcrossTheEndLoses()
    ensures Sound(AcrossTheEnd(), OwnHash, map[0 := 10, 63 := 20])
    ensures !AllReachable(Shifted(AcrossTheEnd(), 63, 0, 64))
  {
    hide Sound, Shifted, AllReachable, AcrossTheEnd;
    AcrossTheEndIsSound();
    AcrossTheEndIs(0);
    var m: map<nat, nat> := map[0 := 10, 63 := 20];
    assert m.Keys == {0, 63};
    WrappedRunLosesEntry(AcrossTheEnd(), OwnHash, m);
  }
}
