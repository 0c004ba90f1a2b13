/** The hash map of the schema compiler (ser/hashmap.c), updated in place. */
module HashMaps {
  import opened Collections
  import opened ProbeTable

  const BASE_CAP := 64

  function MaxItems(cap: nat): nat {
    cap / 2
  }

  class HashMap<K(==), V> {
    const hash: K -> nat
    var buckets: array<Bucket<K, V>>
    var cap: nat
    var count: nat
    var max: nat
    ghost var contents: map<K, V>

    ghost predicate Valid()
      reads this, buckets
    {
      && cap == buckets.Length >= BASE_CAP
      && max == MaxItems(cap)
      && count == |contents| <= max
      && Sound(buckets[..], hash, contents)
    }

    constructor (hash: K -> nat)
      ensures Valid() && fresh(buckets) && cap == 64 && contents == map[] && this.hash == hash
    {
      this.hash := hash;
      cap, count, max := BASE_CAP, 0, MaxItems(BASE_CAP);
      contents := map[];
      buckets := new Bucket<K, V>[BASE_CAP](_ => Free);
      new;
      EmptyIsSound(buckets[..], hash);
    }

    /** hashmap_bucket: the first free bucket or the first matching one. */
    method FindBucket(key: K, h: nat) returns (p: nat)
      requires cap == buckets.Length > 0
      requires exists f: nat :: f < cap && buckets[f].Free?
      ensures IsProbeEnd(buckets[..], h, key, p)
    {
      ghost var f: nat :| f < cap && buckets[f].Free?;
      p := Home(cap, h);
      while buckets[p].Used? && !Matches(buckets[p], h, key)
        invariant p < cap
        invariant forall k: nat ::
                    k < cap && Between(Home(cap, h), k, p) ==> buckets[k].Used? && !Matches(buckets[k], h, key)
        decreases Ahead(cap, p, f)
      {
        p := Next(cap, p);
      }
    }

    /** hashmap_insert: tells whether an item was replaced. */
    method Insert(key: K, value: V, h: nat) returns (replace: bool)
      requires cap == buckets.Length && count == |contents| < cap
      requires Sound(buckets[..], hash, contents) && h == hash(key)
      modifies this`count, this`contents, buckets
      ensures Sound(buckets[..], hash, contents)
      ensures contents == old(contents)[key := value] && count == |contents|
      ensures replace <==> key in old(contents)
    {
      hide Sound, IsProbeEnd;
      var f := SomeFree(buckets[..], hash, contents);
      var p := FindBucket(key, h);
      ProbeFinds(buckets[..], hash, contents, key, p);
      StoreIsSound(buckets[..], hash, contents, key, value, p);
      ProbeEndsInside(buckets[..], h, key, p);
      replace := buckets[p].Used?;
      ghost var t := buckets[..];
      buckets[p] := Used(h, key, value);
      assert buckets[..] == t[p := Used(h, key, value)];
      contents := contents[key := value];
      if !replace {
        count := count + 1;
      }
    }

    /** hashmap_grow: a table of double the size, filled from the old one bucket by bucket. */
    method Grow()
      requires Valid()
      modifies this`buckets, this`cap, this`count, this`max, this`contents
      ensures Valid() && fresh(buckets) && cap == 2 * old(cap)
      ensures contents == old(contents) && count == old(count)
    {
      hide Sound, Copied;
      var old_buckets, old_cap := buckets, cap;
      ghost var t, m := buckets[..], contents;
      cap := cap * 2;
      count, contents := 0, map[];
      max := MaxItems(cap);
      buckets := new Bucket<K, V>[cap](_ => Free);
      EmptyIsSound(buckets[..], hash);
      Refill(old_buckets, m);
    }

    /** One bucket of the old table is entered into the new one, if it is used. */
    method RefillFrom(bucket: Bucket<K, V>, ghost t: Table<K, V>, ghost i: nat, ghost m: map<K, V>)
      requires Sound(t, hash, m) && |m| < cap && i < |t| && t[i] == bucket && Copied(t, i, m, contents)
      requires cap == buckets.Length && count == |contents| && Sound(buckets[..], hash, contents)
      modifies this`count, this`contents, buckets
      ensures Sound(buckets[..], hash, contents) && Copied(t, i + 1, m, contents) && count == |contents|
    {
      hide *;
      CopyFits(t, i, m, contents);
      CopyStep(t, hash, i, m, contents, bucket);
      if bucket.Used? {
        var _ := Insert(bucket.key, bucket.value, bucket.hash);
      }
    }

    /** The second loop of hashmap_grow. */
    method Refill(source: array<Bucket<K, V>>, ghost m: map<K, V>)
      requires source != buckets && Sound(source[..], hash, m) && |m| < cap
      requires cap == buckets.Length && count == |contents| && Sound(buckets[..], hash, contents) && contents == map[]
      modifies this`count, this`contents, buckets
      ensures Sound(buckets[..], hash, contents) && contents == m && count == |contents|
    {
      hide *;
      ghost var t := source[..];
      CopyStarts(t, m);
      var i := 0;
      while i < source.Length
        invariant 0 <= i <= |t| == source.Length && source[..] == t
        invariant count == |contents| && Sound(buckets[..], hash, contents) && Copied(t, i, m, contents)
      {
        RefillFrom(source[i], t, i, m);
        i := i + 1;
      }
      CopyEnds(t, hash, i, m, contents);
    }

    method Set(key: K, value: V) returns (replaced: bool)
      requires Valid()
      modifies this`buckets, this`cap, this`count, this`max, this`contents, buckets
      ensures Valid() && (buckets == old(buckets) || fresh(buckets))
      ensures contents == old(contents)[key := value]
      ensures replaced <==> key in old(contents)
      ensures count <= cap / 2
    {
      hide Sound;
      if count >= max {
        Grow();
      }
      replaced := Insert(key, value, hash(key));
    }

    method Get(key: K) returns (res: Option<V>)
      requires Valid()
      ensures res == if key in contents then Some(contents[key]) else None
    {
      hide Sound, IsProbeEnd;
      var f := SomeFree(buckets[..], hash, contents);
      var p := FindBucket(key, hash(key));
      ProbeFinds(buckets[..], hash, contents, key, p);
      ProbeEndsInside(buckets[..], hash(key), key, p);
      res := if buckets[p].Used? then Some(buckets[p].value) else None;
    }

    method Has(key: K) returns (res: bool)
      requires Valid()
      ensures res <==> key in contents
    {
      hide Sound, IsProbeEnd;
      var f := SomeFree(buckets[..], hash, contents);
      var p := FindBucket(key, hash(key));
      ProbeFinds(buckets[..], hash, contents, key, p);
      ProbeEndsInside(buckets[..], hash(key), key, p);
      res := buckets[p].Used?;
    }

    /** hashmap_take. The table is exactly what the shifting loop makes of it; it is sound again, and lacks the key
        and nothing else, exactly if the run from the entry's bucket on was safe. */
    method Take(key: K) returns (dst: Option<V>)
      requires Valid()
      modifies this`count, this`contents, buckets
      ensures dst == if key in old(contents) then Some(old(contents)[key]) else None
      ensures contents == old(contents) - {key}
      ensures count == |contents|
      ensures dst.None? ==> buckets[..] == old(buckets[..]) && Valid()
      ensures dst.Some? ==>
        exists p: nat, f: nat ::
          && TakenFrom(old(buckets[..]), p, f, key, buckets[..])
          && (Valid() <==> IsSafe(old(buckets[..]), p, f))
          && (!RunWraps(old(buckets[..]), p) ==> Valid())
    {
      hide Sound, IsProbeEnd, Shifted, RunWraps, IsSafe, IsRunEnd;
      ghost var t, m := buckets[..], contents;
      ghost var f := SomeFree(t, hash, m);
      var p := FindBucket(key, hash(key));
      ProbeFinds(t, hash, m, key, p);
      ProbeEndsInside(t, hash(key), key, p);
      if buckets[p].Free? {
        assert contents == contents - {key};
        return None;
      }
      dst := Some(buckets[p].value);
      count, contents := count - 1, contents - {key};
      assert m.Keys == contents.Keys + {key};
      ghost var end := RunEnd(t, p, p, f);
      TakeIsSoundIff(t, hash, m, p, end);
      if !RunWraps(t, p) {
        TakeIsSound(t, hash, m, p);
      }
      assert buckets[f].Free?;
      ShiftBack(p, f);
      assert TakenFrom(t, p, end, key, buckets[..]);
    }

    method Put(i: nat, b: Bucket<K, V>, ghost t: Table<K, V>)
      requires buckets[..] == t && i < |t|
      modifies buckets
      ensures buckets[..] == t[i := b]
    {
      buckets[i] := b;
    }

    /** The inner loop: entries at home beyond the hole are passed over. */
    method PassOver(hole: nat, first: nat, ghost f: nat, ghost all: nat) returns (n: nat, ghost left: nat)
      requires cap == buckets.Length && hole < cap && first < cap && f < cap && buckets[f].Free?
      requires Ahead(cap, first, f) < all
      ensures n < cap && left <= all && Ahead(cap, n, f) < left
      ensures Shifted(buckets[..], hole, n, left) == Shifted(buckets[..], hole, first, all)
      ensures buckets[n].Used? ==> Home(cap, buckets[n].hash) <= hole
    {
      hide *;
      n, left := first, all;
      while buckets[n].Used? && Home(cap, buckets[n].hash) > hole
        invariant n < cap && left <= all && Ahead(cap, n, f) < left
        invariant Shifted(buckets[..], hole, n, left) == Shifted(buckets[..], hole, first, all)
        decreases left
      {
        ShiftedStep(buckets[..], hole, n, left, f);
        n, left := Next(cap, n), left - 1;
      }
    }

    /** The second half of hashmap_take: entries further on are moved back until none needs to be. */
    method ShiftBack(start: nat, ghost f: nat)
      requires cap == buckets.Length && start < cap && buckets[start].Used?
      requires f < cap && buckets[f].Free?
      modifies buckets
      ensures buckets[..] == Shifted(old(buckets[..]), start, Next(cap, start), cap)
    {
      hide *;
      AheadInside(cap, Next(cap, start), f);
      var hole: nat, n: nat := start, Next(cap, start);
      ghost var left: nat, t := cap, buckets[..];
      ghost var result := Shifted(t, hole, n, left);
      while true
        invariant buckets[..] == t && |t| == cap
        invariant hole < cap && n < cap && t[hole].Used? && t[f].Free?
        invariant Ahead(cap, n, f) < left && Shifted(t, hole, n, left) == result
        decreases left
      {
        n, left := PassOver(hole, n, f, left);
        ShiftedStep(t, hole, n, left, f);
        if buckets[n].Free? {
          Put(hole, Free, t);
          return;
        }
        Put(hole, buckets[n], t);
        t := t[hole := t[n]];
        hole, n, left := n, Next(cap, n), left - 1;
      }
    }

    method Clear()
      requires Valid()
      modifies this`count, this`contents, buckets
      ensures Valid() && contents == map[]
    {
      if count == 0 {
        return;
      }
      for i := 0 to buckets.Length
        invariant forall k :: 0 <= k < i ==> buckets[k].Free?
      {
        buckets[i] := Free;
      }
      count, contents := 0, map[];
      EmptyIsSound(buckets[..], hash);
    }

    /** hashmap_iter: the bucket of the next item after the one iter stands at, from the front on None. */
    method Iter(iter: Option<nat>) returns (next: Option<nat>)
      requires Valid() && (iter.Some? ==> iter.value < cap)
      ensures next.Some? ==> next.value < cap && buckets[next.value].Used? && (iter.Some? ==> iter.value < next.value)
      ensures var from := if iter.None? then 0 else iter.value + 1;
              forall k :: from <= k < (if next.None? then cap else next.value) ==> buckets[k].Free?
    {
      hide Sound;
      if iter.None? {
        if count == 0 {
          EmptyMapIsFree(buckets[..], hash, contents);
          return None;
        }
        ghost var u := SomeUsed(buckets[..], hash, contents);
        var p := 0;
        while buckets[p].Free?
          invariant 0 <= p <= u
          invariant forall k :: 0 <= k < p ==> buckets[k].Free?
          decreases u - p
        {
          p := p + 1;
        }
        return Some(p);
      }
      var p := iter.value + 1;
      if p >= cap {
        return None;
      }
      while buckets[p].Free?
        invariant iter.value < p < cap
        invariant forall k :: iter.value < k < p ==> buckets[k].Free?
        decreases cap - p
      {
        p := p + 1;
        if p >= cap {
          return None;
        }
      }
      return Some(p);
    }

    /** What a caller sees that iterates to the end: every entry of the map, once. */
    method Items() returns (items: seq<(K, V)>)
      requires Valid()
      ensures Lists(items, contents)
    {
      hide Sound, Copied, Lists;
      items := [];
      var iter := Iter(None);
      ghost var listed := map[];
      ghost var from := 0;
      CopyStarts(buckets[..], contents);
      ListNone(items, listed);
      while iter.Some?
        invariant iter.Some? ==> from <= iter.value < cap && buckets[iter.value].Used?
        invariant from <= cap
        invariant forall k :: from <= k < (if iter.None? then cap else iter.value) ==> buckets[k].Free?
        invariant Copied(buckets[..], from, contents, listed)
        invariant Lists(items, listed)
        decreases cap - from
      {
        var bucket := buckets[iter.value];
        NextListed(buckets[..], hash, from, iter.value, contents, listed, bucket, items);
        items := items + [(bucket.key, bucket.value)];
        listed := listed[bucket.key := bucket.value];
        from := iter.value + 1;
        iter := Iter(iter);
      }
      CopySkips(buckets[..], from, cap, contents, listed);
      CopyEnds(buckets[..], hash, cap, contents, listed);
    }
  }

  /** The entry for key was in bucket p, in a run that ends before f, and the shifting loop ran from there. */
  ghost predicate TakenFrom<K, V>(t: Table<K, V>, p: nat, f: nat, key: K, t': Table<K, V>) {
    p < |t| && t[p].Used? && t[p].key == key && IsRunEnd(t, p, f) && t' == Shifted(t, p, Next(|t|, p), |t|)
  }

  /** Each entry of the map is listed once. */
  ghost predicate Lists<K, V>(items: seq<(K, V)>, m: map<K, V>) {
    && |items| == |m|
    && (forall k :: k in m ==> (k, m[k]) in items)
    && (forall i :: 0 <= i < |items| ==> items[i].0 in m && m[items[i].0] == items[i].1)
    && forall i, j :: 0 <= i < j < |items| ==> items[i].0 != items[j].0
  }

  lemma ListNone<K, V>(items: seq<(K, V)>, m: map<K, V>)
    requires items == [] && m == map[]
    ensures Lists(items, m)
  {
  }

  lemma ListOne<K, V>(items: seq<(K, V)>, m: map<K, V>, key: K, value: V)
    requires Lists(items, m) && key !in m
    ensures Lists(items + [(key, value)], m[key := value])
  {
    var more, m' := items + [(key, value)], m[key := value];
    assert more[|items|] == (key, value);
    forall k | k in m' ensures (k, m'[k]) in more {
      if k != key {
        assert (k, m[k]) in items;
      }
    }
  }

  /** The next used bucket is listed after those before it. */
  lemma NextListed<K, V>(t: Table<K, V>, hash: K -> nat, from: nat, i: nat, m: map<K, V>, m': map<K, V>, b: Bucket<K, V>,
                         items: seq<(K, V)>)
    requires Sound(t, hash, m) && Copied(t, from, m, m') && Lists(items, m')
    requires from <= i < |t| && t[i] == b && b.Used? && forall k :: from <= k < i ==> t[k].Free?
    ensures Copied(t, i + 1, m, m'[b.key := b.value])
    ensures Lists(items + [(b.key, b.value)], m'[b.key := b.value])
  {
    hide Sound, Copied, Lists;
    CopySkips(t, from, i, m, m');
    CopyStep(t, hash, i, m, m', b);
    ListOne(items, m', b.key, b.value);
  }

  lemma AheadInside(cap: nat, n: nat, f: nat)
    requires n < cap && f < cap
    ensures Ahead(cap, n, f) < cap
  {
  }

  /** One turn of the shifting loop. */
  lemma ShiftedStep<K, V>(t: Table<K, V>, hole: nat, n: nat, left: nat, f: nat)
    requires hole < |t| && n < |t| && f < |t| && t[f].Free? && Ahead(|t|, n, f) < left
    ensures t[n].Free? ==> Shifted(t, hole, n, left) == t[hole := Free]
    ensures t[n].Used? && Home(|t|, t[n].hash) > hole ==>
      Shifted(t, hole, Next(|t|, n), left - 1) == Shifted(t, hole, n, left)
    ensures t[n].Used? && Home(|t|, t[n].hash) <= hole ==>
      Shifted(t[hole := t[n]], n, Next(|t|, n), left - 1) == Shifted(t, hole, n, left)
    ensures t[n].Used? ==> Ahead(|t|, Next(|t|, n), f) < left - 1
  {
  }

  // ----- copying a table into a larger one

  /** m' holds what the first i buckets of t hold. */
  ghost predicate Copied<K, V>(t: Table<K, V>, i: nat, m: map<K, V>, m': map<K, V>) {
    && i <= |t|
    && (forall j :: 0 <= j < i && t[j].Used? ==> t[j].key in m' && m'[t[j].key] == t[j].value)
    && forall k :: k in m' ==> k in m && m'[k] == m[k] && exists j :: 0 <= j < i && t[j].Used? && t[j].key == k
  }

  lemma CopyStarts<K, V>(t: Table<K, V>, m: map<K, V>)
    ensures Copied(t, 0, m, map[])
  {
  }

  lemma CopyFits<K, V>(t: Table<K, V>, i: nat, m: map<K, V>, m': map<K, V>)
    requires Copied(t, i, m, m')
    ensures |m'| <= |m|
  {
    SubsetSize(m'.Keys, m.Keys);
  }

  lemma CopySkips<K, V>(t: Table<K, V>, i: nat, j: nat, m: map<K, V>, m': map<K, V>)
    requires Copied(t, i, m, m') && i <= j <= |t| && forall k :: i <= k < j ==> t[k].Free?
    ensures Copied(t, j, m, m')
  {
  }

  lemma EmptyMapIsFree<K, V>(t: Table<K, V>, hash: K -> nat, m: map<K, V>)
    requires Sound(t, hash, m) && |m| == 0
    ensures forall i :: 0 <= i < |t| ==> t[i].Free?
  {
    forall i | 0 <= i < |t| ensures t[i].Free? {
      if t[i].Used? {
        assert Live(t, |t|, i);
      }
    }
  }

  lemma SomeUsed<K, V>(t: Table<K, V>, hash: K -> nat, m: map<K, V>) returns (u: nat)
    requires Sound(t, hash, m) && |m| != 0
    ensures u < |t| && t[u].Used?
  {
    var k :| k in m;
    u :| Live(t, |t|, u) && t[u].key == k;
  }

  lemma CopyStep<K, V>(t: Table<K, V>, hash: K -> nat, i: nat, m: map<K, V>, m': map<K, V>, b: Bucket<K, V>)
    requires Sound(t, hash, m) && Copied(t, i, m, m') && i < |t| && t[i] == b
    ensures b.Free? ==> Copied(t, i + 1, m, m')
    ensures b.Used? ==> Copied(t, i + 1, m, m'[b.key := b.value]) && b.hash == hash(b.key) && b.key !in m'
  {
    if b.Used? {
      assert Live(t, |t|, i);
      forall j | 0 <= j < i && t[j].Used? ensures t[j].key != t[i].key {
        assert Live(t, |t|, j);
      }
    }
  }

  lemma CopyEnds<K, V>(t: Table<K, V>, hash: K -> nat, i: nat, m: map<K, V>, m': map<K, V>)
    requires Sound(t, hash, m) && Copied(t, i, m, m') && i >= |t|
    ensures m' == m
  {
    forall k | k in m ensures k in m' {
      var i: nat :| Live(t, |t|, i) && t[i].key == k;
    }
  }

  lemma ProbeEndsInside<K, V>(t: Table<K, V>, h: nat, key: K, p: nat)
    requires IsProbeEnd(t, h, key, p)
    ensures p < |t|
  {
  }
}
