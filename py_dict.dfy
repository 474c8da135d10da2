/**
  Python's built-in `dict` as the CORS middleware uses it: an insertion-ordered
  map. Its abstract value is the list of its entries in iteration order, an
  association list whose keys are pairwise distinct.

  - `Put` is `d[k] = v`: an existing key keeps its position and takes the new
    value, a new key is appended.
  - `FromPairs` is `dict(pairs)`: the pairs are assigned in order, so a
    repeated key keeps the position of its first occurrence and the value of
    its last.
  - `LastValue` and `Precedes` describe that outcome directly on the input
    list, and the lemmas below connect the two views.
  - `Dict` is the mutable object, proved against `Put` and `PutAll`.
*/
module PyDict {
  import opened Wrappers

  /** The keys of an association list, in order. */
  function Keys<K, V>(d: seq<(K, V)>): seq<K> {
    seq(|d|, i requires 0 <= i < |d| => d[i].0)
  }

  predicate Distinct<T(==)>(s: seq<T>) {
    forall i, j | 0 <= i < j < |s| :: s[i] != s[j]
  }

  /** Position of the first occurrence of `x` in `s`. */
  function IndexOf<T(==)>(s: seq<T>, x: T): (i: nat)
    requires x in s
    ensures i < |s| && s[i] == x && x !in s[..i]
  {
    if s[0] == x then 0
    else
      var j := IndexOf(s[1..], x);
      assert s[..j + 1] == [s[0]] + s[1..][..j];
      j + 1
  }

  /** Both occur in `s`, and the first occurrence of `a` comes before the first occurrence of `b`. */
  predicate Precedes<T(==)>(s: seq<T>, a: T, b: T) {
    a in s && b in s && IndexOf(s, a) < IndexOf(s, b)
  }

  /** `d.get(k)`. */
  function Get<K(==), V>(d: seq<(K, V)>, k: K): Option<V> {
    if k in Keys(d) then Some(d[IndexOf(Keys(d), k)].1) else None
  }

  /** `d[k] = v`. */
  function Put<K(==), V>(d: seq<(K, V)>, k: K, v: V): seq<(K, V)> {
    if k in Keys(d) then d[IndexOf(Keys(d), k) := (k, v)] else d + [(k, v)]
  }

  /** `d.update(ps)`: the pairs of `ps` assigned one after another. */
  function PutAll<K(==), V>(d: seq<(K, V)>, ps: seq<(K, V)>): seq<(K, V)>
    decreases |ps|
  {
    if ps == [] then d
    else
      var n := |ps| - 1;
      Put(PutAll(d, ps[..n]), ps[n].0, ps[n].1)
  }

  /** `dict(ps)`. */
  function FromPairs<K(==), V>(ps: seq<(K, V)>): seq<(K, V)> {
    PutAll([], ps)
  }

  /** The value of the last pair of `ps` whose key is `k`. */
  function LastValue<K(==), V>(ps: seq<(K, V)>, k: K): (r: Option<V>)
    ensures r.None? <==> k !in Keys(ps)
    ensures r.Some? ==> exists j | 0 <= j < |ps| ::
              ps[j] == (k, r.value) && forall j' | j < j' < |ps| :: ps[j'].0 != k
  {
    if ps == [] then None
    else
      var n := |ps| - 1;
      assert Keys(ps) == Keys(ps[..n]) + [ps[n].0];
      if ps[n].0 == k then Some(ps[n].1) else LastValue(ps[..n], k)
  }

  // ---------------------------------------------------------------------------
  // Sequence facts

  lemma KeysAppend<K, V>(d: seq<(K, V)>, p: (K, V))
    ensures Keys(d + [p]) == Keys(d) + [p.0]
  {
  }

  lemma KeysConcat<K, V>(a: seq<(K, V)>, b: seq<(K, V)>)
    ensures Keys(a + b) == Keys(a) + Keys(b)
  {
  }

  /** The first occurrence is the only position with no earlier occurrence. */
  lemma IndexOfUnique<T>(s: seq<T>, x: T, i: nat)
    requires i < |s| && s[i] == x && x !in s[..i]
    ensures IndexOf(s, x) == i
  {
    var j := IndexOf(s, x);
  }

  lemma IndexOfAppend<T>(s: seq<T>, x: T, a: T)
    requires a in s + [x]
    ensures IndexOf(s + [x], a) == if a in s then IndexOf(s, a) else |s|
  {
    if a in s {
      var i := IndexOf(s, a);
      assert (s + [x])[..i] == s[..i];
      IndexOfUnique(s + [x], a, i);
    } else {
      assert (s + [x])[..|s|] == s;
      IndexOfUnique(s + [x], a, |s|);
    }
  }

  lemma PrecedesAppend<T>(s: seq<T>, x: T, a: T, b: T)
    ensures Precedes(s + [x], a, b) <==> Precedes(s, a, b) || (a in s && b == x && x !in s)
  {
    if a in s + [x] && b in s + [x] {
      IndexOfAppend(s, x, a);
      IndexOfAppend(s, x, b);
    }
  }

  // ---------------------------------------------------------------------------
  // Assignment of one key

  /** `d[k] = v` keeps keys distinct and moves no key: `k` is appended only
      when it was absent. */
  lemma PutKeys<K, V>(d: seq<(K, V)>, k: K, v: V)
    requires Distinct(Keys(d))
    ensures Distinct(Keys(Put(d, k, v)))
    ensures Keys(Put(d, k, v)) == if k in Keys(d) then Keys(d) else Keys(d) + [k]
  {
    if k in Keys(d) {
      assert Keys(Put(d, k, v)) == Keys(d);
    } else {
      KeysAppend(d, (k, v));
    }
  }

  /** `d[k] = v` binds `k` to `v` and leaves every other binding alone. */
  lemma PutGet<K, V>(d: seq<(K, V)>, k: K, v: V, k': K)
    requires Distinct(Keys(d))
    ensures Get(Put(d, k, v), k') == if k' == k then Some(v) else Get(d, k')
  {
    PutKeys(d, k, v);
    if k !in Keys(d) && k' in Keys(Put(d, k, v)) {
      IndexOfAppend(Keys(d), k, k');
    }
  }

  /** Assigning a key the value it already has changes nothing. */
  lemma PutUnchanged<K, V>(d: seq<(K, V)>, k: K, v: V)
    requires Get(d, k) == Some(v)
    ensures Put(d, k, v) == d
  {
  }

  // ---------------------------------------------------------------------------
  // Assignment of a list of pairs

  lemma {:induction false} PutAllConcat<K, V>(d: seq<(K, V)>, a: seq<(K, V)>, b: seq<(K, V)>)
    ensures PutAll(d, a + b) == PutAll(PutAll(d, a), b)
    decreases |b|
  {
    if b == [] {
      assert a + b == a;
    } else {
      var n := |b| - 1;
      assert (a + b)[..|a + b| - 1] == a + b[..n];
      PutAllConcat(d, a, b[..n]);
    }
  }

  /** After `d.update(ps)` the keys are still distinct, and they are those of
      `d` together with those of `ps`. */
  lemma {:induction false} PutAllKeys<K, V>(d: seq<(K, V)>, ps: seq<(K, V)>)
    requires Distinct(Keys(d))
    ensures Distinct(Keys(PutAll(d, ps)))
    ensures forall k :: k in Keys(PutAll(d, ps)) <==> k in Keys(d) || k in Keys(ps)
    decreases |ps|
  {
    if ps != [] {
      var n := |ps| - 1;
      PutAllKeys(d, ps[..n]);
      PutKeys(PutAll(d, ps[..n]), ps[n].0, ps[n].1);
      KeysAppend(ps[..n], ps[n]);
      assert ps[..n] + [ps[n]] == ps;
    }
  }

  /** After `d.update(ps)` a key of `ps` is bound to its last value in `ps`;
      any other key keeps its binding in `d`. */
  lemma {:induction false} PutAllGet<K, V>(d: seq<(K, V)>, ps: seq<(K, V)>, k: K)
    requires Distinct(Keys(d))
    ensures Get(PutAll(d, ps), k) == if k in Keys(ps) then LastValue(ps, k) else Get(d, k)
    decreases |ps|
  {
    if ps != [] {
      var n := |ps| - 1;
      var before := PutAll(d, ps[..n]);
      assert ps[..n] + [ps[n]] == ps;
      assert Keys(ps) == Keys(ps[..n]) + [ps[n].0] by {
        KeysAppend(ps[..n], ps[n]);
      }
      assert Distinct(Keys(before)) by {
        PutAllKeys(d, ps[..n]);
      }
      PutAllGet(d, ps[..n], k);
      PutGet(before, ps[n].0, ps[n].1, k);
    }
  }

  /** After `d.update(ps)` the keys come in the order of their first
      occurrence in the keys of `d` followed by the keys of `ps`. */
  lemma {:induction false} PutAllOrder<K, V>(d: seq<(K, V)>, ps: seq<(K, V)>, a: K, b: K)
    requires Distinct(Keys(d))
    ensures Precedes(Keys(PutAll(d, ps)), a, b) <==> Precedes(Keys(d) + Keys(ps), a, b)
    decreases |ps|
  {
    if ps == [] {
      assert Keys(d) + Keys(ps) == Keys(d);
    } else {
      var n := |ps| - 1;
      var x := ps[n].0;
      var before := PutAll(d, ps[..n]);
      var all := Keys(d) + Keys(ps[..n]);
      assert Keys(d) + Keys(ps) == all + [x] by {
        KeysAppend(ps[..n], ps[n]);
        assert ps[..n] + [ps[n]] == ps;
      }
      assert Distinct(Keys(before)) && (x in Keys(before) <==> x in all) && (a in Keys(before) <==> a in all) by {
        PutAllKeys(d, ps[..n]);
      }
      PutAllOrder(d, ps[..n], a, b);
      PutKeys(before, x, ps[n].1);
      PrecedesAppend(all, x, a, b);
      if x !in Keys(before) {
        PrecedesAppend(Keys(before), x, a, b);
      }
    }
  }

  /** Updating with pairs whose keys are distinct appends, in order, the
      keys that were absent; the keys already present stay where they are. */
  lemma {:induction false} PutAllDistinctKeys<K, V>(d: seq<(K, V)>, ps: seq<(K, V)>)
    requires Distinct(Keys(d)) && Distinct(Keys(ps))
    ensures Keys(PutAll(d, ps)) == Keys(d) + Fresh(Keys(d), Keys(ps))
    decreases |ps|
  {
    if ps != [] {
      var n := |ps| - 1;
      var x := ps[n].0;
      var before := PutAll(d, ps[..n]);
      var ks := Keys(ps);
      assert Keys(ps[..n]) == ks[..n];
      assert x !in ks[..n] by {
        assert forall i | 0 <= i < n :: ks[i] != ks[n];
      }
      assert Distinct(ks[..n]);
      PutAllDistinctKeys(d, ps[..n]);
      assert Distinct(Keys(before)) && (x in Keys(before) <==> x in Keys(d)) by {
        PutAllKeys(d, ps[..n]);
      }
      assert Fresh(Keys(d), ks) == Fresh(Keys(d), ks[..n]) + if x in Keys(d) then [] else [x];
      PutKeys(before, x, ps[n].1);
    }
  }

  /** `dict(ps)` of a list that has no repeated key is that list. */
  lemma {:induction false} FromPairsOfDistinct<K, V>(ps: seq<(K, V)>)
    requires Distinct(Keys(ps))
    ensures FromPairs(ps) == ps
    decreases |ps|
  {
    if ps != [] {
      var n := |ps| - 1;
      KeysAppend(ps[..n], ps[n]);
      assert ps[..n] + [ps[n]] == ps;
      assert Keys(ps[..n]) == Keys(ps)[..n];
      FromPairsOfDistinct(ps[..n]);
      forall i | 0 <= i < n ensures Keys(ps[..n])[i] != ps[n].0 {
        assert Keys(ps)[i] != Keys(ps)[n];
      }
    }
  }

  // ---------------------------------------------------------------------------
  // New elements

  /** The elements of `extra` that do not occur in `s`. */
  function Fresh<T(==)>(s: seq<T>, extra: seq<T>): seq<T>
    decreases |extra|
  {
    if extra == [] then []
    else
      var n := |extra| - 1;
      Fresh(s, extra[..n]) + if extra[n] in s then [] else [extra[n]]
  }

  lemma {:induction false} FreshIn<T>(s: seq<T>, extra: seq<T>)
    ensures forall x :: x in s + Fresh(s, extra) <==> x in s + extra
    decreases |extra|
  {
    if extra != [] {
      var n := |extra| - 1;
      FreshIn(s, extra[..n]);
      assert extra == extra[..n] + [extra[n]];
      forall x ensures x in s + Fresh(s, extra) <==> x in s + extra {
        assert x in s + extra <==> x in s + extra[..n] || x == extra[n];
      }
    }
  }

  lemma {:induction false} FreshSameMembers<T>(s: seq<T>, t: seq<T>, extra: seq<T>)
    requires forall x :: x in s <==> x in t
    ensures Fresh(s, extra) == Fresh(t, extra)
    decreases |extra|
  {
    if extra != [] {
      FreshSameMembers(s, t, extra[..|extra| - 1]);
    }
  }

  /** Appending names, some of which already occur, orders the names as if
      only the new ones had been appended. */
  lemma {:induction false} PrecedesSkipsRepeats<T>(s: seq<T>, extra: seq<T>, a: T, b: T)
    requires Distinct(extra)
    ensures Precedes(s + extra, a, b) <==> Precedes(s + Fresh(s, extra), a, b)
    decreases |extra|
  {
    if extra != [] {
      var n := |extra| - 1;
      var x := extra[n];
      assert s + extra == (s + extra[..n]) + [x];
      PrecedesSkipsRepeats(s, extra[..n], a, b);
      PrecedesAppend(s + extra[..n], x, a, b);
      assert x !in extra[..n];
      if x in s {
        assert Fresh(s, extra) == Fresh(s, extra[..n]);
      } else {
        assert Fresh(s, extra) == Fresh(s, extra[..n]) + [x];
        assert s + Fresh(s, extra) == (s + Fresh(s, extra[..n])) + [x];
        PrecedesAppend(s + Fresh(s, extra[..n]), x, a, b);
        FreshIn(s, extra[..n]);
      }
    }
  }

  // ---------------------------------------------------------------------------
  // The mutable dictionary

  /** A `dict` as CPython lays it out: the entries in insertion order and a
      table from each key to the slot of its entry. */
  class Dict<K(==), V> {
    var entries: seq<(K, V)>
    var slots: map<K, nat>

    ghost predicate Valid()
      reads this
    {
      && (forall k | k in slots :: slots[k] < |entries| && entries[slots[k]].0 == k)
      && (forall i | 0 <= i < |entries| :: entries[i].0 in slots && slots[entries[i].0] == i)
    }

    /** The slot table agrees with the entries, so the keys are distinct. */
    lemma SlotsAgree()
      requires Valid()
      ensures Distinct(Keys(entries))
      ensures forall k :: k in slots <==> k in Keys(entries)
      ensures forall k | k in slots :: IndexOf(Keys(entries), k) == slots[k]
    {
      forall k | k in Keys(entries) ensures k in slots {
        var i := IndexOf(Keys(entries), k);
        assert entries[i].0 == k;
      }
      forall k | k in slots ensures k in Keys(entries) {
        assert Keys(entries)[slots[k]] == k;
      }
      forall k | k in slots ensures IndexOf(Keys(entries), k) == slots[k] {
        var i := slots[k];
        assert k !in Keys(entries)[..i];
        IndexOfUnique(Keys(entries), k, i);
      }
    }

    /** `{}` */
    constructor ()
      ensures Valid() && entries == []
    {
      entries := [];
      slots := map[];
    }

    /** `d[k] = v` */
    method Set(k: K, v: V)
      requires Valid()
      modifies this
      ensures Valid() && entries == Put(old(entries), k, v)
    {
      SlotsAgree();
      if k in slots {
        var i := slots[k];
        entries := entries[i := (k, v)];
      } else {
        slots := slots[k := |entries|];
        entries := entries + [(k, v)];
      }
    }

    /** `d.update(ps)`, which is also how `dict(ps)` fills a new dictionary. */
    method Update(ps: seq<(K, V)>)
      requires Valid()
      modifies this
      ensures Valid() && entries == PutAll(old(entries), ps)
    {
      for n := 0 to |ps|
        invariant Valid() && entries == PutAll(old(entries), ps[..n])
      {
        assert ps[..n + 1][..n] == ps[..n];
        Set(ps[n].0, ps[n].1);
      }
      assert ps[..|ps|] == ps;
    }

    /** `[(k, v) for k, v in d.items()]` */
    method Items() returns (items: seq<(K, V)>)
      requires Valid()
      ensures items == entries
      ensures Distinct(Keys(items))
    {
      SlotsAgree();
      items := [];
      for n := 0 to |entries|
        invariant items == entries[..n]
      {
        items := items + [entries[n]];
      }
    }
  }
}
