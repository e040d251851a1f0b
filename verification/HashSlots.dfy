/** The table of `kernel/hash.c` as a sequence of slots: which keys it holds, why a search
    along the probe sequence finds them, and what each store into a slot changes. */
module HashSlots {
  import opened Options
  import opened Words
  import opened HashProbe
  import opened Sets

  /** A slot: SL_EMPTY has never held a pair, SL_DELETED has.  Both have null key and value. */
  datatype Slot<K, V> = Empty | Deleted | Active(key: K, value: V, hash: nat)

  /** The two functions given to hash_init. */
  datatype Keys<!K> = Keys(hfunc: K -> nat, cmp: (K, K) -> bool)

  /** cmp is an equivalence, and equal keys have the same hash code, a 32-bit word. */
  ghost predicate Coherent<K(!new)>(f: Keys<K>) {
    && (forall a {:trigger f.cmp(a, a)} :: f.cmp(a, a))
    && (forall a, b {:trigger f.cmp(a, b)} :: f.cmp(a, b) ==> f.cmp(b, a) && f.hfunc(a) == f.hfunc(b))
    && (forall a, b, c {:trigger f.cmp(a, b), f.cmp(b, c)} :: f.cmp(a, b) && f.cmp(b, c) ==> f.cmp(a, c))
    && (forall a {:trigger f.hfunc(a)} :: f.hfunc(a) < WORD)
  }

  /** No probe before n meets an empty slot. */
  ghost predicate Path<K, V>(t: seq<Slot<K, V>>, hash: nat, n: nat) {
    |t| > 0 && forall m: nat {:trigger Probe(hash, |t|, m)} :: m < n ==> t[Probe(hash, |t|, m)] != Empty
  }

  /** A search for the hash code comes to slot s. */
  ghost predicate Reachable<K, V>(t: seq<Slot<K, V>>, hash: nat, s: nat) {
    exists n: nat {:trigger Path(t, hash, n)} :: Path(t, hash, n) && Probe(hash, |t|, n) == s
  }

  ghost predicate SlotOk<K, V>(f: Keys<K>, t: seq<Slot<K, V>>, s: nat)
    requires s < |t|
  {
    t[s].Active? ==> t[s].hash == f.hfunc(t[s].key) && Reachable(t, t[s].hash, s)
  }

  ghost predicate Differ<K, V>(f: Keys<K>, t: seq<Slot<K, V>>, s: nat, r: nat)
    requires s < |t| && r < |t|
  {
    s != r && t[s].Active? && t[r].Active? ==> !f.cmp(t[s].key, t[r].key)
  }

  ghost predicate Unique<K, V>(f: Keys<K>, t: seq<Slot<K, V>>) {
    forall s: nat, r: nat {:trigger Differ(f, t, s, r)} :: s < |t| && r < |t| ==> Differ(f, t, s, r)
  }

  ghost predicate TableOk<K, V>(f: Keys<K>, t: seq<Slot<K, V>>) {
    Unique(f, t) && forall s: nat {:trigger SlotOk(f, t, s)} :: s < |t| ==> SlotOk(f, t, s)
  }

  /** Slot s holds a pair for the key x. */
  ghost predicate At<K, V>(f: Keys<K>, t: seq<Slot<K, V>>, s: nat, x: K) {
    s < |t| && t[s].Active? && f.cmp(t[s].key, x)
  }

  /** The value for x, if there is one. */
  ghost function ValueOf<K, V>(f: Keys<K>, t: seq<Slot<K, V>>, x: K): Option<V> {
    if exists s: nat :: At(f, t, s, x) then
      var s: nat :| At(f, t, s, x);
      Some(t[s].value)
    else None
  }

  lemma ValueAt<K(!new), V>(f: Keys<K>, t: seq<Slot<K, V>>, s: nat, x: K)
    requires Coherent(f) && Unique(f, t) && At(f, t, s, x)
    ensures ValueOf(f, t, x) == Some(t[s].value)
  {
    forall r: nat | At(f, t, r, x) ensures r == s {
      assert Differ(f, t, r, s);
      assert f.cmp(t[s].key, x) && f.cmp(x, t[s].key);
    }
  }

  lemma ValueNone<K, V>(f: Keys<K>, t: seq<Slot<K, V>>, x: K)
    ensures ValueOf(f, t, x) == None <==> forall s: nat :: !At(f, t, s, x)
  {
  }

  /** Slot s is the first on the path of the hash code that holds no pair. */
  ghost predicate FirstFree<K, V>(t: seq<Slot<K, V>>, hash: nat, s: nat) {
    s < |t| && !t[s].Active? && exists n: nat {:trigger Path(t, hash, n)} :: Path(t, hash, n) && FreeAfter(t, hash, n, s)
  }

  ghost predicate FreeAfter<K, V>(t: seq<Slot<K, V>>, hash: nat, n: nat, s: nat)
    requires |t| > 0
  {
    Probe(hash, |t|, n) == s && forall m: nat {:trigger Probe(hash, |t|, m)} :: m < n ==> t[Probe(hash, |t|, m)].Active?
  }

  /** There is only one. */
  lemma OneFree<K, V>(t: seq<Slot<K, V>>, hash: nat, s: nat, r: nat)
    requires FirstFree(t, hash, s) && FirstFree(t, hash, r)
    ensures s == r
  {
    var m: nat :| Path(t, hash, m) && FreeAfter(t, hash, m, s);
    var n: nat :| Path(t, hash, n) && FreeAfter(t, hash, n, r);
    var p, q := Probe(hash, |t|, m), Probe(hash, |t|, n);
  }

  /** A new pair with this hash code would take the place of a removed one. */
  ghost predicate Reuses<K, V>(t: seq<Slot<K, V>>, hash: nat) {
    exists s: nat {:trigger FirstFree(t, hash, s)} :: FirstFree(t, hash, s) && t[s] == Deleted
  }

  /** What hash_lookup promises about the slot it returns: the pair of the key, or if the key
      is absent, a free slot where a search for it would come by. */
  ghost predicate Found<K, V>(f: Keys<K>, t: seq<Slot<K, V>>, key: K, s: nat) {
    && s < |t|
    && (if t[s].Active? then At(f, t, s, key)
        else Reachable(t, f.hfunc(key), s) && ValueOf(f, t, key) == None)
  }

  // ------------------------------------------------------------- search

  /** The first n probes met neither an empty slot nor the key. */
  ghost predicate Missed<K, V>(f: Keys<K>, t: seq<Slot<K, V>>, key: K, n: nat) {
    Path(t, f.hfunc(key), n)
    && forall m: nat {:trigger Probe(f.hfunc(key), |t|, m)} :: m < n ==> !At(f, t, Probe(f.hfunc(key), |t|, m), key)
  }

  lemma MissedOne<K, V>(f: Keys<K>, t: seq<Slot<K, V>>, key: K, n: nat)
    requires Missed(f, t, key, n)
    requires var s := Probe(f.hfunc(key), |t|, n); t[s] != Empty && !At(f, t, s, key)
    ensures Missed(f, t, key, n + 1)
  {
  }

  /** Where the search for a key that is there comes by. */
  lemma Whereabouts<K(!new), V>(f: Keys<K>, t: seq<Slot<K, V>>, key: K, s: nat) returns (m: nat)
    requires Coherent(f) && TableOk(f, t) && At(f, t, s, key)
    ensures Path(t, f.hfunc(key), m) && Probe(f.hfunc(key), |t|, m) == s
  {
    assert SlotOk(f, t, s);
    m :| Path(t, t[s].hash, m) && Probe(t[s].hash, |t|, m) == s;
    assert f.cmp(t[s].key, key);
  }

  /** A path that avoids empty slots is no longer than the way to one. */
  lemma PathStops<K, V>(t: seq<Slot<K, V>>, hash: nat, m: nat, n: nat)
    requires Path(t, hash, m) && t[Probe(hash, |t|, n)] == Empty
    ensures m <= n
  {
  }

  /** At the first empty slot, the search is over: the key is nowhere. */
  lemma SearchEnds<K(!new), V>(f: Keys<K>, t: seq<Slot<K, V>>, key: K, n: nat)
    requires Coherent(f) && TableOk(f, t) && Missed(f, t, key, n)
    requires t[Probe(f.hfunc(key), |t|, n)] == Empty
    ensures ValueOf(f, t, key) == None
  {
    forall s: nat ensures !At(f, t, s, key) {
      if At(f, t, s, key) {
        var m := Whereabouts(f, t, key, s);
        PathStops(t, f.hfunc(key), m, n);
      }
    }
  }

  /** The slots that hold pairs, and those that are not empty. */
  ghost function Actives<K, V>(t: seq<Slot<K, V>>): set<int> {
    set s | 0 <= s < |t| && t[s].Active?
  }

  ghost function Used<K, V>(t: seq<Slot<K, V>>): set<int> {
    set s | 0 <= s < |t| && t[s] != Empty
  }

  /** With fill below the size there is an empty slot, and every search comes to one. */
  lemma EmptyAhead<K, V>(t: seq<Slot<K, V>>, k: nat, hash: nat) returns (n: nat)
    requires k <= 32 && |t| == Pow2(k) && |Used(t)| < |t| && hash < WORD
    ensures t[Probe(hash, |t|, n)] == Empty && n < 7 + |t|
  {
    var e := FindEmpty(t);
    n := ProbesAll(hash, k, e);
  }

  lemma FindEmpty<K, V>(t: seq<Slot<K, V>>) returns (e: nat)
    requires |Used(t)| < |t|
    ensures e < |t| && t[e] == Empty
  {
    var free := Below(|t|) - Used(t);
    SubsetSize(Below(|t|), Used(t) + free);
    assert |Used(t) + free| <= |Used(t)| + |free|;
    e := Pick(free);
  }

  // ------------------------------------------------------------- stores

  /** Storing in a slot that was or becomes non-empty keeps all searches. */
  lemma PathKept<K, V>(t: seq<Slot<K, V>>, s: nat, x: Slot<K, V>, hash: nat, r: nat)
    requires s < |t| && x != Empty && Reachable(t, hash, r)
    ensures Reachable(t[s := x], hash, r)
  {
    var n: nat :| Path(t, hash, n) && Probe(hash, |t|, n) == r;
    assert Path(t[s := x], hash, n);
  }

  /** The pair stored by hash_set in the slot found. */
  function Pair<K, V>(f: Keys<K>, t: seq<Slot<K, V>>, s: nat, key: K, v: V): Slot<K, V>
    requires s < |t|
  {
    if t[s].Active? then t[s].(value := v) else Active(key, v, f.hfunc(key))
  }

  lemma SetKeeps<K(!new), V>(f: Keys<K>, t: seq<Slot<K, V>>, s: nat, key: K, v: V)
    requires Coherent(f) && TableOk(f, t) && Found(f, t, key, s)
    ensures TableOk(f, t[s := Pair(f, t, s, key, v)])
  {
    var t' := t[s := Pair(f, t, s, key, v)];
    forall r: nat | r < |t'| ensures SlotOk(f, t', r) {
      assert SlotOk(f, t, r);
      if t'[r].Active? { PathKept(t, s, t'[s], t'[r].hash, r); }
    }
    forall r: nat, q: nat | r < |t'| && q < |t'| ensures Differ(f, t', r, q) {
      assert Differ(f, t, r, q);
      if !t[s].Active? {
        assert !At(f, t, r, key) && !At(f, t, q, key);
        assert t'[q].Active? && f.cmp(key, t'[q].key) ==> f.cmp(t'[q].key, key);
      }
    }
  }

  /** Two slots that hold equal keys are one. */
  lemma SameSlot<K(!new), V>(f: Keys<K>, t: seq<Slot<K, V>>, r: nat, s: nat, x: K, y: K)
    requires Coherent(f) && Unique(f, t) && At(f, t, r, x) && At(f, t, s, y) && f.cmp(x, y)
    ensures r == s
  {
    assert Differ(f, t, r, s);
    assert f.cmp(t[s].key, y) && f.cmp(y, t[s].key);
    assert f.cmp(t[r].key, y);
  }

  /** After hash_set(key, v), the answer for keys equal to key is v, and no other changes. */
  lemma SetLaw<K(!new), V>(f: Keys<K>, t: seq<Slot<K, V>>, s: nat, key: K, v: V, x: K)
    requires Coherent(f) && TableOk(f, t) && Found(f, t, key, s)
    ensures ValueOf(f, t[s := Pair(f, t, s, key, v)], x) == if f.cmp(key, x) then Some(v) else ValueOf(f, t, x)
  {
    var t' := t[s := Pair(f, t, s, key, v)];
    SetKeeps(f, t, s, key, v);
    var k := t'[s].key;
    assert f.cmp(k, key) && f.cmp(key, k);
    if f.cmp(key, x) {
      assert f.cmp(k, x);
      ValueAt(f, t', s, x);
    } else {
      assert !f.cmp(k, x);
      if r: nat :| At(f, t, r, x) {
        assert At(f, t', r, x);
        ValueAt(f, t, r, x);
        ValueAt(f, t', r, x);
      } else {
        forall r: nat ensures !At(f, t', r, x) {
          assert !At(f, t, r, x);
        }
      }
    }
  }

  lemma DelKeeps<K(!new), V>(f: Keys<K>, t: seq<Slot<K, V>>, s: nat)
    requires Coherent(f) && TableOk(f, t) && s < |t|
    ensures TableOk(f, t[s := Deleted])
  {
    var t' := t[s := Deleted];
    forall r: nat | r < |t'| ensures SlotOk(f, t', r) {
      assert SlotOk(f, t, r);
      if t'[r].Active? { PathKept(t, s, Deleted, t'[r].hash, r); }
    }
    forall r: nat, q: nat | r < |t'| && q < |t'| ensures Differ(f, t', r, q) {
      assert Differ(f, t, r, q);
    }
  }

  /** After hash_del(key), keys equal to key have no value, and no other answer changes. */
  lemma DelLaw<K(!new), V>(f: Keys<K>, t: seq<Slot<K, V>>, s: nat, key: K, x: K)
    requires Coherent(f) && TableOk(f, t) && At(f, t, s, key)
    ensures ValueOf(f, t[s := Deleted], x) == if f.cmp(key, x) then None else ValueOf(f, t, x)
  {
    var t' := t[s := Deleted];
    DelKeeps(f, t, s);
    var k := t[s].key;
    assert f.cmp(k, key) && f.cmp(key, k);
    if f.cmp(key, x) {
      assert f.cmp(x, key);
      forall r: nat ensures !At(f, t', r, x) {
        if At(f, t', r, x) {
          SameSlot(f, t, r, s, x, key);
        }
      }
    } else if r: nat :| At(f, t, r, x) {
      assert f.cmp(k, x) ==> f.cmp(key, x);
      assert r != s && At(f, t', r, x);
      ValueAt(f, t, r, x);
      ValueAt(f, t', r, x);
    } else {
      forall r: nat ensures !At(f, t', r, x) {
        assert !At(f, t, r, x);
      }
    }
  }

  /** One more slot of the old table, as hash_copy goes through it. */
  lemma PrefixLaw<K(!new), V>(f: Keys<K>, t: seq<Slot<K, V>>, i: nat, x: K)
    requires Coherent(f) && Unique(f, t) && i < |t|
    ensures ValueOf(f, t[..i + 1], x) == if At(f, t, i, x) then Some(t[i].value) else ValueOf(f, t[..i], x)
  {
    var u, w := t[..i], t[..i + 1];
    PrefixUnique(f, t, i);
    PrefixUnique(f, t, i + 1);
    if At(f, t, i, x) {
      assert At(f, w, i, x);
      ValueAt(f, w, i, x);
    } else if r: nat :| At(f, u, r, x) {
      assert At(f, w, r, x);
      ValueAt(f, u, r, x);
      ValueAt(f, w, r, x);
    } else {
      forall r: nat ensures !At(f, w, r, x) {
        assert !At(f, u, r, x);
      }
    }
  }

  lemma PrefixUnique<K, V>(f: Keys<K>, t: seq<Slot<K, V>>, i: nat)
    requires Unique(f, t) && i <= |t|
    ensures Unique(f, t[..i])
  {
    forall s: nat, r: nat | s < i && r < i ensures Differ(f, t[..i], s, r) {
      assert Differ(f, t, s, r);
    }
  }

  /** A key of the old table does not occur among the slots before its own. */
  lemma PrefixAbsent<K(!new), V>(f: Keys<K>, t: seq<Slot<K, V>>, i: nat)
    requires Coherent(f) && Unique(f, t) && i < |t| && t[i].Active?
    ensures ValueOf(f, t[..i], t[i].key) == None
  {
    forall s: nat ensures !At(f, t[..i], s, t[i].key) {
      if s < i { assert Differ(f, t, s, i); }
    }
  }

  /** Counting: one slot stored. */
  lemma StoreCounts<K, V>(t: seq<Slot<K, V>>, s: nat, x: Slot<K, V>)
    requires s < |t| && x != Empty
    ensures |Used(t[s := x])| == |Used(t)| + (if t[s] == Empty then 1 else 0)
    ensures |Actives(t[s := x])| == |Actives(t)| + (if x.Active? then 1 else 0) - (if t[s].Active? then 1 else 0)
  {
    UsedStored(t, s, x);
    ActivesStored(t, s, x);
    AddOne(Used(t), s);
    AddOne(Actives(t), s);
  }

  lemma UsedStored<K, V>(t: seq<Slot<K, V>>, s: nat, x: Slot<K, V>)
    requires s < |t| && x != Empty
    ensures Used(t[s := x]) == Used(t) + {s as int}
  {
  }

  lemma ActivesStored<K, V>(t: seq<Slot<K, V>>, s: nat, x: Slot<K, V>)
    requires s < |t|
    ensures Actives(t[s := x]) == if x.Active? then Actives(t) + {s as int} else Actives(t) - {s as int}
  {
  }

  lemma ActivesOfPrefix<K, V>(t: seq<Slot<K, V>>, i: nat)
    requires i < |t|
    ensures |Actives(t[..i + 1])| == |Actives(t[..i])| + if t[i].Active? then 1 else 0
  {
    if t[i].Active? {
      assert Actives(t[..i + 1]) == Actives(t[..i]) + {i as int};
    } else {
      assert Actives(t[..i + 1]) == Actives(t[..i]);
    }
  }

  lemma CountBounds<K, V>(t: seq<Slot<K, V>>)
    ensures |Actives(t)| <= |Used(t)| <= |t|
  {
    SubsetSize(Used(t), Below(|t|));
    SubsetSize(Actives(t), Used(t));
  }

  /** A table of empty slots. */
  lemma Fresh<K, V>(f: Keys<K>, t: seq<Slot<K, V>>)
    requires forall s :: 0 <= s < |t| ==> t[s] == Empty
    ensures TableOk(f, t) && Actives(t) == {} && Used(t) == {}
    ensures forall x :: ValueOf(f, t, x) == None
  {
    forall s: nat | s < |t| ensures SlotOk(f, t, s) {}
    forall s: nat, r: nat | s < |t| && r < |t| ensures Differ(f, t, s, r) {}
  }
}
