/** The hash table of `kernel/hash.c`, updated in place.  Its answers are those of a finite
    map from classes of equal keys to values. */
module Hash {
  import opened Options
  import opened Words
  import opened Arith
  import opened Sets
  import opened HashProbe
  import opened HashSlots

  const HASH_MINSIZE := 8
  const SLOT_BYTES := 16  // sizeof(hash_slot_t)

  class HashMap<K(==,!new), V> {
    const keys: Keys<K>

    var table: array<Slot<K, V>>
    var fill: int
    var count: int
    var mask: nat

    ghost var bits: nat  // the table has 2^bits slots

    ghost predicate Sized()
      reads this
    {
      3 <= bits <= 27 && table.Length == Pow2(bits) == mask + 1
    }

    ghost predicate Valid()
      reads this, table
    {
      && Coherent(keys) && Sized() && TableOk(keys, table[..])
      && count == |Actives(table[..])| && fill == |Used(table[..])|
    }

    /** fill is below two thirds of the size. */
    predicate Balanced()
      reads this, table
    {
      3 * fill < 2 * table.Length
    }

    ghost function Value(x: K): Option<V>
      reads this, table
    {
      ValueOf(keys, table[..], x)
    }

    /** One step of the probe sequence. */
    method NextSlot(index0: nat, perturb0: nat, ghost hash: nat, ghost n: nat) returns (index: nat, perturb: nat, s: nat)
      requires Sized() && index0 == Index(hash, table.Length, n) && perturb0 == Perturb(hash, n)
      ensures index == Index(hash, table.Length, n + 1) && perturb == Perturb(hash, n + 1) && s == Probe(hash, table.Length, n + 1)
    {
      index := (5 * index0 + perturb0 + 1) % WORD;
      AndMask(index, bits);
      s := And(index, mask);
      perturb := Shr(perturb0, 5);
    }

    /** hash_lookup */
    method Lookup(key: K, hash: nat) returns (s: nat)
      requires Coherent(keys) && Sized() && TableOk(keys, table[..]) && |Used(table[..])| < table.Length && hash == keys.hfunc(key)
      ensures Found(keys, table[..], key, s) && (!table[s].Active? ==> FirstFree(table[..], hash, s))
    {
      ghost var t := table[..];
      ghost var size := table.Length;
      var index := And(hash, mask);
      var perturb := hash;
      AndMask(hash, bits);
      ghost var n := 0;
      ghost var end := EmptyAhead(t, bits, hash);
      ModUnique(hash % size, size, 0, hash % size);
      s := index;
      var freeslot := -1;
      while true
        invariant n <= end && index == Index(hash, size, n) && perturb == Perturb(hash, n) && s == Probe(hash, size, n)
        invariant Missed(keys, t, key, n)
        invariant freeslot == -1 || (0 <= freeslot < size && t[freeslot] == Deleted && Reachable(t, hash, freeslot) && FirstFree(t, hash, freeslot))
        invariant freeslot == -1 ==> AllActive(t, hash, n)
        decreases end - n
      {
        var slot := table[s];
        assert Path(t, hash, n);
        if freeslot == -1 && !slot.Active? { assert FreeAfter(t, hash, n, s); }
        if slot.Empty? {
          SearchEnds(keys, t, key, n);
          return if freeslot == -1 then s else freeslot;
        }
        if slot.Active? && (slot.key == key || (slot.hash == hash && keys.cmp(slot.key, key))) {
          return;
        }
        NoMatch(keys, t, s, key);
        MissedOne(keys, t, key, n);
        if slot.Deleted? && freeslot == -1 {
          freeslot := s;
        }
        index, perturb, s := NextSlot(index, perturb, hash, n);
        n := n + 1;
      }
    }

    /** hash_initialize: alloc tells whether memory can be had; a table that does not fit
        in the address space never can. */
    method Initialize(size: nat, ghost k: nat, alloc: bool) returns (r: int)
      requires size == Pow2(k) && 3 <= k <= 28
      modifies this
      ensures r == if alloc && size * SLOT_BYTES < WORD then 0 else -1
      ensures r == -1 ==> table == old(table) && fill == old(fill) && count == old(count) && mask == old(mask) && bits == old(bits)
      ensures r == 0 ==> fresh(table) && Sized() && bits == k && fill == 0 && count == 0
                         && forall s :: 0 <= s < table.Length ==> table[s] == Empty
    {
      if !alloc || size * SLOT_BYTES >= WORD {
        return -1;
      }
      BelowLimit(k);
      fill, count, mask := 0, 0, size - 1;
      table := new Slot<K, V>[size](_ => Empty);
      bits := k;
      return 0;
    }

    /** hash_copy: the pairs of the old table go into the new one. */
    method Copy(old_: array<Slot<K, V>>, oldSize: nat)
      requires Coherent(keys) && Sized() && old_ != table && oldSize == old_.Length && TableOk(keys, old_[..])
      requires fill == count == 0 && (forall s :: 0 <= s < table.Length ==> table[s] == Empty)
      requires |Actives(old_[..])| < table.Length
      modifies this`fill, this`count, table
      ensures Copied(keys, old_[..], old_.Length, table[..]) && fill == count == |Actives(table[..])|
    {
      ghost var o := old_[..];
      CopyStart(keys, o, table[..]);
      var i := 0;
      while i < oldSize
        invariant 0 <= i <= oldSize && old_[..] == o
        invariant Copied(keys, o, i, table[..]) && fill == count == |Actives(table[..])|
      {
        var slot := old_[i];
        if slot.Active? {
          CopyRoom(keys, o, i, table[..]);
          var hash := keys.hfunc(slot.key);
          var s := Lookup(slot.key, hash);
          ghost var t := table[..];
          CopyStep(keys, o, i, t, s);
          table[s] := Active(slot.key, slot.value, slot.hash);
          assert table[..] == t[s := Active(slot.key, slot.value, slot.hash)];
          fill := fill + 1;
          count := count + 1;
        } else {
          CopySkip(keys, o, i, table[..]);
        }
        i := i + 1;
      }
    }

    /** hash_update: grow if two thirds full, shrink if at most a quarter holds pairs. */
    method Update(alloc: bool) returns (r: int)
      requires Valid()
      modifies this
      ensures Valid() && (table == old(table) || fresh(table)) && count == old(count) && fill <= old(fill)
      ensures r == if Enough(old(fill), old(count), old(table).Length, alloc) then 0 else -1
      ensures r == 0 ==> Balanced()
      ensures r == -1 ==> table == old(table) && fill == old(fill)
      ensures Resized(old(fill), old(count), old(table).Length, alloc, r, table.Length, fill)
      ensures forall x :: Value(x) == old(Value(x))
    {
      var oldSize := mask + 1;
      var newSize := oldSize;
      ghost var k := bits;
      SizeBounds(bits);
      CountBounds(table[..]);
      if 3 * fill >= 2 * oldSize {
        newSize := newSize * 2;
        k := bits + 1;
        if newSize < oldSize {
          return -1;
        }
      } else if oldSize > HASH_MINSIZE && 4 * count <= oldSize {
        newSize := newSize / 2;
        k := bits - 1;
      } else {
        return 0;
      }
      r := Resize(newSize, k, alloc);
    }

    /** A new table of the given size, with the same pairs. */
    method Resize(newSize: nat, ghost k: nat, alloc: bool) returns (r: int)
      requires Valid() && newSize == Pow2(k) && 3 <= k <= 28 && 3 * count < 2 * newSize
      modifies this
      ensures Valid() && (table == old(table) || fresh(table)) && count == old(count) && fill <= old(fill)
      ensures r == if alloc && newSize * SLOT_BYTES < WORD then 0 else -1
      ensures r == 0 ==> Balanced() && table.Length == newSize && fill == count
      ensures r == -1 ==> table == old(table) && fill == old(fill)
      ensures forall x :: Value(x) == old(Value(x))
    {
      CountBounds(table[..]);
      var oldTable, oldSize := table, mask + 1;
      ghost var o := oldTable[..];
      r := Initialize(newSize, k, alloc);
      if r == -1 {
        return;
      }
      Copy(oldTable, oldSize);
      assert o[..oldSize] == o;
      assert forall x :: ValueOf(keys, o, x) == old(Value(x));
    }

    /** hash_init */
    constructor (keys: Keys<K>)
      requires Coherent(keys)
      ensures Valid() && fresh(table) && Balanced() && this.keys == keys && count == 0
      ensures forall x :: Value(x) == None
    {
      this.keys := keys;
      fill, count, mask := 0, 0, HASH_MINSIZE - 1;
      bits := 3;
      var t := new Slot<K, V>[HASH_MINSIZE](_ => Empty);
      table := t;
      new;
      Powers();
      Fresh(keys, table[..]);
    }

    /** hash_isset */
    method IsSet(key: K) returns (r: bool)
      requires Valid() && fill < table.Length
      ensures r <==> Value(key).Some?
    {
      var s := Lookup(key, keys.hfunc(key));
      r := table[s].Active?;
      if r { ValueAt(keys, table[..], s, key); }
    }

    /** hash_get */
    method Get(key: K, default: V) returns (v: V)
      requires Valid() && fill < table.Length
      ensures v == match Value(key) case Some(w) => w case None => default
    {
      var s := Lookup(key, keys.hfunc(key));
      if table[s].Active? {
        ValueAt(keys, table[..], s, key);
        return table[s].value;
      }
      return default;
    }

    /** Stores a pair in the slot found for its key, where there was none. */
    method Insert(s: nat, key: K, value: V, hash: nat)
      requires Valid() && Found(keys, table[..], key, s) && !table[s].Active? && hash == keys.hfunc(key)
      modifies this`fill, this`count, table
      ensures Valid() && table == old(table) && count == old(count) + 1
      ensures fill == old(fill) + if old(table[s]).Empty? then 1 else 0
      ensures forall x :: Value(x) == if keys.cmp(key, x) then Some(value) else old(Value(x))
    {
      ghost var t := table[..];
      SetEffect(keys, t, s, key, value);
      StoreCounts(t, s, Active(key, value, hash));
      count := count + 1;
      if table[s].Empty? {
        fill := fill + 1;
      }
      table[s] := Active(key, value, hash);
      assert table[..] == t[s := Active(key, value, hash)];
    }

    /** Replaces the value of the pair in slot s. */
    method Overwrite(s: nat, key: K, value: V)
      requires Valid() && At(keys, table[..], s, key)
      modifies table
      ensures Valid()
      ensures forall x :: Value(x) == if keys.cmp(key, x) then Some(value) else old(Value(x))
    {
      ghost var t := table[..];
      SetEffect(keys, t, s, key, value);
      StoreCounts(t, s, t[s].(value := value));
      table[s] := table[s].(value := value);
      assert table[..] == t[s := t[s].(value := value)];
    }

    /** Removes the pair in slot s. */
    method Remove(s: nat, key: K)
      requires Valid() && At(keys, table[..], s, key)
      modifies this`count, table
      ensures Valid() && table == old(table) && count == old(count) - 1
      ensures forall x :: Value(x) == if keys.cmp(key, x) then None else old(Value(x))
    {
      ghost var t := table[..];
      DelEffect(keys, t, s, key);
      StoreCounts(t, s, Deleted);
      table[s] := Deleted;
      assert table[..] == t[s := Deleted];
      count := count - 1;
    }

    /** hash_set: the pair is stored even if the table could not be resized. */
    method Set(key: K, value: V, alloc: bool) returns (r: int)
      requires Valid() && fill < table.Length
      modifies this, table
      ensures Valid() && (table == old(table) || fresh(table)) && fill <= old(fill) + 1
      ensures forall x :: Value(x) == if keys.cmp(key, x) then Some(value) else old(Value(x))
      ensures count == old(count) + if old(Value(key)).Some? then 0 else 1
      ensures r == 0 || r == -1
      ensures r == 0 && old(Balanced()) ==> Balanced()
      ensures r == -1 ==> !Enough(fill, count, table.Length, alloc)
      ensures alloc && 2 * SLOT_BYTES * old(table.Length) < WORD ==> r == 0
      ensures if old(Value(key)).Some? then r == 0 && table == old(table) && fill == old(fill)
              else Resized(old(fill) + (if old(Reuses(table[..], keys.hfunc(key))) then 0 else 1), old(count) + 1,
                           old(table).Length, alloc, r, table.Length, fill)
    {
      var hash := keys.hfunc(key);
      var s := Lookup(key, hash);
      if table[s].Active? {
        ValueAt(keys, table[..], s, key);
        Overwrite(s, key, value);
        return 0;
      }
      ReuseTells(table[..], hash, s);
      Insert(s, key, value, hash);
      r := Update(alloc);
    }

    /** hash_del */
    method Del(key: K, alloc: bool) returns (r: int)
      requires Valid() && fill < table.Length
      modifies this, table
      ensures Valid() && (table == old(table) || fresh(table)) && fill <= old(fill)
      ensures forall x :: Value(x) == if keys.cmp(key, x) then None else old(Value(x))
      ensures count == old(count) - if old(Value(key)).Some? then 1 else 0
      ensures r == 0 || r == -1
      ensures r == 0 && old(Balanced()) ==> Balanced()
      ensures r == -1 ==> !Enough(fill, count, table.Length, alloc)
      ensures alloc && 2 * SLOT_BYTES * old(table.Length) < WORD ==> r == 0
      ensures if old(Value(key)).None? then r == 0 && table == old(table) && table[..] == old(table[..]) && fill == old(fill)
              else Resized(old(fill), old(count) - 1, old(table).Length, alloc, r, table.Length, fill)
    {
      var s := Lookup(key, keys.hfunc(key));
      if !table[s].Active? {
        NoneEqual(keys, table[..], key);
        return 0;
      }
      ValueAt(keys, table[..], s, key);
      Remove(s, key);
      r := Update(alloc);
    }
  }

  /** All slots that the first n probes look at hold pairs. */
  ghost predicate AllActive<K, V>(t: seq<Slot<K, V>>, hash: nat, n: nat) {
    |t| > 0 && forall m: nat {:trigger Probe(hash, |t|, m)} :: m < n ==> t[Probe(hash, |t|, m)].Active?
  }

  lemma ReuseTells<K, V>(t: seq<Slot<K, V>>, hash: nat, s: nat)
    requires FirstFree(t, hash, s)
    ensures Reuses(t, hash) <==> t[s] == Deleted
  {
    if Reuses(t, hash) {
      var r: nat :| FirstFree(t, hash, r) && t[r] == Deleted;
      OneFree(t, hash, s, r);
    }
  }

  lemma SetEffect<K(!new), V>(f: Keys<K>, t: seq<Slot<K, V>>, s: nat, key: K, v: V)
    requires Coherent(f) && TableOk(f, t) && Found(f, t, key, s)
    ensures var t' := t[s := Pair(f, t, s, key, v)];
            TableOk(f, t') && forall x :: ValueOf(f, t', x) == if f.cmp(key, x) then Some(v) else ValueOf(f, t, x)
  {
    var t' := t[s := Pair(f, t, s, key, v)];
    SetKeeps(f, t, s, key, v);
    forall x ensures ValueOf(f, t', x) == if f.cmp(key, x) then Some(v) else ValueOf(f, t, x) {
      SetLaw(f, t, s, key, v, x);
    }
  }

  lemma DelEffect<K(!new), V>(f: Keys<K>, t: seq<Slot<K, V>>, s: nat, key: K)
    requires Coherent(f) && TableOk(f, t) && At(f, t, s, key)
    ensures var t' := t[s := Deleted];
            TableOk(f, t') && forall x :: ValueOf(f, t', x) == if f.cmp(key, x) then None else ValueOf(f, t, x)
  {
    var t' := t[s := Deleted];
    DelKeeps(f, t, s);
    forall x ensures ValueOf(f, t', x) == if f.cmp(key, x) then None else ValueOf(f, t, x) {
      DelLaw(f, t, s, key, x);
    }
  }

  /** The size hash_update wants. */
  function NewSize(fill: int, count: int, size: nat): nat {
    if 3 * fill >= 2 * size then 2 * size
    else if size > HASH_MINSIZE && 4 * count <= size then size / 2
    else size
  }

  /** What hash_update made of a table: its result, the new size, and how many slots are used. */
  predicate Resized(fill: int, count: int, size: nat, alloc: bool, r: int, size': nat, fill': int) {
    var n := NewSize(fill, count, size);
    if !Enough(fill, count, size, alloc) then r == -1 && size' == size && fill' == fill
    else r == 0 && size' == n && fill' == if n == size then fill else count
  }

  /** hash_update succeeds: no resize is due, or memory can be had for it. */
  predicate Enough(fill: int, count: int, size: nat, alloc: bool) {
    var n := NewSize(fill, count, size);
    n == size || (alloc && n * SLOT_BYTES < WORD)
  }

  lemma SizeBounds(k: nat)
    requires 3 <= k <= 27
    ensures HASH_MINSIZE <= Pow2(k) && Pow2(k + 1) == 2 * Pow2(k) && 3 * Pow2(k) < 0x8000_0000
    ensures Pow2(k) > HASH_MINSIZE ==> k > 3 && Pow2(k - 1) == Pow2(k) / 2
  {
    Powers();
    PowMono(3, k);
    PowMono(k, 27);
    assert Pow2(31) == 16 * Pow2(27) by { PowAdd(27, 4); assert Pow2(4) == 16; }
  }

  /** After i slots: the new table answers as those slots of the old one, and has nothing deleted. */
  ghost predicate Copied<K(!new), V>(f: Keys<K>, o: seq<Slot<K, V>>, i: nat, t: seq<Slot<K, V>>)
    requires i <= |o|
  {
    && TableOk(f, t) && |Used(t)| == |Actives(t)| == |Actives(o[..i])|
    && forall x {:trigger ValueOf(f, t, x)} :: ValueOf(f, t, x) == ValueOf(f, o[..i], x)
  }

  lemma CopyStart<K(!new), V>(f: Keys<K>, o: seq<Slot<K, V>>, t: seq<Slot<K, V>>)
    requires forall s :: 0 <= s < |t| ==> t[s] == Empty
    ensures Copied(f, o, 0, t) && |Actives(t)| == 0
  {
    Fresh(f, t);
    Fresh(f, o[..0]);
  }

  lemma CopyRoom<K(!new), V>(f: Keys<K>, o: seq<Slot<K, V>>, i: nat, t: seq<Slot<K, V>>)
    requires i < |o| && Copied(f, o, i, t) && |Actives(o)| < |t|
    ensures |Used(t)| < |t|
  {
    SubsetSize(Actives(o[..i]), Actives(o));
  }

  /** The slot found for the next key is empty, and takes its pair. */
  lemma CopyStep<K(!new), V>(f: Keys<K>, o: seq<Slot<K, V>>, i: nat, t: seq<Slot<K, V>>, s: nat)
    requires Coherent(f) && TableOk(f, o) && i < |o| && o[i].Active? && Copied(f, o, i, t) && Found(f, t, o[i].key, s)
    ensures t[s] == Empty && Copied(f, o, i + 1, t[s := o[i]]) && |Actives(t[s := o[i]])| == |Actives(t)| + 1
  {
    var key, v := o[i].key, o[i].value;
    assert SlotOk(f, o, i);
    PrefixAbsent(f, o, i);
    assert ValueOf(f, t, key) == None;
    ValueNone(f, t, key);
    SubsetSize(Actives(t), Used(t));
    assert t[s] != Empty ==> s in Used(t) && s in Actives(t);
    assert Pair(f, t, s, key, v) == o[i];
    SetKeeps(f, t, s, key, v);
    StoreCounts(t, s, o[i]);
    ActivesOfPrefix(o, i);
    var t' := t[s := o[i]];
    forall x ensures ValueOf(f, t', x) == ValueOf(f, o[..i + 1], x) {
      SetLaw(f, t, s, key, v, x);
      PrefixLaw(f, o, i, x);
    }
  }

  lemma CopySkip<K(!new), V>(f: Keys<K>, o: seq<Slot<K, V>>, i: nat, t: seq<Slot<K, V>>)
    requires Coherent(f) && TableOk(f, o) && i < |o| && !o[i].Active? && Copied(f, o, i, t)
    ensures Copied(f, o, i + 1, t)
  {
    ActivesOfPrefix(o, i);
    forall x ensures ValueOf(f, t, x) == ValueOf(f, o[..i + 1], x) {
      PrefixLaw(f, o, i, x);
    }
  }

  /** Keys equal to an absent one are absent. */
  lemma NoneEqual<K(!new), V>(f: Keys<K>, t: seq<Slot<K, V>>, key: K)
    requires Coherent(f) && ValueOf(f, t, key) == None
    ensures forall x :: f.cmp(key, x) ==> ValueOf(f, t, x) == None
  {
    ValueNone(f, t, key);
    forall x, s: nat | f.cmp(key, x) ensures !At(f, t, s, x) {
      assert f.cmp(x, key) && !At(f, t, s, key);
    }
  }

  /** A slot that fails the test of hash_lookup does not hold the key. */
  lemma NoMatch<K(!new), V>(f: Keys<K>, t: seq<Slot<K, V>>, s: nat, key: K)
    requires Coherent(f) && TableOk(f, t) && s < |t|
    requires t[s].Active? ==> t[s].hash != f.hfunc(key) || !f.cmp(t[s].key, key)
    ensures !At(f, t, s, key)
  {
    assert SlotOk(f, t, s);
  }

  lemma BelowLimit(k: nat)
    requires 16 * Pow2(k) < WORD
    ensures k < 28
  {
    Powers();
    assert Pow2(4) == 16;
    PowAdd(4, k);
    if k >= 28 { PowMono(32, k + 4); }
  }

  // --------------------------------------------------------- whole runs

  datatype Op<K, V> = Put(key: K, value: V) | Drop(key: K)

  /** The answer a plain map gives for x: the last operation on a key equal to x decides. */
  function Latest<K, V>(f: Keys<K>, ops: seq<Op<K, V>>, x: K): Option<V> {
    if ops == [] then None else
      var op := ops[|ops| - 1];
      if f.cmp(op.key, x) then (if op.Put? then Some(op.value) else None)
      else Latest(f, ops[..|ops| - 1], x)
  }

  lemma LatestOne<K(!new), V>(f: Keys<K>, ops: seq<Op<K, V>>, i: nat)
    requires i < |ops|
    ensures forall x :: Latest(f, ops[..i + 1], x) ==
              if !f.cmp(ops[i].key, x) then Latest(f, ops[..i], x) else if ops[i].Put? then Some(ops[i].value) else None
  {
    assert ops[..i + 1][..i] == ops[..i];
  }

  method Perform<K(==,!new), V>(m: HashMap<K, V>, op: Op<K, V>, alloc: bool) returns (r: int)
    requires m.Valid() && m.Balanced()
    modifies m, m.table
    ensures m.Valid() && (m.table == old(m.table) || fresh(m.table))
    ensures forall x :: m.Value(x) == if !m.keys.cmp(op.key, x) then old(m.Value(x)) else if op.Put? then Some(op.value) else None
    ensures if r == 0 then m.Balanced() else !Enough(m.fill, m.count, m.table.Length, alloc)
  {
    match op {
      case Put(key, value) => r := m.Set(key, value, alloc);
      case Drop(key) => r := m.Del(key, alloc);
    }
  }

  /** Any sequence of operations, up to the first that finds no memory: the table answers like
      a plain map, and the load stays below two thirds unless memory ran out. */
  method Run<K(==,!new), V>(keys: Keys<K>, ops: seq<Op<K, V>>, allocs: seq<bool>) returns (m: HashMap<K, V>, done: nat, r: int)
    requires Coherent(keys) && |allocs| == |ops|
    ensures fresh(m) && m.keys == keys && m.Valid() && done <= |ops|
    ensures forall x :: m.Value(x) == Latest(keys, ops[..done], x)
    ensures r == 0 ==> done == |ops| && m.Balanced()
    ensures r != 0 ==> done > 0 && !Enough(m.fill, m.count, m.table.Length, allocs[done - 1])
  {
    m := new HashMap(keys);
    done, r := 0, 0;
    while done < |ops| && r == 0
      invariant fresh(m) && fresh(m.table) && m.keys == keys && m.Valid() && done <= |ops|
      invariant r == 0 ==> m.Balanced()
      invariant r != 0 ==> done > 0 && !Enough(m.fill, m.count, m.table.Length, allocs[done - 1])
      invariant forall x :: m.Value(x) == Latest(keys, ops[..done], x)
      decreases |ops| - done
    {
      LatestOne(keys, ops, done);
      r := Perform(m, ops[done], allocs[done]);
      done := done + 1;
    }
  }
}
