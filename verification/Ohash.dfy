/**
 The open hash of libutil: lookups that move an entry to an earlier tombstone, removal, insertion and
 the resizing they trigger.  It refines a finite map from keys to entries.
 */
module Ohash {
  import opened Arithmetic
  import opened OhashTable

  const MINSIZE := 16
  const MINDELETED := 4

  /** Filling an empty record: its walk becomes longer, nobody else's shorter. */
  lemma FillEmpty(t: seq<Record>, i: nat, r: Record)
    requires i < |t| && t[i].p == Null && r.p.To?
    ensures Full(t[i := r]) == Full(t) + {i} && |Full(t[i := r])| == |Full(t)| + 1
    ensures Tombs(t[i := r]) == Tombs(t)
  {
  }

  lemma FillTomb(t: seq<Record>, i: nat, r: Record)
    requires i < |t| && t[i].p == Deleted && r.p.To?
    ensures Full(t[i := r]) == Full(t)
    ensures Tombs(t[i := r]) == Tombs(t) - {i} && |Tombs(t[i := r])| == |Tombs(t)| - 1
  {
  }

  lemma MakeTomb(t: seq<Record>, i: nat, r: Record)
    requires i < |t| && t[i].p.To? && r.p == Deleted
    ensures Full(t[i := r]) == Full(t)
    ensures Tombs(t[i := r]) == Tombs(t) + {i} && |Tombs(t[i := r])| == |Tombs(t)| + 1
  {
  }

  lemma SwapTomb(t: seq<Record>, i: nat, j: nat, r: Record, d: Record)
    requires i < |t| && t[i].p.To? && j < |t| && t[j].p == Deleted && r.p.To? && d.p == Deleted
    ensures Full(t[j := r][i := d]) == Full(t)
    ensures |Tombs(t[j := r][i := d])| == |Tombs(t)|
  {
    assert Tombs(t[j := r][i := d]) == Tombs(t) - {j} + {i};
  }

  /** What one probe of a lookup needs to know of the table. */
  ghost predicate Seen(t: seq<Record>, key: Key, hv: nat, k: nat, empty: nat)
    requires |t| > 2
  {
    && Walk(t, hv, k)
    && (forall j: nat :: j < k ==> var p := t[At(hv, |t|, j)].p; !(p.To? && p.e.key == key))
    && (empty == |t| || (empty < |t| && t[empty].p == Deleted && Reaches(t, hv, empty)))
  }

  lemma SeenMore(t: seq<Record>, key: Key, hv: nat, k: nat, empty: nat)
    requires |t| > 2 && Seen(t, key, hv, k, empty)
    requires var p := t[At(hv, |t|, k)].p; p != Null && !(p.To? && p.e.key == key)
    ensures Seen(t, key, hv, k + 1, empty)
    ensures t[At(hv, |t|, k)].p == Deleted ==> Seen(t, key, hv, k + 1, At(hv, |t|, k))
  {
    assert Reaches(t, hv, At(hv, |t|, k));
  }

  class Table {
    const hash: Key -> nat
    var t: array<Record>
    var size: nat
    var total: nat
    var deleted: nat
    ghost var bits: nat
    ghost var contents: map<Key, Entry>

    /** All but the bound on how full the table is. */
    ghost predicate Sound()
      reads this, t
    {
      && bits >= MINBITS && t.Length == size == Pow2(bits) >= MINSIZE
      && Placed(hash, t[..]) && OneEach(t[..]) && Represents(t[..], contents)
      && total == |Full(t[..])| && deleted == |Tombs(t[..])|
    }

    ghost predicate Valid()
      reads this, t
    {
      Sound() && 4 * total <= 3 * size
    }

    /** The record `ohash_insert` may put an entry with this key on: the one a lookup has come to. */
    ghost predicate Vacant(i: nat, key: Key)
      reads this, t
    {
      && t.Length > 2 && i < t.Length && !t[i].p.To? && t[i].hv == hash(key) && Reaches(t[..], hash(key), i)
      && key !in contents
    }

    constructor (hash: Key -> nat, size: nat)
      ensures Valid() && contents == map[] && fresh(t) && this.hash == hash && total == deleted == 0
      ensures this.size == if Pow2(size) < MINSIZE then MINSIZE else Pow2(size)
    {
      this.hash := hash;
      var n := Pow2(size);
      bits := size;
      assert Pow2(4) == 16;
      if n < MINSIZE {
        n := MINSIZE;
        bits := 4;
      } else {
        assert Pow2(3) == 8;
        if size < 4 {
          Pow2Monotone(size, 3);
        }
      }
      this.size := n;
      t := new Record[n](_ => Record(0, Null));
      total, deleted, contents := 0, 0, map[];
      new;
      assert Full(t[..]) == {} && Tombs(t[..]) == {};
    }

    /**
     `ohash_lookup_interval`: the record of the key, moved to the first tombstone on its walk; or else a
     record for inserting it.  Either way the map is the same.
     */
    method LookupInterval(key: Key, hv: nat) returns (i: nat)
      requires Valid() && hv == hash(key)
      modifies t
      ensures Valid() && i < size
      ensures key in contents ==> t[i].p == To(contents[key])
      ensures key !in contents ==> Vacant(i, key)
    {
      hide Placed, OneEach, Represents, Full, Tombs, Seen, Reaches, At, Stride, Pow2;
      var empty := size;
      Partition(t[..]);
      ghost var target := EmptyRecord(t[..]);
      ghost var end := AtReaches(hv, bits, target);
      ghost var k := 0;
      i := hv % size;
      var incr := (hv % (size - 2)) / 2 * 2 + 1;
      assert incr == Stride(hv, size) by { StrideIs(hv, size); }
      AtNext(hv, size, 0);
      assert Seen(t[..], key, hv, 0, size) by { SeenNothing(t[..], key, hv); }
      while t[i].p != Null
        invariant Valid() && t[..] == old(t[..])
        invariant k <= end && i == At(hv, size, k) && i < size && 0 <= empty <= size && Seen(t[..], key, hv, k, empty)
        decreases end - k
      {
        SeenEmpty(t[..], key, hv, k, empty);
        if t[i].p == Deleted {
          SeenMore(t[..], key, hv, k, empty);
          if empty == size {
            empty := i;
          }
        } else if t[i].hv == hv && t[i].p.e.key == key {
          EntryThere(t[..], contents, i);
          if empty != size {
            MoveUp(i, empty);
            return empty;
          }
          return;
        } else {
          KeyDiffers(hash, t[..], i, key);
          SeenMore(t[..], key, hv, k, empty);
        }
        AtNext(hv, size, k);
        i := i + incr;
        if i >= size {
          i := i - size;
        }
        k := k + 1;
      }
      SeenAll(hash, t[..], contents, key, k, empty);
      if empty != size {
        i := empty;
      }
      Mark(i, hv);
    }

    /** The entry on `i` goes to the tombstone `empty`, and `i` becomes one. */
    method MoveUp(i: nat, empty: nat)
      requires Valid() && i < size && t[i].p.To? && empty < size && t[empty].p == Deleted && Reaches(t[..], t[i].hv, empty)
      modifies t
      ensures Valid() && t[empty].p == old(t[i].p)
    {
      hide Placed, OneEach, Represents, Full, Tombs, Reaches, Pow2;
      ghost var was := t[..];
      MoveEntry(hash, was, empty, i, contents);
      SwapTomb(was, i, empty, was[i], Record(was[i].hv, Deleted));
      t[empty] := t[i];
      t[i] := Record(t[i].hv, Deleted);
      assert t[..] == was[empty := was[i]][i := Record(was[i].hv, Deleted)];
    }

    /** The hash value is left on the record for an insertion to come. */
    method Mark(i: nat, hv: nat)
      requires Valid() && i < size && !t[i].p.To?
      modifies t
      ensures Valid() && t[i].p == old(t[i].p) && t[i].hv == hv
      ensures forall h: nat, j: nat :: old(Reaches(t[..], h, j)) ==> Reaches(t[..], h, j)
    {
      hide Placed, OneEach, Represents, Full, Tombs, Reaches, Pow2;
      ghost var was := t[..];
      MarkRecord(hash, was, i, hv, contents);
      t[i] := Record(hv, t[i].p);
      assert t[..] == was[i := Record(hv, was[i].p)];
      forall h: nat, j: nat | Reaches(was, h, j) ensures Reaches(t[..], h, j) {
        SameNulls(was, t[..], h, j);
      }
    }

    /** `ohash_find`. */
    method Find(i: nat) returns (p: Ref)
      requires Valid() && i < size
      ensures p != Deleted && (p.To? <==> t[i].p.To?)
      ensures p.To? ==> p.e.key in contents && contents[p.e.key] == p.e
    {
      if t[i].p.To? {
        EntryThere(t[..], contents, i);
      }
      p := if t[i].p == Deleted then Null else t[i].p;
    }

    /** `ohash_entries`: as many as the map has. */
    method Entries() returns (n: nat)
      requires Valid()
      ensures n == |contents|
    {
      Partition(t[..]);
      EntryCount(t[..], contents);
      n := total - deleted;
    }

    /** `ohash_insert` on the record a lookup for its key has come to. */
    method Insert(i: nat, e: Entry)
      requires Valid() && Vacant(i, e.key)
      modifies this, t
      ensures Valid() && contents == old(contents)[e.key := e] && (t == old(t) || fresh(t))
      ensures if old(t[i].p) == Deleted then t == old(t) && size == old(size) && total == old(total) && deleted == old(deleted) - 1
              else if 4 * (old(total) + 1) > 3 * old(size) then
                fresh(t) && size == old(NextSize(size, total + 1, deleted)) && total == old(total) + 1 - old(deleted) && deleted == 0
              else t == old(t) && size == old(size) && total == old(total) + 1 && deleted == old(deleted)
    {
      hide Placed, OneEach, Represents, Full, Tombs, Reaches, Pow2;
      ghost var was := t[..];
      var r := Record(t[i].hv, To(e));
      PlaceEntry(hash, was, i, e, contents);
      contents := contents[e.key := e];
      if t[i].p == Deleted {
        FillTomb(was, i, r);
        deleted := deleted - 1;
        t[i] := r;
        assert t[..] == was[i := r];
      } else {
        FillEmpty(was, i, r);
        t[i] := r;
        assert t[..] == was[i := r];
        total := total + 1;
        if total * 4 > size * 3 {
          Resize();
        }
      }
    }

    /** `ohash_remove`: the entry on `i`, if there is one, becomes a tombstone. */
    method Remove(i: nat) returns (p: Ref)
      requires Valid() && i < size
      modifies this, t
      ensures Valid() && (t == old(t) || fresh(t))
      ensures old(t[i].p.To?) ==> p == old(t[i].p) && contents == old(contents) - {old(t[i].p.e.key)}
      ensures !old(t[i].p.To?) ==> p == Null && contents == old(contents) && t == old(t) && size == old(size) && total == old(total) && deleted == old(deleted)
      ensures old(t[i].p.To?) ==>
                if old(deleted) + 1 >= MINDELETED && 4 * (old(deleted) + 1) > old(total) then
                  fresh(t) && size == old(NextSize(size, total, deleted + 1)) && total == old(total) - old(deleted) - 1 && deleted == 0
                else t == old(t) && size == old(size) && total == old(total) && deleted == old(deleted) + 1
    {
      hide Placed, OneEach, Represents, Full, Tombs, Reaches, Pow2;
      p := t[i].p;
      if p == Null || p == Deleted {
        return Null;
      }
      ghost var was := t[..];
      var r := Record(t[i].hv, Deleted);
      BuryEntry(hash, was, i, contents);
      MakeTomb(was, i, r);
      contents := contents - {p.e.key};
      t[i] := r;
      assert t[..] == was[i := r];
      deleted := deleted + 1;
      if deleted >= MINDELETED && 4 * deleted > total {
        Resize();
      }
    }

    /** `ohash_resize`: the entries in a new table of twice, half or the same size, without tombstones. */
    method Resize()
      requires Sound() && 4 * total <= 3 * size + 4
      modifies this
      ensures Valid() && contents == old(contents) && fresh(t)
      ensures total == old(total) - old(deleted) && deleted == 0 && size == old(NextSize(size, total, deleted))
    {
      hide Placed, OneEach, Represents, Full, Tombs, Reaches, At, Stride, Pow2, Carried;
      var ns;
      ghost var nb;
      Partition(t[..]);
      ns, nb := NewSize(size, total, deleted, bits);
      var n := new Record[ns](_ => Record(0, Null));
      CarriedNone(hash, t[..], n[..]);
      var j := 0;
      while j < size
        modifies n
        invariant j <= size && Carried(hash, t[..], j, n[..])
      {
        if t[j].p != Null && t[j].p != Deleted {
          Rehash(n, nb, t[j], j);
        } else {
          CarriedSkip(hash, t[..], j, n[..]);
        }
        j := j + 1;
      }
      CarriedAll(hash, t[..], n[..], contents);
      t := n;
      size, bits := ns, nb;
      total := total - deleted;
      deleted := 0;
    }

    /** One entry put on the first empty record of its walk in the new table. */
    method Rehash(n: array<Record>, ghost nb: nat, r: Record, ghost j: nat)
      requires Sound() && n != t && nb >= 2 && n.Length == Pow2(nb) && |Live(t[..])| < n.Length
      requires j < size && r == t[j] && r.p.To? && Carried(hash, t[..], j, n[..])
      modifies n
      ensures Carried(hash, t[..], j + 1, n[..])
    {
      hide Placed, OneEach, Represents, Full, Tombs, Live, Reaches, At, Stride, Pow2, Carried;
      var ns := n.Length;
      CarriedRoom(hash, t[..], j, n[..]);
      ghost var target := EmptyRecord(n[..]);
      ghost var end := AtReaches(r.hv, nb, target);
      ghost var k := 0;
      var i := r.hv % ns;
      var incr := (r.hv % (ns - 2)) / 2 * 2 + 1;
      StrideIs(r.hv, ns);
      AtNext(r.hv, ns, 0);
      while n[i].p != Null
        invariant n[..] == old(n[..]) && k <= end && i == At(r.hv, ns, k) && i < ns && Walk(n[..], r.hv, k)
        decreases end - k
      {
        AtNext(r.hv, ns, k);
        i := i + incr;
        if i >= ns {
          i := i - ns;
        }
        k := k + 1;
      }
      ghost var was := n[..];
      assert Reaches(was, r.hv, i) by { ReachesAt(was, r.hv, k); }
      CarriedMore(hash, t[..], j, was, i);
      n[i] := r;
      assert n[..] == was[i := r];
    }
  }

  /** Twice the size when less than a quarter of what is there is tombstones, half when more than two thirds are. */
  function NextSize(size: nat, total: nat, deleted: nat): nat {
    var n := if 4 * deleted < total then size * 2 else if 3 * deleted > 2 * total then size / 2 else size;
    if n < MINSIZE then MINSIZE else n
  }

  /** The size `ohash_resize` chooses keeps a quarter of the records empty. */
  method NewSize(size: nat, total: nat, deleted: nat, ghost bits: nat) returns (ns: nat, ghost nb: nat)
    requires bits >= MINBITS && size == Pow2(bits) >= MINSIZE && deleted <= total && 4 * total <= 3 * size + 4
    ensures ns == Pow2(nb) >= MINSIZE && nb >= MINBITS && 4 * (total - deleted) <= 3 * ns
    ensures ns == NextSize(size, total, deleted)
    ensures 4 * deleted < total ==> ns == 2 * size
    ensures 4 * deleted >= total && 3 * deleted > 2 * total ==> ns == if size == 16 then 16 else size / 2
    ensures 4 * deleted >= total && 3 * deleted <= 2 * total ==> ns == size
  {
    if 4 * deleted < total {
      ns := size * 2;
      nb := bits + 1;
    } else if 3 * deleted > 2 * total {
      ns := size / 2;
      nb := bits - 1;
    } else {
      ns := size;
      nb := bits;
    }
    assert Pow2(4) == 16 && Pow2(3) == 8;
    if bits > 4 {
      Pow2Monotone(5, bits);
      assert Pow2(5) == 32;
    }
    if ns < MINSIZE {
      ns := MINSIZE;
      nb := 4;
    }
  }

  lemma ReachesAt(t: seq<Record>, hv: nat, k: nat)
    requires |t| > 2 && Walk(t, hv, k)
    ensures Reaches(t, hv, At(hv, |t|, k))
  {
  }

  /** The new table holds the entries of the first `j` records, each where its walk comes by. */
  ghost predicate Carried(hash: Key -> nat, t: seq<Record>, j: nat, n: seq<Record>)
    requires j <= |t|
  {
    && |n| > 2 && Placed(hash, n) && Tombs(n) == {} && |Full(n)| == |Live(t[..j])|
    && OneEach(n) && AllIn(t, j, n) && AllIn(n, |n|, t[..j])
  }

  ghost predicate Among(p: Ref, t: seq<Record>) {
    exists i :: 0 <= i < |t| && t[i].p == p
  }

  /** Every entry of the first `j` records is in the other table. */
  ghost predicate AllIn(t: seq<Record>, j: nat, n: seq<Record>)
    requires j <= |t|
  {
    forall i :: 0 <= i < j && t[i].p.To? ==> Among(t[i].p, n)
  }

  lemma CarriedNone(hash: Key -> nat, t: seq<Record>, n: seq<Record>)
    requires |n| > 2 && forall k :: 0 <= k < |n| ==> n[k].p == Null
    ensures Carried(hash, t, 0, n)
  {
    assert Full(n) == {} && Live(t[..0]) == {};
  }

  lemma LiveNext(t: seq<Record>, j: nat)
    requires j < |t|
    ensures t[j].p.To? ==> |Live(t[..j + 1])| == |Live(t[..j])| + 1
    ensures !t[j].p.To? ==> |Live(t[..j + 1])| == |Live(t[..j])|
    ensures |Live(t[..j])| <= |Live(t)| && t[..|t|] == t
  {
    assert Live(t[..j + 1]) == Live(t[..j]) + if t[j].p.To? then {j} else {};
    SubsetSize(Live(t[..j]), Live(t));
  }

  lemma AmongMore(p: Ref, t: seq<Record>, j: nat)
    requires j < |t|
    ensures Among(p, t[..j + 1]) <==> Among(p, t[..j]) || p == t[j].p
  {
    assert t[..j + 1] == t[..j] + [t[j]];
    if i :| 0 <= i < j && t[..j][i].p == p {
      assert t[..j + 1][i].p == p;
    }
    assert t[..j + 1][j] == t[j];
  }

  lemma AmongFilled(p: Ref, n: seq<Record>, i: nat, r: Record)
    requires i < |n| && n[i].p == Null && p.To?
    ensures Among(p, n[i := r]) <==> Among(p, n) || p == r.p
  {
    if k :| 0 <= k < |n| && n[k].p == p {
      assert n[i := r][k].p == p;
    }
    assert n[i := r][i].p == r.p;
  }

  lemma CarriedSkip(hash: Key -> nat, t: seq<Record>, j: nat, n: seq<Record>)
    requires j < |t| && !t[j].p.To? && Carried(hash, t, j, n)
    ensures Carried(hash, t, j + 1, n)
  {
    hide Placed, OneEach, Full, Live, Tombs, Among;
    LiveNext(t, j);
    forall k | 0 <= k < |n| && n[k].p.To? ensures Among(n[k].p, t[..j + 1]) {
      AmongMore(n[k].p, t, j);
    }
  }

  lemma CarriedRoom(hash: Key -> nat, t: seq<Record>, j: nat, n: seq<Record>)
    requires j < |t| && |Live(t)| < |n| && Carried(hash, t, j, n)
    ensures |Full(n)| < |n| && |n| > 2
  {
    LiveNext(t, j);
  }

  lemma CarriedMore(hash: Key -> nat, t: seq<Record>, j: nat, n: seq<Record>, i: nat)
    requires |t| > 2 && j < |t| && t[j].p.To? && Placed(hash, t) && OneEach(t) && Carried(hash, t, j, n)
    requires i < |n| && n[i].p == Null && Reaches(n, t[j].hv, i)
    ensures Carried(hash, t, j + 1, n[i := t[j]])
  {
    hide Reaches, Full, Live;
    var n' := n[i := t[j]];
    FillEmpty(n, i, t[j]);
    LiveNext(t, j);
    forall k | 0 <= k < |n'| && n'[k].p.To? ensures n'[k].hv == hash(n'[k].p.e.key) && Reaches(n', n'[k].hv, k) {
      SameNulls(n, n', n'[k].hv, k);
    }
    CarriedKeys(hash, t, j, n, i);
  }

  /** The next entry's key is not in the new table yet. */
  lemma NewKey(t: seq<Record>, j: nat, n: seq<Record>, k: nat)
    requires j < |t| && t[j].p.To? && OneEach(t) && AllIn(n, |n|, t[..j]) && k < |n| && n[k].p.To?
    ensures n[k].p.e.key != t[j].p.e.key
  {
    assert Among(n[k].p, t[..j]);
    var x :| 0 <= x < j && t[..j][x].p == n[k].p;
    assert t[x].p == n[k].p;
  }

  lemma CarriedKeys(hash: Key -> nat, t: seq<Record>, j: nat, n: seq<Record>, i: nat)
    requires j < |t| && t[j].p.To? && OneEach(t) && OneEach(n) && AllIn(t, j, n) && AllIn(n, |n|, t[..j])
    requires i < |n| && n[i].p == Null
    ensures var n' := n[i := t[j]]; OneEach(n') && AllIn(t, j + 1, n') && AllIn(n', |n'|, t[..j + 1])
  {
    hide Among;
    var n' := n[i := t[j]];
    forall k | 0 <= k < |n| && n[k].p.To? ensures n[k].p.e.key != t[j].p.e.key {
      NewKey(t, j, n, k);
    }
    forall x | 0 <= x < j + 1 && t[x].p.To? ensures Among(t[x].p, n') {
      AmongFilled(t[x].p, n, i, t[j]);
    }
    forall k | 0 <= k < |n'| && n'[k].p.To? ensures Among(n'[k].p, t[..j + 1]) {
      AmongMore(n'[k].p, t, j);
    }
  }

  lemma CarriedAll(hash: Key -> nat, t: seq<Record>, n: seq<Record>, m: map<Key, Entry>)
    requires Carried(hash, t, |t|, n) && Represents(t, m)
    ensures |n| > 2 && Placed(hash, n) && OneEach(n) && Represents(n, m)
    ensures |Full(n)| == |Live(t)| && Tombs(n) == {}
  {
    hide Placed, OneEach, Full, Live, Tombs;
    assert t[..|t|] == t;
    forall k | 0 <= k < |n| && n[k].p.To? ensures n[k].p.e.key in m && m[n[k].p.e.key] == n[k].p.e {
      assert Among(n[k].p, t);
    }
    forall key | key in m ensures OhashTable.Holds(n, key, m[key]) {
      HeldThere(t, n, key, m[key]);
    }
  }

  lemma HeldThere(t: seq<Record>, n: seq<Record>, key: Key, e: Entry)
    requires AllIn(t, |t|, n) && OhashTable.Holds(t, key, e)
    ensures OhashTable.Holds(n, key, e)
  {
    var i :| 0 <= i < |t| && t[i].p == To(e);
    assert Among(t[i].p, n);
  }

  // ----- small facts for the methods -----

  lemma StrideIs(hv: nat, n: nat)
    requires n > 2
    ensures Stride(hv, n) == (hv % (n - 2)) / 2 * 2 + 1
  {
  }

  lemma SeenNothing(t: seq<Record>, key: Key, hv: nat)
    requires |t| > 2
    ensures Seen(t, key, hv, 0, |t|)
  {
  }

  lemma SeenEmpty(t: seq<Record>, key: Key, hv: nat, k: nat, empty: nat)
    requires |t| > 2 && Seen(t, key, hv, k, empty)
    ensures empty < |t| ==> t[empty].p == Deleted && Reaches(t, hv, empty)
    ensures Reaches(t, hv, At(hv, |t|, k))
  {
  }

  lemma EntryThere(t: seq<Record>, m: map<Key, Entry>, i: nat)
    requires Represents(t, m) && i < |t| && t[i].p.To?
    ensures t[i].p.e.key in m && t[i].p == To(m[t[i].p.e.key])
  {
  }

  lemma KeyDiffers(hash: Key -> nat, t: seq<Record>, i: nat, key: Key)
    requires |t| > 2 && Placed(hash, t) && i < |t| && t[i].p.To? && !(t[i].hv == hash(key) && t[i].p.e.key == key)
    ensures t[i].p.e.key != key
  {
  }

  lemma SeenAll(hash: Key -> nat, t: seq<Record>, m: map<Key, Entry>, key: Key, k: nat, empty: nat)
    requires |t| > 2 && Placed(hash, t) && Represents(t, m) && Seen(t, key, hash(key), k, empty)
    requires t[At(hash(key), |t|, k)].p == Null
    ensures key !in m && Reaches(t, hash(key), At(hash(key), |t|, k))
    ensures empty < |t| ==> t[empty].p == Deleted && Reaches(t, hash(key), empty)
  {
    hide Placed, Represents;
    AbsentKey(hash, t, m, key, k);
  }
}
