/**
 The table of an open hash: records probed with an odd stride over a power-of-two size, some of them
 tombstones.  Where the entries are, and that a walk always meets an empty record.
 */
module OhashTable {
  import opened Arithmetic
  import opened Probing

  type Key = seq<nat>

  /** A record's key is stored at the end of the caller's object. */
  datatype Entry = Entry(key: Key, data: int)

  datatype Ref = Null | Deleted | To(e: Entry)

  datatype Record = Record(hv: nat, p: Ref)

  const MINBITS := 4

  function Stride(hv: nat, n: nat): (d: nat)
    requires n > 2
    ensures d % 2 == 1 && d < n
  {
    (hv % (n - 2)) / 2 * 2 + 1
  }

  /** The slot of probe `k` for a hash value. */
  function At(hv: nat, n: nat, k: nat): (i: nat)
    requires n > 2
    ensures i < n
  {
    Slot(hv % n, Stride(hv, n), k, n)
  }

  lemma AtNext(hv: nat, n: nat, k: nat)
    requires n > 2
    ensures var i := At(hv, n, k) + Stride(hv, n); At(hv, n, k + 1) == if i >= n then i - n else i
    ensures At(hv, n, 0) == hv % n
  {
    SlotNext(hv % n, Stride(hv, n), k, n);
    SlotZero(hv % n, Stride(hv, n), n);
  }

  /** The stride is odd and the size a power of two, so a walk comes by every slot. */
  lemma AtReaches(hv: nat, bits: nat, i: nat) returns (k: nat)
    requires bits >= 2 && i < Pow2(bits)
    ensures Pow2(bits) > 2 && At(hv, Pow2(bits), k) == i
  {
    Pow2Monotone(2, bits);
    assert Pow2(2) == 4;
    var inverse := InvertibleOdd(Stride(hv, Pow2(bits)), bits);
    k := WalkReaches(hv % Pow2(bits), Stride(hv, Pow2(bits)), inverse, Pow2(bits), i);
  }

  // ----- the entries -----

  /** The walk for `hv` comes to probe `k` over records that are not empty. */
  ghost predicate Walk(t: seq<Record>, hv: nat, k: nat)
    requires |t| > 2
  {
    forall j :: 0 <= j < k ==> t[At(hv, |t|, j)].p != Null
  }

  ghost predicate Reaches(t: seq<Record>, hv: nat, i: nat)
    requires |t| > 2
  {
    exists k: nat :: At(hv, |t|, k) == i && Walk(t, hv, k)
  }

  /** Every entry lies where the walk for its key comes by. */
  ghost predicate Placed(hash: Key -> nat, t: seq<Record>)
    requires |t| > 2
  {
    forall i :: 0 <= i < |t| && t[i].p.To? ==> t[i].hv == hash(t[i].p.e.key) && Reaches(t, t[i].hv, i)
  }

  ghost predicate OneEach(t: seq<Record>) {
    forall i, j :: 0 <= i < j < |t| && t[i].p.To? && t[j].p.To? ==> t[i].p.e.key != t[j].p.e.key
  }

  /** The table holds exactly the entries of the map. */
  ghost predicate Represents(t: seq<Record>, m: map<Key, Entry>) {
    && (forall i :: 0 <= i < |t| && t[i].p.To? ==> t[i].p.e.key in m && m[t[i].p.e.key] == t[i].p.e)
    && (forall key :: key in m ==> Holds(t, key, m[key]))
  }

  ghost predicate Holds(t: seq<Record>, key: Key, e: Entry) {
    e.key == key && exists i :: 0 <= i < |t| && t[i].p == To(e)
  }

  function Full(t: seq<Record>): set<nat> {
    set i: nat | i < |t| && t[i].p != Null
  }

  function Tombs(t: seq<Record>): set<nat> {
    set i: nat | i < |t| && t[i].p == Deleted
  }

  function Live(t: seq<Record>): set<nat> {
    set i: nat | i < |t| && t[i].p.To?
  }

  lemma {:induction false} Upto(n: nat) returns (s: set<nat>)
    ensures |s| == n && forall i: nat :: i in s <==> i < n
  {
    if n == 0 {
      s := {};
    } else {
      var r := Upto(n - 1);
      s := r + {n - 1};
    }
  }

  lemma {:induction false} SubsetSize(a: set<nat>, b: set<nat>)
    requires a <= b
    ensures |a| <= |b|
  {
    if a != {} {
      var x :| x in a;
      SubsetSize(a - {x}, b - {x});
    }
  }

  /** As long as fewer records are full than there are, one is empty. */
  lemma EmptyRecord(t: seq<Record>) returns (i: nat)
    requires |Full(t)| < |t|
    ensures i < |t| && t[i].p == Null
  {
    var s := Upto(|t|);
    if s <= Full(t) {
      SubsetSize(s, Full(t));
    }
    i :| i in s && i !in Full(t);
  }

  lemma Partition(t: seq<Record>)
    ensures |Full(t)| == |Live(t)| + |Tombs(t)| && |Full(t)| <= |t|
  {
    assert Full(t) == Live(t) + Tombs(t) && Live(t) * Tombs(t) == {};
    var s := Upto(|t|);
    SubsetSize(Full(t), s);
  }

  // ----- changing one record -----

  /** Only which records are empty matters to a walk. */
  lemma SameNulls(t: seq<Record>, t': seq<Record>, hv: nat, i: nat)
    requires |t| == |t'| > 2 && Reaches(t, hv, i)
    requires forall j :: 0 <= j < |t| && t[j].p != Null ==> t'[j].p != Null
    ensures Reaches(t', hv, i)
  {
    var k: nat :| At(hv, |t|, k) == i && Walk(t, hv, k);
    assert Walk(t', hv, k);
  }

  /** An entry put on a record its walk comes by. */
  lemma PlaceEntry(hash: Key -> nat, t: seq<Record>, i: nat, e: Entry, m: map<Key, Entry>)
    requires |t| > 2 && Placed(hash, t) && OneEach(t) && Represents(t, m) && i < |t| && !t[i].p.To?
    requires t[i].hv == hash(e.key) && Reaches(t, hash(e.key), i) && e.key !in m
    ensures var t' := t[i := Record(t[i].hv, To(e))];
            Placed(hash, t') && OneEach(t') && Represents(t', m[e.key := e])
  {
    hide Reaches;
    var t', m' := t[i := Record(t[i].hv, To(e))], m[e.key := e];
    forall j | 0 <= j < |t'| && t'[j].p.To? ensures t'[j].hv == hash(t'[j].p.e.key) && Reaches(t', t'[j].hv, j) {
      SameNulls(t, t', t'[j].hv, j);
    }
    forall key | key in m' ensures Holds(t', key, m'[key]) {
      if key == e.key {
        assert t'[i].p == To(e);
      } else {
        assert Holds(t, key, m[key]);
        var j :| 0 <= j < |t| && t[j].p == To(m[key]);
        assert t'[j].p == To(m[key]);
      }
    }
  }

  /** An entry turned into a tombstone. */
  lemma BuryEntry(hash: Key -> nat, t: seq<Record>, i: nat, m: map<Key, Entry>)
    requires |t| > 2 && Placed(hash, t) && OneEach(t) && Represents(t, m) && i < |t| && t[i].p.To?
    ensures var t' := t[i := Record(t[i].hv, Deleted)];
            Placed(hash, t') && OneEach(t') && Represents(t', m - {t[i].p.e.key})
  {
    hide Reaches;
    var t', m' := t[i := Record(t[i].hv, Deleted)], m - {t[i].p.e.key};
    forall j | 0 <= j < |t'| && t'[j].p.To? ensures t'[j].hv == hash(t'[j].p.e.key) && Reaches(t', t'[j].hv, j) {
      SameNulls(t, t', t'[j].hv, j);
    }
    forall key | key in m' ensures Holds(t', key, m'[key]) {
      assert Holds(t, key, m[key]);
      var j :| 0 <= j < |t| && t[j].p == To(m[key]);
      assert t'[j].p == To(m[key]);
    }
  }

  /** An entry moved to a tombstone earlier on its walk. */
  lemma MoveEntry(hash: Key -> nat, t: seq<Record>, empty: nat, i: nat, m: map<Key, Entry>)
    requires |t| > 2 && Placed(hash, t) && OneEach(t) && Represents(t, m)
    requires i < |t| && t[i].p.To? && empty < |t| && t[empty].p == Deleted && Reaches(t, t[i].hv, empty)
    ensures var t' := t[empty := t[i]][i := Record(t[i].hv, Deleted)];
            Placed(hash, t') && OneEach(t') && Represents(t', m)
  {
    hide Reaches;
    var t' := t[empty := t[i]][i := Record(t[i].hv, Deleted)];
    forall j | 0 <= j < |t'| && t'[j].p.To? ensures t'[j].hv == hash(t'[j].p.e.key) && Reaches(t', t'[j].hv, j) {
      SameNulls(t, t', t'[j].hv, j);
    }
    forall key | key in m ensures Holds(t', key, m[key]) {
      assert Holds(t, key, m[key]);
      var j :| 0 <= j < |t| && t[j].p == To(m[key]);
      assert t'[if j == i then empty else j].p == To(m[key]);
    }
  }

  /** The hash value written into a record without an entry changes nothing. */
  lemma MarkRecord(hash: Key -> nat, t: seq<Record>, i: nat, hv: nat, m: map<Key, Entry>)
    requires |t| > 2 && Placed(hash, t) && OneEach(t) && Represents(t, m) && i < |t| && !t[i].p.To?
    ensures var t' := t[i := Record(hv, t[i].p)];
            Placed(hash, t') && OneEach(t') && Represents(t', m) && Full(t') == Full(t) && Tombs(t') == Tombs(t)
  {
    hide Reaches;
    var t' := t[i := Record(hv, t[i].p)];
    forall j | 0 <= j < |t'| && t'[j].p.To? ensures t'[j].hv == hash(t'[j].p.e.key) && Reaches(t', t'[j].hv, j) {
      SameNulls(t, t', t'[j].hv, j);
    }
    forall key | key in m ensures Holds(t', key, m[key]) {
      assert Holds(t, key, m[key]);
      var j :| 0 <= j < |t| && t[j].p == To(m[key]);
      assert t'[j].p == To(m[key]);
    }
  }

  /** A walk that has come to an empty record without meeting the key: the key is not there. */
  lemma AbsentKey(hash: Key -> nat, t: seq<Record>, m: map<Key, Entry>, key: Key, k: nat)
    requires |t| > 2 && Placed(hash, t) && Represents(t, m)
    requires t[At(hash(key), |t|, k)].p == Null
    requires forall j: nat :: j < k ==> var p := t[At(hash(key), |t|, j)].p; !(p.To? && p.e.key == key)
    ensures key !in m
  {
    forall present | present in m ensures present != key {
      assert Holds(t, present, m[present]);
      var i :| 0 <= i < |t| && t[i].p == To(m[present]);
      var k': nat :| At(hash(present), |t|, k') == i && Walk(t, hash(present), k');
    }
  }

  // ----- counting -----

  /** As many entries as keys. */
  lemma {:induction false} LiveCount(t: seq<Record>, s: set<nat>, m: map<Key, Entry>)
    requires OneEach(t) && s <= Live(t)
    requires forall i :: i in s ==> t[i].p.e.key in m
    requires forall key :: key in m ==> exists i :: i in s && t[i].p.e.key == key
    ensures |s| == |m|
  {
    if s == {} {
      assert m == map[];
    } else {
      var x :| x in s;
      var key := t[x].p.e.key;
      var m' := m - {key};
      assert |m'| == |m| - 1 by { assert m'.Keys == m.Keys - {key}; }
      forall i | i in s - {x} ensures t[i].p.e.key in m' {
        assert if i < x then t[i].p.e.key != t[x].p.e.key else t[x].p.e.key != t[i].p.e.key;
      }
      forall k | k in m' ensures exists i :: i in s - {x} && t[i].p.e.key == k {
        var i :| i in s && t[i].p.e.key == k;
        assert i in s - {x};
      }
      LiveCount(t, s - {x}, m');
    }
  }

  lemma EntryCount(t: seq<Record>, m: map<Key, Entry>)
    requires OneEach(t) && Represents(t, m)
    ensures |Live(t)| == |m|
  {
    forall key | key in m ensures exists i :: i in Live(t) && t[i].p.e.key == key {
      assert Holds(t, key, m[key]);
      var i :| 0 <= i < |t| && t[i].p == To(m[key]);
      assert i in Live(t);
    }
    LiveCount(t, Live(t), m);
  }
}
