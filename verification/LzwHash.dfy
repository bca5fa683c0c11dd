/**
 The encoder's open-addressed dictionary: an xor hash, a secondary stride relatively prime to the
 prime table size, and the invariant that makes a probe sequence a map from (prefix, byte) to code.
 */
module LzwHash {
  import opened Arithmetic
  import opened Probing
  import opened LzwCodes

  const HSIZE := 69001

  lemma HsizePrime()
    ensures Prime(HSIZE)
  {
    assert forall m :: 2 <= m < 263 ==> 69001 % m != 0;
    TrialDivision(HSIZE, 263);
  }

  /** The number a (prefix, byte) pair is stored under. */
  function Fcode(e: Entry, mb: nat): nat {
    e.prefix + Shl(e.suffix, mb)
  }

  lemma FcodeInjective(a: Entry, b: Entry, mb: nat)
    requires a.prefix < Pow2(mb) && b.prefix < Pow2(mb) && Fcode(a, mb) == Fcode(b, mb)
    ensures a == b
  {
    Join(a.prefix, a.suffix, mb);
    Join(b.prefix, b.suffix, mb);
  }

  /** The first slot tried: `(c << 8) ^ ent`, always below 65536. */
  function Home(e: Entry): (i: nat)
    requires e.prefix < 65536
    ensures i < 65536
  {
    (((e.suffix as bv16) << 8) ^ (e.prefix as bv16)) as int
  }

  /** Each probe goes back by `HSIZE - home`, or by one from slot 0: the stride forward. */
  function Stride(home: nat): (s: nat)
    requires home < HSIZE
    ensures 0 < s < HSIZE
  {
    if home == 0 then HSIZE - 1 else home
  }

  function ProbeOf(e: Entry, k: nat): (i: nat)
    requires e.prefix < 65536
    ensures i < HSIZE
  {
    Slot(Home(e), Stride(Home(e)), k, HSIZE)
  }

  lemma ProbeSequence(e: Entry, k: nat)
    requires e.prefix < 65536
    ensures ProbeOf(e, 0) == Home(e)
    ensures var i, disp := ProbeOf(e, k), if Home(e) == 0 then 1 else HSIZE - Home(e);
            ProbeOf(e, k + 1) == if i - disp < 0 then i - disp + HSIZE else i - disp
  {
    hide Slot;
    SlotZero(Home(e), Stride(Home(e)), HSIZE);
    SlotNext(Home(e), Stride(Home(e)), k, HSIZE);
  }

  lemma ProbeReaches(e: Entry, slot: nat) returns (k: nat)
    requires e.prefix < 65536 && slot < HSIZE
    ensures ProbeOf(e, k) == slot
  {
    HsizePrime();
    var inverse := InvertiblePrime(Stride(Home(e)), HSIZE);
    k := WalkReaches(Home(e), Stride(Home(e)), inverse, HSIZE, slot);
  }

  /** Where the entries are: `slots[k]` holds entry `k`, which was put there at its probe `probes[k]`. */
  datatype Places = Places(slots: seq<nat>, probes: seq<nat>)

  ghost predicate Placed(htab: seq<int>, codetab: seq<int>, e: Entry, code: nat, slot: nat, probe: nat, mb: nat)
    requires |htab| == |codetab| == HSIZE
  {
    && e.prefix < Pow2(mb) <= 65536
    && slot == ProbeOf(e, probe)
    && htab[slot] == Fcode(e, mb) && codetab[slot] == code
    && forall m :: 0 <= m < probe ==> htab[ProbeOf(e, m)] >= 0
  }

  /** The two arrays hold exactly the dictionary `table`, and every other slot is empty. */
  ghost predicate HashHolds(htab: seq<int>, codetab: seq<int>, table: seq<Entry>, at: Places, mb: nat) {
    && |htab| == |codetab| == HSIZE
    && |at.slots| == |at.probes| == |table|
    && (forall k :: 0 <= k < |table| ==> Placed(htab, codetab, table[k], FIRST + k, at.slots[k], at.probes[k], mb))
    && (forall j :: 0 <= j < HSIZE && j !in at.slots ==> htab[j] == -1)
    && (forall j, k :: 0 <= j < k < |table| ==> table[j] != table[k])
  }

  /** Fewer entries than slots: one slot is empty. */
  lemma EmptySlot(htab: seq<int>, codetab: seq<int>, table: seq<Entry>, at: Places, mb: nat) returns (j: nat)
    requires HashHolds(htab, codetab, table, at, mb) && |table| < HSIZE
    ensures j < HSIZE && htab[j] == -1
  {
    j := Missing(at.slots, HSIZE);
  }

  lemma {:induction false} Missing(s: seq<nat>, n: nat) returns (j: nat)
    requires |s| < n
    ensures j < n && j !in s
  {
    if n - 1 !in s {
      j := n - 1;
    } else {
      var i :| 0 <= i < |s| && s[i] == n - 1;
      var t := s[..i] + s[i + 1..];
      assert forall x :: x in s ==> x == n - 1 || x in t;
      j := Missing(t, n - 1);
    }
  }

  /** The entry found in a slot is the entry looked for. */
  lemma FoundIs(htab: seq<int>, codetab: seq<int>, table: seq<Entry>, at: Places, mb: nat, e: Entry, slot: nat)
    requires HashHolds(htab, codetab, table, at, mb)
    requires e.prefix < Pow2(mb) && slot < HSIZE && htab[slot] == Fcode(e, mb)
    ensures FIRST <= codetab[slot] < FIRST + |table| && table[codetab[slot] - FIRST] == e
  {
    hide Fcode, ProbeOf, Pow2;
    assert slot in at.slots;
    var k :| 0 <= k < |at.slots| && at.slots[k] == slot;
    assert Placed(htab, codetab, table[k], FIRST + k, at.slots[k], at.probes[k], mb);
    FcodeInjective(table[k], e, mb);
  }

  /** A probe sequence that meets an empty slot before the entry shows the entry is not there. */
  lemma AbsentFromProbes(htab: seq<int>, codetab: seq<int>, table: seq<Entry>, at: Places, mb: nat, e: Entry, probe: nat)
    requires HashHolds(htab, codetab, table, at, mb)
    requires e.prefix < Pow2(mb) <= 65536 && htab[ProbeOf(e, probe)] == -1
    requires forall m :: 0 <= m < probe ==> htab[ProbeOf(e, m)] != Fcode(e, mb)
    ensures e !in table
  {
    forall k | 0 <= k < |table| ensures table[k] != e {
      assert Placed(htab, codetab, table[k], FIRST + k, at.slots[k], at.probes[k], mb);
    }
  }

  /** Putting a new entry in the empty slot its probe sequence ended at. */
  lemma InsertHolds(htab: seq<int>, codetab: seq<int>, table: seq<Entry>, at: Places, mb: nat, e: Entry, probe: nat)
    requires HashHolds(htab, codetab, table, at, mb)
    requires e.prefix < Pow2(mb) <= 65536
    requires htab[ProbeOf(e, probe)] == -1
    requires e !in table && forall m :: 0 <= m < probe ==> htab[ProbeOf(e, m)] >= 0
    ensures var i := ProbeOf(e, probe);
            HashHolds(htab[i := Fcode(e, mb)], codetab[i := FIRST + |table|], table + [e],
                      Places(at.slots + [i], at.probes + [probe]), mb)
  {
    var i := ProbeOf(e, probe);
    var htab', codetab' := htab[i := Fcode(e, mb)], codetab[i := FIRST + |table|];
    var table', at' := table + [e], Places(at.slots + [i], at.probes + [probe]);
    forall k | 0 <= k < |table'|
      ensures Placed(htab', codetab', table'[k], FIRST + k, at'.slots[k], at'.probes[k], mb)
    {
      if k < |table| {
        assert Placed(htab, codetab, table[k], FIRST + k, at.slots[k], at.probes[k], mb);
      }
    }
  }

  lemma ClearedHolds(htab: seq<int>, codetab: seq<int>, mb: nat)
    requires |htab| == |codetab| == HSIZE && forall j :: 0 <= j < HSIZE ==> htab[j] == -1
    ensures HashHolds(htab, codetab, [], Places([], []), mb)
  {
  }

  lemma OnlyMinusOne(htab: seq<int>, codetab: seq<int>, table: seq<Entry>, at: Places, mb: nat, slot: nat)
    requires HashHolds(htab, codetab, table, at, mb) && slot < HSIZE && htab[slot] < 0
    ensures htab[slot] == -1
  {
    forall k | 0 <= k < |at.slots| ensures at.slots[k] != slot {
      assert Placed(htab, codetab, table[k], FIRST + k, at.slots[k], at.probes[k], mb);
    }
  }
}
