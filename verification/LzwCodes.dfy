/**
 The LZW dictionary seen from both ends: a table of (prefix code, byte) pairs, the text a code
 stands for, one step of the decoder over codes, and the relation that keeps the encoder's and the
 decoder's dictionaries in step.
 */
module LzwCodes {

  type byte = x: int | 0 <= x < 256

  const CLEAR := 256
  const FIRST := 257

  datatype Option<+T> = None | Some(value: T)

  datatype Entry = Entry(prefix: nat, suffix: byte)

  /** Entry `k` of the table is code `first + k`; it extends a byte or an earlier entry. */
  predicate WellFormed(table: seq<Entry>, first: nat) {
    forall k :: 0 <= k < |table| ==> table[k].prefix < 256 || first <= table[k].prefix < first + k
  }

  predicate Known(table: seq<Entry>, first: nat, code: nat) {
    code < 256 || first <= code < first + |table|
  }

  /** The text a code stands for. */
  function Expand(table: seq<Entry>, first: nat, code: nat): (text: seq<byte>)
    requires 256 <= first && WellFormed(table, first) && Known(table, first, code)
    ensures 1 <= |text|
    decreases code
  {
    if code < 256 then [code]
    else Expand(table, first, table[code - first].prefix) + [table[code - first].suffix]
  }

  /** A code's text is at most one byte longer than the table: the decoder's stack never overflows. */
  lemma {:induction false} ExpandLength(table: seq<Entry>, first: nat, code: nat)
    requires 256 <= first && WellFormed(table, first) && Known(table, first, code)
    ensures |Expand(table, first, code)| <= if code < 256 then 1 else code - first + 2
    decreases code
  {
    if code >= 256 {
      ExpandLength(table, first, table[code - first].prefix);
    }
  }

  /** Growing the table leaves the meaning of the old codes alone. */
  lemma {:induction false} ExpandGrow(table: seq<Entry>, first: nat, e: Entry, code: nat)
    requires 256 <= first && WellFormed(table, first) && Known(table, first, code)
    requires WellFormed(table + [e], first)
    ensures Expand(table + [e], first, code) == Expand(table, first, code)
    decreases code
  {
    if code >= 256 {
      ExpandGrow(table, first, e, table[code - first].prefix);
    }
  }

  /** What the decoder remembers between codes; `prev` is -1 before the first code and after CLEAR. */
  datatype Dec = Dec(table: seq<Entry>, prev: int, fin: byte)

  ghost predicate DecValid(d: Dec, first: nat, limit: nat) {
    && (first == 256 || first == FIRST)
    && WellFormed(d.table, first)
    && first + |d.table| <= limit
    && (d.prev == -1 || (0 <= d.prev && Known(d.table, first, d.prev)))
    && (d.prev != -1 ==> d.fin == Expand(d.table, first, d.prev)[0])
    && (d.prev == -1 ==> d.table == [])
  }

  const START := Dec([], -1, 0)

  /**
   One code through the decoder's loop: CLEAR empties the table; a code the table does not hold yet
   must be the very next one and then stands for the previous text followed by its own first byte;
   `None` is a bad stream.
   */
  function DecStep(d: Dec, first: nat, limit: nat, code: nat): (r: Option<(Dec, seq<byte>)>)
    requires DecValid(d, first, limit) && code < limit
    ensures r.Some? ==> DecValid(r.value.0, first, limit)
  {
    if code == CLEAR && first == FIRST then
      Some((Dec([], -1, d.fin), []))
    else if code >= first + |d.table| && (code > first + |d.table| || d.prev == -1) then
      None
    else
      var text := if code < first + |d.table| then Expand(d.table, first, code)
                  else Expand(d.table, first, d.prev) + [d.fin];
      if d.prev != -1 && first + |d.table| < limit then
        var t := d.table + [Entry(d.prev, text[0])];
        assert WellFormed(t, first);
        StepKeepsHead(d, first, limit, code);
        Some((Dec(t, code, text[0]), text))
      else
        Some((Dec(d.table, code, text[0]), text))
  }

  lemma StepKeepsHead(d: Dec, first: nat, limit: nat, code: nat)
    requires DecValid(d, first, limit) && code < limit
    requires !(code == CLEAR && first == FIRST)
    requires d.prev != -1 && code <= first + |d.table| && first + |d.table| < limit
    ensures var text := if code < first + |d.table| then Expand(d.table, first, code)
                        else Expand(d.table, first, d.prev) + [d.fin];
            var t := d.table + [Entry(d.prev, text[0])];
            WellFormed(t, first) && Known(t, first, code) && Expand(t, first, code) == text
  {
    var text := if code < first + |d.table| then Expand(d.table, first, code)
                else Expand(d.table, first, d.prev) + [d.fin];
    var e := Entry(d.prev, text[0]);
    assert WellFormed(d.table + [e], first);
    if code < first + |d.table| {
      ExpandGrow(d.table, first, e, code);
    } else {
      ExpandGrow(d.table, first, e, d.prev);
      assert text[0] == d.fin;
    }
  }

  ghost predicate Below(codes: seq<nat>, limit: nat) {
    forall k :: 0 <= k < |codes| ==> codes[k] < limit
  }

  /** The decoder after a whole list of codes: its state and all it wrote, `None` on a bad stream. */
  function DecRun(first: nat, limit: nat, codes: seq<nat>): (r: Option<(Dec, seq<byte>)>)
    requires (first == 256 || first == FIRST) && first <= limit && Below(codes, limit)
    ensures r.Some? ==> DecValid(r.value.0, first, limit)
  {
    if codes == [] then Some((START, []))
    else
      var p := DecRun(first, limit, codes[..|codes| - 1]);
      if p.None? then None
      else
        var q := DecStep(p.value.0, first, limit, codes[|codes| - 1]);
        if q.None? then None else Some((q.value.0, p.value.1 + q.value.1))
  }

  /**
   The lockstep of the two ends.  `table` and `ent` are the encoder's dictionary and the code of its
   pending text; the decoder has seen every code emitted so far.  Its table is the encoder's without
   the newest entry until the table is full, and that entry is known but for its last byte, which is
   the first byte of the pending text.
   */
  ghost predicate Lockstep(table: seq<Entry>, ent: nat, d: Dec, limit: nat) {
    && DecValid(d, FIRST, limit)
    && WellFormed(table, FIRST) && Known(table, FIRST, ent)
    && FIRST + |table| <= limit
    && (d.prev == -1 ==> table == [])
    && (d.prev != -1 && FIRST + |d.table| < limit ==>
          table == d.table + [Entry(d.prev, Expand(table, FIRST, ent)[0])])
    && (d.prev != -1 && FIRST + |d.table| == limit ==> table == d.table)
  }

  lemma KnownCode(table: seq<Entry>, ent: nat, d: Dec, limit: nat)
    requires Lockstep(table, ent, d, limit)
    ensures ent < limit && ent != CLEAR
  {
  }

  /** The decoder reads the pending text of the emitted code, whichever of its two branches it takes. */
  lemma EmitDecodes(table: seq<Entry>, ent: nat, d: Dec, limit: nat)
    requires Lockstep(table, ent, d, limit)
    ensures ent < limit && ent != CLEAR
    ensures var r := DecStep(d, FIRST, limit, ent);
            r.Some? && r.value.1 == Expand(table, FIRST, ent) && r.value.0.prev == ent
            && r.value.0.table == table
  {
    KnownCode(table, ent, d, limit);
    if d.prev != -1 && FIRST + |d.table| < limit {
      var head := Expand(table, FIRST, ent)[0];
      var e := Entry(d.prev, head);
      assert table == d.table + [e];
      ExpandGrow(d.table, FIRST, e, d.prev);
      if ent < FIRST + |d.table| {
        ExpandGrow(d.table, FIRST, e, ent);
      } else {
        assert Expand(table, FIRST, ent) == Expand(table, FIRST, d.prev) + [head];
        assert head == d.fin;
      }
    }
  }

  /** Emitting the pending code, adding the new entry while there is room, and starting over at `c`. */
  lemma EmitKeepsLockstep(table: seq<Entry>, ent: nat, d: Dec, limit: nat, c: byte)
    requires Lockstep(table, ent, d, limit)
    ensures ent < limit
    ensures var r := DecStep(d, FIRST, limit, ent);
            r.Some? &&
            Lockstep(if FIRST + |table| < limit then table + [Entry(ent, c)] else table, c, r.value.0, limit)
  {
    EmitDecodes(table, ent, d, limit);
    var t := if FIRST + |table| < limit then table + [Entry(ent, c)] else table;
    assert Expand(t, FIRST, c) == [c];
  }

  /** Following an existing entry only makes the pending text longer. */
  lemma ExtendKeepsLockstep(table: seq<Entry>, ent: nat, d: Dec, limit: nat, c: byte, k: nat)
    requires Lockstep(table, ent, d, limit)
    requires k < |table| && table[k] == Entry(ent, c)
    ensures Lockstep(table, FIRST + k, d, limit)
    ensures Expand(table, FIRST, FIRST + k) == Expand(table, FIRST, ent) + [c]
  {
    assert Expand(table, FIRST, FIRST + k) == Expand(table, FIRST, ent) + [c];
  }

  /** A CLEAR resets both ends to the empty dictionary. */
  lemma ClearKeepsLockstep(d: Dec, limit: nat, c: byte)
    requires DecValid(d, FIRST, limit) && CLEAR < limit
    ensures var r := DecStep(d, FIRST, limit, CLEAR);
            r.Some? && r.value.1 == [] && Lockstep([], c, r.value.0, limit)
  {
    assert Expand([], FIRST, c) == [c];
  }
}
