/**
 Codes as bits.  `PutCode` is the packer's insertion into its 16-byte buffer and `GetAt` the reader's
 extraction; `Lay` says, from the list of codes alone, where in the file each code sits and how wide
 it is, although nothing in the stream marks a change of width.
 */
module LzwPacking {
  import opened Arithmetic
  import opened LzwCodes

  const BITS := 16
  const INIT_BITS := 9

  /** A fresh buffer. */
  function Zeros(): (r: seq<byte>)
    ensures |r| == BITS && forall k :: 0 <= k < BITS ==> r[k] == 0
  {
    seq(BITS, _ => 0)
  }

  /** Insert `n` bits of `code` at bit `off`: the bits below stay, those above in the last byte go. */
  function PutCode(buf: seq<byte>, off: nat, n: nat, code: nat): (r: seq<byte>)
    requires |buf| == BITS && 9 <= n <= BITS && off <= 7 * n
    ensures |r| == BITS
  {
    var b, s := off / 8, off % 8;
    var rest := Shr(code, 8 - s);
    FirstByteFits(buf[b], code, s);
    var r := buf[b := Low(buf[b], s) + Shl(Low(code, 8 - s), s)];
    if n + s > 16 then r[b + 1 := rest % 256][b + 2 := rest / 256 % 256]
    else r[b + 1 := rest % 256]
  }

  lemma FirstByteFits(x: byte, code: nat, s: nat)
    requires s < 8
    ensures Low(x, s) + Shl(Low(code, 8 - s), s) < 256
  {
    JoinBelow(Low(x, s), Low(code, 8 - s), s, 8 - s);
    assert Pow2(8) == 256;
  }

  /** Read `n` bits at bit `off` of the block that starts at byte `base`. */
  function GetAt(f: seq<byte>, base: nat, off: nat, n: nat): (code: nat)
    requires 9 <= n <= BITS && base + (off + n + 7) / 8 <= |f|
  {
    var b, s := base + off / 8, off % 8;
    Shr(f[b], s) +
    if n + s > 16 then Shl(f[b + 1], 8 - s) + Shl(Low(f[b + 2], n + s - 16), 16 - s)
    else Shl(Low(f[b + 1], n + s - 8), 8 - s)
  }

  /** Reading looks at no byte outside the code's own. */
  lemma GetAtFrame(f: seq<byte>, base: nat, g: seq<byte>, base': nat, off: nat, n: nat)
    requires 9 <= n <= BITS
    requires base + (off + n + 7) / 8 <= |f| && base' + (off + n + 7) / 8 <= |g|
    requires f[base..base + (off + n + 7) / 8] == g[base'..base' + (off + n + 7) / 8]
    ensures GetAt(f, base, off, n) == GetAt(g, base', off, n)
  {
    var b := off / 8;
    var x, y := f[base..base + (off + n + 7) / 8], g[base'..base' + (off + n + 7) / 8];
    assert x[b] == f[base + b] && y[b] == g[base' + b];
    assert x[b + 1] == f[base + b + 1] && y[b + 1] == g[base' + b + 1];
    if n + off % 8 > 16 {
      assert x[b + 2] == f[base + b + 2] && y[b + 2] == g[base' + b + 2];
    }
  }

  /** What is put is what is got. */
  lemma PutGet(buf: seq<byte>, off: nat, n: nat, code: nat)
    requires |buf| == BITS && 9 <= n <= BITS && off <= 7 * n && code < Pow2(n)
    ensures GetAt(PutCode(buf, off, n, code), 0, off, n) == code
  {
    hide Shl, Shr, Low, Pow2;
    var b, s := off / 8, off % 8;
    FirstByteFits(buf[b], code, s);
    BytesRejoin(buf[b], n, s, code);
  }

  /** The bytes `PutCode` writes, read back as `GetAt` reads them. */
  lemma BytesRejoin(x: byte, n: nat, s: nat, code: nat)
    requires 9 <= n <= BITS && s < 8 && code < Pow2(n)
    ensures var rest := Shr(code, 8 - s);
            code == Shr(Low(x, s) + Shl(Low(code, 8 - s), s), s) +
              if n + s > 16 then Shl(rest % 256, 8 - s) + Shl(Low(rest / 256 % 256, n + s - 16), 16 - s)
              else Shl(Low(rest % 256, n + s - 8), 8 - s)
  {
    hide Shl, Shr, Low, Pow2;
    var rest := Shr(code, 8 - s);
    Join(Low(x, s), Low(code, 8 - s), s);
    ShrLow(code, 8 - s);
    ShrBelow(code, 8 - s, n + s - 8);
    if n + s > 16 {
      TwoBytesRejoin(rest, n + s - 8, 8 - s);
    } else {
      OneByteRejoins(rest, n + s - 8);
    }
  }

  lemma OneByteRejoins(rest: nat, bits: nat)
    requires bits <= 8 && rest < Pow2(bits)
    ensures Low(rest % 256, bits) == rest
  {
    Pow2Monotone(bits, 8);
    assert Pow2(8) == 256;
    LowBelow(rest, bits);
  }

  lemma TwoBytesRejoin(rest: nat, bits: nat, k: nat)
    requires 8 < bits < 16 && rest < Pow2(bits)
    ensures Shl(rest % 256, k) + Shl(Low(rest / 256 % 256, bits - 8), 8 + k) == Shl(rest, k)
  {
    hide Shl, Shr, Low;
    var c := Shr(rest, 8);
    ByteShift(rest);
    ShrBelow(rest, 8, bits - 8);
    OneByteRejoins(c, bits - 8);
    ShrLow(rest, 8);
    ShlShl(c, 8, k);
    ShlAdd(Low(rest, 8), Shl(c, 8), k);
  }

  /** Putting a code leaves every earlier code of the block readable. */
  lemma PutKeeps(buf: seq<byte>, off: nat, n: nat, code: nat, off': nat)
    requires |buf| == BITS && 9 <= n <= BITS && off <= 7 * n && off' + n <= off
    ensures GetAt(PutCode(buf, off, n, code), 0, off', n) == GetAt(buf, 0, off', n)
  {
    var b, s := off / 8, off % 8;
    FirstByteFits(buf[b], code, s);
    var r := PutCode(buf, off, n, code);
    var b', s' := off' / 8, off' % 8;
    assert r[..b] == buf[..b];
    assert r[b'] == buf[b'] && (b' + 1 < b ==> r[b' + 1] == buf[b' + 1]);
    if n + s' > 16 {
      assert r[b' + 1] == buf[b' + 1];
      if b' + 2 == b {
        LowOfJoin(buf[b], Low(code, 8 - s), s, n + s' - 16);
      }
    } else if b' + 1 == b {
      LowOfJoin(buf[b], Low(code, 8 - s), s, n + s' - 8);
    }
  }

  // ----- where the codes are -----

  /**
   The place of a code: its width, the block it is in and its number there, and the value `free_ent`
   has when the width is reconsidered after it.
   */
  datatype Lay = Lay(free: nat, nbits: nat, maxcode: nat, base: nat, slot: nat) {
    function Off(): nat { slot * nbits }
  }

  function NextMaxcode(nbits: nat, mb: nat): nat {
    if nbits == mb then Pow2(mb) else Pow2(nbits) - 1
  }

  ghost predicate WidthOk(nbits: nat, maxcode: nat, mb: nat) {
    && 9 <= mb <= BITS && 9 <= nbits <= BITS
    && (|| (nbits == mb && maxcode == Pow2(mb))
        || (maxcode == Pow2(nbits) - 1 && (nbits < mb || (mb == 9 && nbits <= 10))))
  }

  /** The place of the code that follows `code`. */
  function LayStep(l: Lay, code: nat, mb: nat): Lay {
    if code == CLEAR then
      Lay(FIRST, INIT_BITS, Pow2(INIT_BITS) - 1, l.base + l.nbits, 0)
    else
      var free := if l.free < Pow2(mb) then l.free + 1 else l.free;
      if l.free > l.maxcode then
        Lay(free, l.nbits + 1, NextMaxcode(l.nbits + 1, mb), l.base + l.nbits, 0)
      else if l.slot == 7 then
        Lay(free, l.nbits, l.maxcode, l.base + l.nbits, 0)
      else
        Lay(free, l.nbits, l.maxcode, l.base, l.slot + 1)
  }

  /** The place of the code after the list `codes`. */
  function LayOf(codes: seq<nat>, mb: nat): Lay {
    if codes == [] then Lay(FIRST, INIT_BITS, Pow2(INIT_BITS) - 1, 3, 0)
    else LayStep(LayOf(codes[..|codes| - 1], mb), codes[|codes| - 1], mb)
  }

  lemma LayOfAppend(codes: seq<nat>, code: nat, mb: nat)
    ensures LayOf(codes + [code], mb) == LayStep(LayOf(codes, mb), code, mb)
  {
    assert (codes + [code])[..|codes|] == codes;
  }

  ghost predicate LayOk(l: Lay, mb: nat) {
    && WidthOk(l.nbits, l.maxcode, mb)
    && FIRST <= l.free <= Pow2(mb) && l.slot <= 7
    && l.free <= Pow2(l.nbits)
  }

  lemma WidthGrows(nbits: nat, maxcode: nat, free: nat, mb: nat)
    requires WidthOk(nbits, maxcode, mb) && free <= Pow2(mb)
    ensures free > maxcode ==> nbits < BITS && WidthOk(nbits + 1, NextMaxcode(nbits + 1, mb), mb)
  {
    Pow2Values();
  }

  lemma StartLayOk(mb: nat)
    requires 9 <= mb <= BITS
    ensures LayOk(LayOf([], mb), mb)
  {
    Pow2Values();
    Pow2Monotone(9, mb);
    assert LayOf([], mb) == Lay(FIRST, 9, 511, 3, 0);
  }

  lemma LayStepOk(l: Lay, code: nat, mb: nat)
    requires LayOk(l, mb)
    ensures LayOk(LayStep(l, code, mb), mb)
  {
    Pow2Values();
    StartLayOk(mb);
    WidthGrows(l.nbits, l.maxcode, l.free, mb);
    if l.free > l.maxcode {
      assert Pow2(l.nbits + 1) == 2 * Pow2(l.nbits);
    }
  }

  lemma {:induction false} LayOfOk(codes: seq<nat>, mb: nat)
    requires 9 <= mb <= BITS
    ensures LayOk(LayOf(codes, mb), mb)
    ensures LayOf(codes, mb).base >= 3
  {
    if codes == [] {
      StartLayOk(mb);
    } else {
      LayOfOk(codes[..|codes| - 1], mb);
      LayStepOk(LayOf(codes[..|codes| - 1], mb), codes[|codes| - 1], mb);
    }
  }

  /** An earlier code sits in an earlier block, or earlier in the same block. */
  lemma {:induction false} LayOrder(codes: seq<nat>, i: nat, mb: nat)
    requires i < |codes|
    ensures var l, m := LayOf(codes[..i], mb), LayOf(codes, mb);
            || l.base + l.nbits <= m.base
            || (l.base == m.base && l.nbits == m.nbits && l.slot < m.slot)
  {
    hide Pow2;
    var n := |codes| - 1;
    if i < n {
      LayOrder(codes[..n], i, mb);
      assert codes[..n][..i] == codes[..i];
    }
  }

  // ----- a file that holds a list of codes -----

  ghost predicate HoldsAt(f: seq<byte>, l: Lay, code: nat) {
    && 9 <= l.nbits <= BITS
    && l.base + (l.Off() + l.nbits + 7) / 8 <= |f|
    && GetAt(f, l.base, l.Off(), l.nbits) == code
  }

  /** Every code can be read at its own place. */
  ghost predicate Holds(f: seq<byte>, codes: seq<nat>, mb: nat) {
    forall i :: 0 <= i < |codes| ==> HoldsAt(f, LayOf(codes[..i], mb), codes[i])
  }

  lemma SlicesAgree(f: seq<byte>, g: seq<byte>, a: nat, b: nat, n: nat)
    requires a <= b <= n <= |f| && n <= |g| && f[..n] == g[..n]
    ensures f[a..b] == g[a..b]
  {
    assert f[a..b] == f[..n][a..b] && g[a..b] == g[..n][a..b];
  }

  lemma HoldsAtFrame(f: seq<byte>, g: seq<byte>, l: Lay, code: nat, n: nat)
    requires HoldsAt(f, l, code)
    requires l.base + (l.Off() + l.nbits + 7) / 8 <= n <= |f| && n <= |g| && f[..n] == g[..n]
    ensures HoldsAt(g, l, code)
  {
    hide GetAt, Lay.Off;
    var m := l.base + (l.Off() + l.nbits + 7) / 8;
    SlicesAgree(f, g, l.base, m, n);
    GetAtFrame(f, l.base, g, l.base, l.Off(), l.nbits);
  }

  /** The packer: what has reached the file, the buffer being filled, and the width in force. */
  datatype Packer = Packer(out: seq<byte>, buf: seq<byte>, off: nat, nbits: nat, maxcode: nat, bytesOut: nat)

  ghost predicate PackerOk(pk: Packer, mb: nat) {
    && |pk.buf| == BITS && WidthOk(pk.nbits, pk.maxcode, mb)
    && pk.off % pk.nbits == 0 && pk.off < 8 * pk.nbits
    && pk.bytesOut > 0
  }

  lemma NextOff(off: nat, n: nat)
    requires n > 0 && off % n == 0 && off < 8 * n
    ensures off <= 7 * n && (off + n) % n == 0
    ensures off + n == 8 * n || off + n < 8 * n
  {
    var q := off / n;
    assert off == q * n;
    assert q <= 7 by { DivBound(off, n, 8); }
    assert (7 - q) * n >= 0;
    ModAddMultiple(off, 1, n);
  }

  /** Append the buffer's first `n` bytes to the file. */
  function Flush(pk: Packer): Packer
    requires pk.nbits <= |pk.buf|
  {
    pk.(out := pk.out + pk.buf[..pk.nbits], bytesOut := pk.bytesOut + pk.nbits, off := 0)
  }

  /** Insert one code; write the buffer when it holds eight. */
  function Insert(pk: Packer, code: nat, mb: nat): (r: Packer)
    requires PackerOk(pk, mb)
    ensures PackerOk(r, mb)
  {
    NextOff(pk.off, pk.nbits);
    var p := pk.(buf := PutCode(pk.buf, pk.off, pk.nbits, code), off := pk.off + pk.nbits);
    if p.off == 8 * p.nbits then Flush(p) else p
  }

  /** Output one code, then widen or reset the width, padding the block out when that happens. */
  function Output(pk: Packer, code: nat, free: nat, clear: bool, mb: nat): (r: Packer)
    requires PackerOk(pk, mb) && free <= Pow2(mb)
    ensures PackerOk(r, mb)
  {
    var p := Insert(pk, code, mb);
    if free > p.maxcode || clear then
      WidthGrows(p.nbits, p.maxcode, free, mb);
      Pow2Values();
      var q := if p.off > 0 then Flush(p) else p;
      if clear then q.(nbits := INIT_BITS, maxcode := Pow2(INIT_BITS) - 1)
      else q.(nbits := q.nbits + 1, maxcode := NextMaxcode(q.nbits + 1, mb))
    else p
  }

  /** The rest of the buffer goes out at the end. */
  function CloseOut(pk: Packer, mb: nat): seq<byte>
    requires PackerOk(pk, mb)
  {
    if pk.off > 0 then pk.out + pk.buf[..(pk.off + 7) / 8] else pk.out
  }

  /** The packer is where the list of codes says it must be, and all of them can be read back. */
  ghost predicate Packed(pk: Packer, codes: seq<nat>, mb: nat) {
    var l := LayOf(codes, mb);
    && PackerOk(pk, mb)
    && pk.nbits == l.nbits && pk.maxcode == l.maxcode && pk.off == l.Off() && |pk.out| == l.base
    && Holds(pk.out + pk.buf, codes, mb)
  }

  lemma SlotOff(slot: nat, n: nat)
    requires slot <= 7 && n > 0
    ensures (slot * n + n == 8 * n <==> slot == 7) && slot * n + n <= 8 * n
    ensures (slot + 1) * n == slot * n + n && (slot * n == 0 <==> slot == 0)
  {
    assert (7 - slot) * n >= 0;
    if slot < 7 {
      assert (6 - slot) * n >= 0;
    }
    if slot > 0 {
      assert (slot - 1) * n >= 0;
    }
  }

  lemma SlotBefore(a: nat, b: nat, n: nat)
    requires a < b
    ensures a * n + n <= b * n
  {
    assert (b - 1 - a) * n >= 0;
    assert (b - 1 - a) * n == b * n - n - a * n;
  }

  /** A code of an earlier block does not notice the buffer. */
  lemma OlderBlockHolds(out: seq<byte>, buf: seq<byte>, buf': seq<byte>, m: Lay, code: nat)
    requires HoldsAt(out + buf, m, code) && |buf| == |buf'|
    requires m.base + (m.Off() + m.nbits + 7) / 8 <= |out|
    ensures HoldsAt(out + buf', m, code)
  {
    assert (out + buf)[..|out|] == out && (out + buf')[..|out|] == out;
    HoldsAtFrame(out + buf, out + buf', m, code, |out|);
  }

  /** A code of the buffer itself, with its file position and its buffer position. */
  lemma InBuffer(out: seq<byte>, buf: seq<byte>, m: Lay, code: nat)
    requires m.base == |out| && 9 <= m.nbits <= BITS && (m.Off() + m.nbits + 7) / 8 <= |buf|
    ensures HoldsAt(out + buf, m, code) <==> GetAt(buf, 0, m.Off(), m.nbits) == code
  {
    var k := (m.Off() + m.nbits + 7) / 8;
    assert (out + buf)[m.base..m.base + k] == buf[0..0 + k];
    GetAtFrame(out + buf, m.base, buf, 0, m.Off(), m.nbits);
  }

  lemma SameBlockHolds(pk: Packer, m: Lay, earlier: nat, slot: nat, code: nat)
    requires |pk.buf| == BITS && 9 <= pk.nbits <= BITS && slot <= 7 && pk.off == slot * pk.nbits
    requires pk.off <= 7 * pk.nbits
    requires m.base == |pk.out| && m.nbits == pk.nbits && m.slot < slot
    requires HoldsAt(pk.out + pk.buf, m, earlier)
    ensures HoldsAt(pk.out + PutCode(pk.buf, pk.off, pk.nbits, code), m, earlier)
  {
    SlotBefore(m.slot, slot, pk.nbits);
    InBuffer(pk.out, pk.buf, m, earlier);
    PutKeeps(pk.buf, pk.off, pk.nbits, code, m.Off());
    InBuffer(pk.out, PutCode(pk.buf, pk.off, pk.nbits, code), m, earlier);
  }

  lemma NewHolds(pk: Packer, l: Lay, code: nat)
    requires |pk.buf| == BITS && 9 <= pk.nbits <= BITS && pk.off == l.Off()
    requires pk.off <= 7 * pk.nbits
    requires l.base == |pk.out| && l.nbits == pk.nbits && code < Pow2(pk.nbits)
    ensures HoldsAt(pk.out + PutCode(pk.buf, pk.off, pk.nbits, code), l, code)
  {
    PutGet(pk.buf, pk.off, pk.nbits, code);
    InBuffer(pk.out, PutCode(pk.buf, pk.off, pk.nbits, code), l, code);
  }

  lemma BytesOfSlot(m: Lay)
    requires m.slot <= 7 && m.nbits > 0
    ensures (m.Off() + m.nbits + 7) / 8 <= m.nbits
  {
    SlotOff(m.slot, m.nbits);
  }

  /** Inserting a code into the buffer: the old ones stay, the new one is there. */
  lemma InsertHolds(pk: Packer, codes: seq<nat>, code: nat, mb: nat)
    requires Packed(pk, codes, mb) && code < Pow2(pk.nbits)
    ensures pk.off <= 7 * pk.nbits
    ensures Holds(pk.out + PutCode(pk.buf, pk.off, pk.nbits, code), codes + [code], mb)
  {
    var l := LayOf(codes, mb);
    LayOfOk(codes, mb);
    SlotOff(l.slot, pk.nbits);
    var buf' := PutCode(pk.buf, pk.off, pk.nbits, code);
    var all := codes + [code];
    forall i | 0 <= i < |all| ensures HoldsAt(pk.out + buf', LayOf(all[..i], mb), all[i]) {
      if i < |codes| {
        assert all[..i] == codes[..i];
        var m := LayOf(codes[..i], mb);
        assert HoldsAt(pk.out + pk.buf, m, codes[i]);
        LayOrder(codes, i, mb);
        if m.base + m.nbits <= l.base {
          LayOfOk(codes[..i], mb);
          BytesOfSlot(m);
          OlderBlockHolds(pk.out, pk.buf, buf', m, codes[i]);
        } else {
          SameBlockHolds(pk, m, codes[i], l.slot, code);
        }
      } else {
        assert all[..i] == codes;
        NewHolds(pk, l, code);
      }
    }
  }

  /** Flushing duplicates the buffer after its written copy: every code is still in its place. */
  lemma FlushHolds(pk: Packer, codes: seq<nat>, mb: nat)
    requires |pk.buf| == BITS && 9 <= pk.nbits <= BITS && 9 <= mb <= BITS
    requires Holds(pk.out + pk.buf, codes, mb)
    requires codes != [] ==> var m := LayOf(codes[..|codes| - 1], mb); m.base <= |pk.out| && m.base + m.nbits <= |pk.out| + pk.nbits
    ensures Holds(Flush(pk).out + pk.buf, codes, mb)
  {
    var f, g, n := pk.out + pk.buf, Flush(pk).out + pk.buf, |pk.out| + pk.nbits;
    assert f[..n] == g[..n];
    forall i | 0 <= i < |codes| ensures HoldsAt(g, LayOf(codes[..i], mb), codes[i]) {
      var m := LayOf(codes[..i], mb);
      assert HoldsAt(f, m, codes[i]);
      LayOfOk(codes[..i], mb);
      BytesOfSlot(m);
      var last := codes[..|codes| - 1];
      if i < |last| {
        LayOrder(last, i, mb);
        assert last[..i] == codes[..i];
      } else {
        assert codes[..i] == last;
      }
      HoldsAtFrame(f, g, m, codes[i], n);
    }
  }

  /** The packer's registers move as the layout says. */
  lemma OutputFollowsLay(pk: Packer, l: Lay, code: nat, free: nat, clear: bool, mb: nat)
    requires PackerOk(pk, mb) && LayOk(l, mb) && free <= Pow2(mb)
    requires pk.nbits == l.nbits && pk.maxcode == l.maxcode && pk.off == l.Off() && |pk.out| == l.base
    requires clear <==> code == CLEAR
    requires !clear ==> free == l.free
    ensures pk.off <= 7 * pk.nbits
    ensures var r, m := Output(pk, code, free, clear, mb), LayStep(l, code, mb);
            r.nbits == m.nbits && r.maxcode == m.maxcode && r.off == m.Off() && |r.out| == m.base
  {
    hide PutCode, Pow2;
    SlotOff(l.slot, l.nbits);
  }

  lemma OutputFile(pk: Packer, code: nat, free: nat, clear: bool, mb: nat)
    requires PackerOk(pk, mb) && free <= Pow2(mb) && pk.off <= 7 * pk.nbits
    ensures var r, buf' := Output(pk, code, free, clear, mb), PutCode(pk.buf, pk.off, pk.nbits, code);
            r.buf == buf' && (r.out == pk.out || r.out == pk.out + buf'[..pk.nbits])
  {
  }

  /** One code through the packer keeps everything: `free` and `clear` as the encoder calls it. */
  lemma OutputPacked(pk: Packer, codes: seq<nat>, code: nat, free: nat, clear: bool, mb: nat)
    requires Packed(pk, codes, mb) && code < Pow2(pk.nbits) && free <= Pow2(mb)
    requires clear <==> code == CLEAR
    requires !clear ==> free == LayOf(codes, mb).free
    ensures Packed(Output(pk, code, free, clear, mb), codes + [code], mb)
  {
    var l, all := LayOf(codes, mb), codes + [code];
    LayOfOk(codes, mb);
    LayOfAppend(codes, code, mb);
    OutputFollowsLay(pk, l, code, free, clear, mb);
    OutputFile(pk, code, free, clear, mb);
    InsertHolds(pk, codes, code, mb);
    var p := pk.(buf := PutCode(pk.buf, pk.off, pk.nbits, code));
    assert all[..|all| - 1] == codes;
    FlushHolds(p, all, mb);
  }

  /** The closed file holds every code and ends with the byte of the last one. */
  lemma CloseHolds(pk: Packer, codes: seq<nat>, mb: nat)
    requires Packed(pk, codes, mb) && codes != []
    ensures Holds(CloseOut(pk, mb), codes, mb)
    ensures |CloseOut(pk, mb)| == LayOf(codes, mb).base + (LayOf(codes, mb).Off() + 7) / 8
  {
    hide GetAt, LayOf, Pow2;
    var f, g, n := pk.out + pk.buf, CloseOut(pk, mb), |pk.out| + (pk.off + 7) / 8;
    LayOfOk(codes, mb);
    var l := LayOf(codes, mb);
    SlotOff(l.slot, l.nbits);
    assert f[..n] == g[..n];
    forall i | 0 <= i < |codes| ensures HoldsAt(g, LayOf(codes[..i], mb), codes[i]) {
      var m := LayOf(codes[..i], mb);
      assert HoldsAt(f, m, codes[i]);
      LayOfOk(codes[..i], mb);
      BytesOfSlot(m);
      LayOrder(codes, i, mb);
      if m.base == l.base && m.nbits == l.nbits {
        if m.slot < l.slot {
          SlotBefore(m.slot, l.slot, l.nbits);
        }
      }
      HoldsAtFrame(f, g, m, codes[i], n);
    }
  }
}
