/**
 The writing half of a zopen stream as the object it is: `Write` may be called with any pieces, `Close`
 leaves in the file exactly `Compress` of all of them.
 */
module ZWriter {
  import opened Arithmetic
  import opened LzwCodes
  import opened LzwPacking
  import opened LzwHash
  import S = LzwStream

  lemma FindUnique(table: seq<Entry>, e: Entry, k: nat)
    requires k < |table| && table[k] == e
    requires forall i, j :: 0 <= i < j < |table| ==> table[i] != table[j]
    ensures S.Find(table, e) == k
  {
  }

  class Writer {
    const maxbits: nat
    var middle: bool
    var nbits: nat
    var maxcode: nat
    var freeEnt: nat
    var clearFlg: bool
    var ratio: nat
    var checkpoint: nat
    var offset: nat
    var inCount: nat
    var bytesOut: nat
    var ent: nat
    const htab: array<int>
    const codetab: array<int>
    const buf: array<byte>
    var fp: seq<byte>

    ghost var written: seq<byte>
    ghost var table: seq<Entry>
    ghost var at: Places

    ghost predicate Shape() {
      && 9 <= maxbits <= BITS
      && htab.Length == codetab.Length == HSIZE && buf.Length == BITS
      && htab != codetab && buf as object != htab && buf as object != codetab
    }

    ghost function Pk(): Packer
      reads this, buf
    {
      Packer(fp, buf[..], offset, nbits, maxcode, bytesOut)
    }

    ghost function Abs(): S.Enc
      reads this, buf
    {
      S.Enc(maxbits, table, ent, Pk(), inCount, checkpoint, ratio)
    }

    /** The hash table holds the dictionary, and the counters are right. */
    ghost predicate InStep()
      reads this, buf, htab, codetab
    {
      && Shape() && S.EncOk(Abs())
      && freeEnt == FIRST + |table| && !clearFlg
      && HashHolds(htab[..], codetab[..], table, at, maxbits)
    }

    ghost predicate Valid()
      reads this, buf, htab, codetab
    {
      && Shape()
      && (middle <==> written != [])
      && (if middle then InStep() && Abs() == S.StateAfter(written, maxbits)
          else fp == [] && forall k :: 0 <= k < BITS ==> buf[k] == 0)
    }

    constructor (bits: nat)
      requires 9 <= bits <= BITS
      ensures Valid() && written == [] && maxbits == bits
      ensures fresh(htab) && fresh(codetab) && fresh(buf)
    {
      maxbits := bits;
      middle, clearFlg := false, false;
      nbits, maxcode, freeEnt, ratio, checkpoint := 0, 0, 0, 0, S.CHECK_GAP;
      offset, inCount, bytesOut, ent := 0, 1, 0, 0;
      htab := new int[HSIZE](_ => 0);
      codetab := new int[HSIZE](_ => 0);
      buf := new byte[BITS](_ => 0);
      fp, written, table, at := [], [], [], Places([], []);
    }

    /** The masking and shifting of one code into the buffer. */
    method Insert(ocode: nat)
      requires Shape() && PackerOk(Pk(), maxbits) && offset <= 7 * nbits
      modifies buf
      ensures buf[..] == PutCode(old(buf[..]), offset, nbits, ocode)
    {
      hide Shl, Shr, Low;
      var bp, rOff, bits, o := offset / 8, offset % 8, nbits, ocode;
      FirstByteFits(buf[bp], o, rOff);
      buf[bp] := Low(buf[bp], rOff) + Shl(Low(o, 8 - rOff), rOff);
      bp := bp + 1;
      bits := bits - (8 - rOff);
      o := Shr(o, 8 - rOff);
      if bits >= 8 {
        buf[bp] := o % 256;
        bp := bp + 1;
        o := o / 256;
        bits := bits - 8;
      }
      if bits > 0 {
        buf[bp] := o % 256;
      }
    }

    /** `output` for a code: pack it, write full blocks, and change the width when it is due. */
    method Output(ocode: nat)
      requires Shape() && PackerOk(Pk(), maxbits) && freeEnt <= Pow2(maxbits)
      modifies `fp, `offset, `nbits, `maxcode, `bytesOut, `clearFlg, buf
      ensures Pk() == LzwPacking.Output(old(Pk()), ocode, freeEnt, old(clearFlg), maxbits)
      ensures !clearFlg
    {
      hide PutCode, Pow2;
      NextOff(offset, nbits);
      Insert(ocode);
      offset := offset + nbits;
      if offset == 8 * nbits {
        bytesOut := bytesOut + nbits;
        fp := fp + buf[..nbits];
        offset := 0;
      }
      if freeEnt > maxcode || clearFlg {
        if offset > 0 {
          fp := fp + buf[..nbits];
          bytesOut := bytesOut + nbits;
        }
        offset := 0;
        if clearFlg {
          nbits := INIT_BITS;
          maxcode := Pow2(nbits) - 1;
          clearFlg := false;
        } else {
          nbits := nbits + 1;
          if nbits == maxbits {
            maxcode := Pow2(maxbits);
          } else {
            maxcode := Pow2(nbits) - 1;
          }
        }
      }
    }

    /** `cl_hash`: sixteen slots at a time, then the odd ones at the front. */
    method ClHash()
      requires Shape()
      modifies htab
      ensures forall j :: 0 <= j < HSIZE ==> htab[j] == -1
    {
      var p, i: int := HSIZE, HSIZE - 16;
      while i >= 0
        invariant p == i + 16 && i >= -16
        invariant forall j :: p <= j < HSIZE ==> htab[j] == -1
      {
        forall k | 0 <= k < 16 {
          htab[p - 16 + k] := -1;
        }
        p := p - 16;
        i := i - 16;
      }
      i := i + 16;
      while i > 0
        invariant 0 <= p == i < HSIZE
        invariant forall j :: p <= j < HSIZE ==> htab[j] == -1
      {
        p := p - 1;
        htab[p] := -1;
        i := i - 1;
      }
    }

    method Rat() returns (rat: nat)
      requires bytesOut > 0
      ensures rat == S.Rate(inCount, bytesOut)
    {
      if inCount > 0x007fffff {
        rat := bytesOut / 256;
        if rat == 0 {
          rat := 0x7fffffff;
        } else {
          rat := inCount / rat;
        }
      } else {
        rat := inCount * 256 / bytesOut;
      }
    }

    /** Drop the dictionary and tell the reader. */
    method Restart()
      requires InStep() && ent < FIRST && FIRST <= Pow2(maxbits)
      modifies `freeEnt, `clearFlg, `fp, `offset, `nbits, `maxcode, `bytesOut, `table, `at, htab, buf
      ensures table == [] && freeEnt == FIRST && !clearFlg
      ensures Pk() == LzwPacking.Output(old(Pk()), CLEAR, FIRST, true, maxbits)
      ensures HashHolds(htab[..], codetab[..], table, at, maxbits)
    {
      hide LzwPacking.Output, Pow2;
      ClHash();
      table, at := [], Places([], []);
      freeEnt := FIRST;
      clearFlg := true;
      Output(CLEAR);
      ClearedHolds(htab[..], codetab[..], maxbits);
    }

    /** `cl_block`, called with the table full: keep the dictionary or start it over. */
    method ClBlock()
      requires InStep() && ent < FIRST
      modifies this, htab, buf
      ensures InStep() && Abs() == S.ClBlock(old(Abs()))
      ensures middle == old(middle) && written == old(written)
      ensures checkpoint == inCount + 10000 && inCount == old(inCount)
      ensures if old(if inCount <= 0x7fffff then (ratio + 1) * bytesOut <= 256 * inCount
                     else if bytesOut < 256 then ratio < 0x7fffffff
                     else (ratio + 1) * (bytesOut / 256) <= inCount)
              then
                && Pk() == old(Pk()) && table == old(table) && htab[..] == old(htab[..])
                && (inCount <= 0x7fffff ==> ratio * bytesOut <= 256 * inCount < (ratio + 1) * bytesOut)
                && (inCount > 0x7fffff && bytesOut < 256 ==> ratio == 0x7fffffff)
                && (inCount > 0x7fffff && bytesOut >= 256 ==>
                      ratio * (bytesOut / 256) <= inCount < (ratio + 1) * (bytesOut / 256))
              else table == [] && freeEnt == 257 && ratio == 0 && Pk() == LzwPacking.Output(old(Pk()), 256, 257, true, maxbits)
    {
      hide HashHolds, LzwPacking.Output, S.Rate;
      S.RateMeans(inCount, bytesOut, ratio);
      checkpoint := inCount + S.CHECK_GAP;
      var rat := Rat();
      if rat > ratio {
        ratio := rat;
      } else {
        ratio := 0;
        Restart();
      }
    }

    /** The probe sequence for the pending code and the next byte: a hit, or the empty slot to use. */
    method Probe(c: byte) returns (i: nat, hit: bool, ghost probe: nat)
      requires InStep() && ent < Pow2(maxbits) <= 65536 && |table| < HSIZE
      ensures i < HSIZE
      ensures hit ==> FIRST <= codetab[i] < FIRST + |table| && table[codetab[i] - FIRST] == Entry(ent, c)
      ensures !hit ==> i == ProbeOf(Entry(ent, c), probe) && htab[i] == -1 && Entry(ent, c) !in table
      ensures !hit ==> forall m :: 0 <= m < probe ==> htab[ProbeOf(Entry(ent, c), m)] >= 0
    {
      hide Shl, Pow2, Home, ProbeOf;
      ghost var e := Entry(ent, c);
      ghost var h, t := htab[..], codetab[..];
      var fcode := ent + Shl(c, maxbits);
      i := Home(Entry(ent, c));
      probe := 0;
      ghost var empty := EmptySlot(h, t, table, at, maxbits);
      ghost var last := ProbeReaches(e, empty);
      ProbeSequence(e, 0);
      var disp := if i == 0 then 1 else HSIZE - i;
      ghost var home := i;
      while htab[i] != fcode && htab[i] >= 0
        invariant i == ProbeOf(e, probe) && probe <= last
        invariant home == Home(e) && disp == if home == 0 then 1 else HSIZE - home
        invariant forall m :: 0 <= m < probe ==> htab[ProbeOf(e, m)] >= 0 && htab[ProbeOf(e, m)] != fcode
        decreases last - probe
      {
        ProbeSequence(e, probe);
        i := if i - disp < 0 then i - disp + HSIZE else i - disp;
        probe := probe + 1;
      }
      hit := htab[i] == fcode;
      if hit {
        FoundIs(h, t, table, at, maxbits, e, i);
      } else {
        OnlyMinusOne(h, t, table, at, maxbits, i);
        AbsentFromProbes(h, t, table, at, maxbits, e, probe);
      }
    }

    /** Enter the next free code for `e` in the empty slot the probe sequence ended at. */
    method Learn(e: Entry, fcode: nat, i: nat, ghost probe: nat)
      requires Shape() && HashHolds(htab[..], codetab[..], table, at, maxbits)
      requires e.prefix < Pow2(maxbits) <= 65536 && fcode == Fcode(e, maxbits) && freeEnt == FIRST + |table|
      requires i == ProbeOf(e, probe) && htab[i] == -1 && e !in table
      requires forall m :: 0 <= m < probe ==> htab[ProbeOf(e, m)] >= 0
      modifies `freeEnt, `table, `at, htab, codetab
      ensures HashHolds(htab[..], codetab[..], table, at, maxbits)
      ensures table == old(table) + [e] && freeEnt == FIRST + |table|
    {
      hide HashHolds, ProbeOf, Pow2, Fcode;
      ghost var h, t := htab[..], codetab[..];
      LzwHash.InsertHolds(h, t, table, at, maxbits, e, probe);
      codetab[i] := freeEnt;
      freeEnt := freeEnt + 1;
      htab[i] := fcode;
      table, at := table + [e], Places(at.slots + [i], at.probes + [probe]);
      assert htab[..] == h[i := fcode] && codetab[..] == t[i := FIRST + |table| - 1];
    }

    /** No entry for the pending code and `c`: emit the code and learn the entry, or look at the ratio. */
    method NoMatch(c: byte, i: nat, ghost probe: nat)
      requires InStep() && ent < Pow2(maxbits) <= 65536
      requires i == ProbeOf(Entry(ent, c), probe) && htab[i] == -1 && Entry(ent, c) !in table
      requires forall m :: 0 <= m < probe ==> htab[ProbeOf(Entry(ent, c), m)] >= 0
      modifies this, htab, codetab, buf
      ensures InStep() && middle == old(middle) && written == old(written)
      ensures var e := old(Abs());
              var emitted := e.(pk := LzwPacking.Output(e.pk, e.ent, e.Free(), false, maxbits), ent := c);
              Abs() == if e.Free() < Pow2(maxbits) then emitted.(table := e.table + [Entry(e.ent, c)])
                       else if e.inCount >= e.checkpoint then S.ClBlock(emitted)
                       else emitted
    {
      hide LzwPacking.Output, HashHolds, Pow2, S.ClBlock, Shl, ProbeOf;
      var e, fcode := Entry(ent, c), ent + Shl(c, maxbits);
      Output(ent);
      ent := c;
      if freeEnt < Pow2(maxbits) {
        Learn(e, fcode, i, probe);
      } else if inCount >= checkpoint {
        ClBlock();
      }
    }

    /** One byte of the loop in zwrite. */
    method Byte(c: byte)
      requires InStep()
      modifies this, htab, codetab, buf
      ensures InStep() && middle == old(middle) && written == old(written) + [c]
      ensures Abs() == S.Feed(old(Abs()), c)
    {
      hide LzwPacking.Output, S.ClBlock, Shl, ProbeOf, PackerOk;
      CodesBelow();
      inCount := inCount + 1;
      var i, hit, probe := Probe(c);
      if hit {
        FindUnique(table, Entry(ent, c), codetab[i] - FIRST);
        ent := codetab[i];
      } else {
        NoMatch(c, i, probe);
      }
      written := written + [c];
    }

    lemma CodesBelow()
      requires InStep()
      ensures ent < Pow2(maxbits) <= 65536 && |table| < HSIZE
    {
      Pow2Values();
      Pow2Monotone(maxbits, 16);
    }

    /** zwrite: the header before the first byte ever, then every byte. */
    method Write(data: seq<byte>) returns (num: nat)
      requires Valid()
      modifies this, htab, codetab, buf
      ensures Valid() && written == old(written) + data && num == |data|
    {
      hide InStep, S.StateAfter, S.Feed;
      num := |data|;
      if |data| == 0 {
        return;
      }
      var k := 0;
      if !middle {
        Start(data[0]);
        k := 1;
        assert written == old(written) + data[..1];
      }
      while k < |data|
        invariant Valid() && middle && k <= |data|
        invariant written == old(written) + data[..k]
      {
        ghost var before := written;
        Byte(data[k]);
        StateAfterNext(before, data[k]);
        assert data[..k + 1] == data[..k] + [data[k]];
        k := k + 1;
      }
      assert data[..k] == data;
    }

    lemma StateAfterNext(before: seq<byte>, c: byte)
      requires before != [] && 9 <= maxbits <= BITS
      ensures S.StateAfter(before + [c], maxbits) == S.Feed(S.StateAfter(before, maxbits), c)
    {
      assert (before + [c])[..|before|] == before;
    }

    /** The header, the counters, and the first byte as the pending code. */
    method Header(c: byte)
      requires Shape() && fp == [] && forall k :: 0 <= k < BITS ==> buf[k] == 0
      modifies this
      ensures Abs() == S.Begin(maxbits, c)
      ensures middle && freeEnt == FIRST && !clearFlg && table == [] && at == Places([], [])
      ensures written == old(written) + [c]
    {
      hide Pow2, S.EncOk, Zeros;
      middle := true;
      fp := fp + S.MAGIC;
      fp := fp + [maxbits + S.BLOCK_MASK];
      offset := 0;
      bytesOut := 3;
      clearFlg := false;
      ratio := 0;
      inCount := 1;
      checkpoint := S.CHECK_GAP;
      nbits := INIT_BITS;
      maxcode := Pow2(nbits) - 1;
      freeEnt := FIRST;
      ent := c;
      written, table, at := written + [c], [], Places([], []);
      assert buf[..] == Zeros();
    }

    /** The first byte ever. */
    method Start(c: byte)
      requires Valid() && !middle
      modifies this, htab
      ensures Valid() && middle && written == old(written) + [c]
    {
      hide HashHolds, S.EncOk, S.Begin, Pow2;
      Header(c);
      ClHash();
      ClearedHolds(htab[..], codetab[..], maxbits);
    }

    /** zclose: the pending code and what is left in the buffer; a stream nobody wrote to stays empty. */
    method Close() returns (file: seq<byte>)
      requires Valid()
      modifies `fp, `offset, `nbits, `maxcode, `bytesOut, `clearFlg, buf
      ensures file == S.Compress(written, maxbits)
    {
      hide LzwPacking.Output, PutCode, S.StateAfter, HashHolds, Pow2;
      if middle {
        Output(ent);
        if offset > 0 {
          offset := (offset + 7) / 8;
          fp := fp + buf[..offset];
          bytesOut := bytesOut + offset;
        }
        offset := 0;
      }
      file := fp;
    }
  }
}
