/**
 The reading half of a zopen stream as the object it is: each call of `Read` delivers the next piece
 of `Decompress` of the file, stopping in the middle of a code's text when the caller's buffer is full.
 */
module ZReader {
  import opened Arithmetic
  import opened LzwCodes
  import opened LzwPacking
  import S = LzwStream

  const TABLE_SIZE := 65536
  /** What is left of the encoder's hash table behind the suffixes. */
  const STACK_SIZE := 69001 * 8 - 65536

  /** The stack as it will be popped. */
  function Pending(stack: seq<byte>): (r: seq<byte>)
    ensures |r| == |stack|
  {
    if stack == [] then [] else [stack[|stack| - 1]] + Pending(stack[..|stack| - 1])
  }

  lemma PendingPush(stack: seq<byte>, c: byte)
    ensures Pending(stack + [c]) == [c] + Pending(stack)
  {
    assert (stack + [c])[..|stack|] == stack;
  }

  /** One turn of zread's loop, spelled out. */
  lemma Unroll(f: seq<byte>, rd: S.Rd, d: Dec, first: nat, mb: nat)
    requires S.RdOk(rd, f, mb) && 12 <= mb && DecValid(d, first, Pow2(mb))
    ensures var g := S.GetCode(f, rd, first + |d.table|, mb);
            var o := S.DecodeFrom(f, rd, d, first, mb);
            if g.0 < 0 then o == S.Out([], S.Eof)
            else
              var s := DecStep(d, first, Pow2(mb), g.0);
              if s.None? then o == S.Out([], S.BadStream)
              else
                var rest := S.DecodeFrom(f, S.Noted(g.1, g.0, first), s.value.0, first, mb);
                o == S.Out(s.value.1 + rest.bytes, rest.end)
  {
  }

  /**
   A bad header, no code at all, or a first code that is a byte, as every encoder writes it.  With any
   other first code the reader takes it for one that stands for text, and there is none.
   */
  ghost predicate Readable(f: seq<byte>) {
    S.GoodHeader(f) ==>
      (S.ReaderOk(f);
       S.GetCode(f, S.Reader(f[2] % 32), S.HeaderFirst(f), f[2] % 32).0 < 256)
  }

  datatype State = Start | Middle | AtEof

  /** What a call comes to; astray, it has read table entries or stack cells that hold no text. */
  datatype Outcome = Data(bytes: seq<byte>) | Failed | Astray

  datatype Opening = Refused | Empty | Begun | Unknown

  class Reader {
    const file: seq<byte>
    var pos: nat
    var state: State
    var maxbits: nat
    var blockCompress: bool
    var nbits: nat
    var maxcode: nat
    var freeEnt: nat
    var clearFlg: bool
    var finchar: byte
    var oldcode: int
    var incode: nat
    var roffset: nat
    var size: int
    const gbuf: array<byte>
    const tabPrefix: array<nat>
    const tabSuffix: array<byte>
    const deStack: array<byte>
    var stackp: nat

    ghost var table: seq<Entry>

    ghost predicate Shape()
    {
      && gbuf.Length == BITS && tabPrefix.Length == TABLE_SIZE
      && tabSuffix.Length == TABLE_SIZE && deStack.Length == STACK_SIZE
      && gbuf != tabSuffix && gbuf != deStack && tabSuffix != deStack
      && tabPrefix as object != gbuf && tabPrefix as object != tabSuffix && tabPrefix as object != deStack
    }

    function First(): nat
      reads this
    {
      if blockCompress then FIRST else 256
    }

    ghost function Rd(): S.Rd
      reads this, gbuf
    {
      S.Rd(pos, gbuf[..], roffset, size, nbits, maxcode, clearFlg)
    }

    ghost function Now(): Dec
      reads this
    {
      Dec(table, oldcode, finchar)
    }

    /** The decoder once the pending text is out and the new entry is made. */
    ghost function Next(): Dec
      reads this
    {
      if freeEnt < Pow2(maxbits) && oldcode != -1 then
        Dec(if oldcode >= 0 then table + [Entry(oldcode, finchar)] else table, incode, finchar)
      else Dec(table, incode, finchar)
    }

    /** The two arrays hold the dictionary. */
    ghost predicate Tables()
      reads this, tabPrefix, tabSuffix
    {
      && Shape() && 12 <= maxbits <= BITS
      && freeEnt == First() + |table| <= Pow2(maxbits) <= TABLE_SIZE
      && (forall c :: 0 <= c < 256 ==> tabSuffix[c] == c)
      && (forall k :: 0 <= k < |table| ==>
            tabPrefix[First() + k] == table[k].prefix && tabSuffix[First() + k] == table[k].suffix)
    }

    ghost predicate Ready()
      reads this, gbuf, tabPrefix, tabSuffix
    {
      Tables() && S.RdOk(Rd(), file, maxbits)
    }

    /** Between two codes. */
    ghost predicate Between()
      reads this, gbuf, tabPrefix, tabSuffix
    {
      Ready() && stackp == 0 && DecValid(Now(), First(), Pow2(maxbits))
    }

    /** In the middle of a code's text. */
    ghost predicate Midway()
      reads this, gbuf, tabPrefix, tabSuffix
    {
      Ready() && stackp <= STACK_SIZE && (oldcode == -1 || oldcode >= 0) && DecValid(Next(), First(), Pow2(maxbits))
    }

    /** `getcode`: the next code, or -1 at the end of the file. */
    method GetCode() returns (gcode: int)
      requires Ready()
      modifies `pos, `roffset, `size, `nbits, `maxcode, `clearFlg, gbuf
      ensures Ready()
      ensures (gcode, Rd()) == S.GetCode(file, old(Rd()), freeEnt, maxbits)
    {
      hide Pow2, GetAt, S.NextWidth;
      ghost var rd := Rd();
      if clearFlg || roffset >= size || freeEnt > maxcode {
        S.NextWidthOk(Rd(), file, freeEnt, maxbits);
        NewWidth();
        Fread();
        if size <= 0 {
          return -1;
        }
        roffset := 0;
        size := 8 * size - (nbits - 1);
      }
      gcode := Extract();
      roffset := roffset + nbits;
    }

    /** The width to read the next block with. */
    method NewWidth()
      requires Ready()
      modifies `nbits, `maxcode, `clearFlg
      ensures (nbits, maxcode) == S.NextWidth(old(Rd()), freeEnt, maxbits) && !clearFlg
    {
      hide Pow2;
      if freeEnt > maxcode {
        nbits := nbits + 1;
        if nbits == maxbits {
          maxcode := Pow2(maxbits);
        } else {
          maxcode := Pow2(nbits) - 1;
        }
      }
      if clearFlg {
        nbits := INIT_BITS;
        maxcode := Pow2(nbits) - 1;
        clearFlg := false;
      }
    }

    /** fread of one block into the front of the buffer. */
    method Fread()
      requires Shape() && pos <= |file| && nbits <= BITS
      modifies `pos, `size, gbuf
      ensures var r := S.Fill(old(gbuf[..]), file, old(pos), nbits);
              gbuf[..] == r.0 && size == r.1 && pos == old(pos) + r.1
    {
      var got := if nbits <= |file| - pos then nbits else |file| - pos;
      forall k | 0 <= k < got {
        gbuf[k] := file[pos + k];
      }
      pos := pos + got;
      size := got;
    }

    /** The masking and shifting of one code out of the buffer. */
    method Extract() returns (gcode: nat)
      requires Shape() && 9 <= nbits <= BITS && roffset <= 7 * nbits
      ensures gcode == GetAt(gbuf[..], 0, roffset, nbits)
    {
      hide Shl, Shr, Low;
      var bp, rOff, bits := roffset / 8, roffset % 8, nbits;
      gcode := Shr(gbuf[bp], rOff);
      bp := bp + 1;
      bits := bits - (8 - rOff);
      rOff := 8 - rOff;
      if bits >= 8 {
        ByteShift(gbuf[bp]);
        gcode := gcode + Shl(gbuf[bp], rOff);
        bp := bp + 1;
        rOff := rOff + 8;
        bits := bits - 8;
      }
      if bits > 0 {
        gcode := gcode + Shl(Low(gbuf[bp], bits), rOff);
      }
    }

    method Push(c: byte)
      requires Shape() && stackp < STACK_SIZE
      modifies `stackp, deStack
      ensures stackp == old(stackp) + 1
      ensures Pending(deStack[..stackp]) == [c] + old(Pending(deStack[..stackp]))
    {
      ghost var before := deStack[..stackp];
      PendingPush(before, c);
      deStack[stackp] := c;
      stackp := stackp + 1;
      assert deStack[..stackp] == before + [c];
    }

    /** Push the text of a code, last byte first, and leave its first byte in `finchar`. */
    method Unwind(start: nat)
      requires Tables() && WellFormed(table, First()) && Known(table, First(), start)
      requires stackp <= 1
      modifies `stackp, `finchar, deStack
      ensures 0 < stackp <= STACK_SIZE
      ensures Pending(deStack[..stackp]) == Expand(table, First(), start) + old(Pending(deStack[..stackp]))
      ensures finchar == Expand(table, First(), start)[0]
    {
      hide Pow2, Pending;
      var code := start;
      ghost var first, whole, tail := First(), Expand(table, First(), start), Pending(deStack[..stackp]);
      ExpandLength(table, first, start);
      while code >= 256
        invariant Known(table, first, code) && stackp + |Expand(table, first, code)| <= TABLE_SIZE + 2
        invariant Expand(table, first, code) + Pending(deStack[..stackp]) == whole + tail
        invariant Expand(table, first, code)[0] == whole[0]
        decreases code
      {
        ghost var e, rest := table[code - first], Pending(deStack[..stackp]);
        ghost var text := Expand(table, first, e.prefix);
        assert Expand(table, first, code) == text + [e.suffix];
        assert text + [e.suffix] + rest == text + ([e.suffix] + rest);
        Push(tabSuffix[code]);
        code := tabPrefix[code];
      }
      finchar := tabSuffix[code];
      Push(finchar);
    }

    /** The new entry for the code just written out, if there is room, and the code becomes the old one. */
    method Learn()
      requires Midway() && stackp == 0
      modifies `freeEnt, `oldcode, `table, tabPrefix, tabSuffix
      ensures Between() && Now() == old(Next())
    {
      hide Pow2, DecValid, S.RdOk;
      if freeEnt < Pow2(maxbits) && oldcode != -1 {
        tabPrefix[freeEnt] := oldcode;
        tabSuffix[freeEnt] := finchar;
        table := table + [Entry(oldcode, finchar)];
        freeEnt := freeEnt + 1;
      }
      oldcode := incode;
    }

    /** A code other than CLEAR: its text goes on the stack, or the stream is bad. */
    method Decode(code: nat) returns (ok: bool)
      requires Between() && code < Pow2(maxbits) && !(code == CLEAR && blockCompress)
      modifies `stackp, `finchar, `incode, deStack
      ensures var s := DecStep(old(Now()), First(), Pow2(maxbits), code);
              ok == s.Some? && (!ok ==> stackp == 0) && (ok ==> Midway() && stackp > 0 && Next() == s.value.0 && Pending(deStack[..stackp]) == s.value.1)
    {
      hide Pow2, S.RdOk, DecStep, DecValid, Pending, Expand;
      StepSpelled(Now(), First(), Pow2(maxbits), code);
      var c := code;
      incode := code;
      EmptyPending(deStack[..0]);
      if c >= freeEnt {
        if c > freeEnt || oldcode == -1 {
          return false;
        }
        Push(finchar);
        c := oldcode;
      }
      Unwind(c);
      ok := true;
    }

    /** What is still to come, between two codes. */
    ghost function Rest(): S.Out
      reads this, gbuf, tabPrefix, tabSuffix
      requires Between()
    {
      S.DecodeFrom(file, Rd(), Now(), First(), maxbits)
    }

    /** What is still to come, in the middle of a code's text. */
    ghost function MidRest(): S.Out
      reads this, gbuf, tabPrefix, tabSuffix, deStack
      requires Midway() && deStack.Length == STACK_SIZE
    {
      S.Out(Pending(deStack[..stackp]) + After().bytes, After().end)
    }

    /** What comes after the text on the stack. */
    ghost function After(): S.Out
      reads this, gbuf, tabPrefix, tabSuffix
      requires Midway()
    {
      S.DecodeFrom(file, Rd(), Next(), First(), maxbits)
    }

    ghost predicate Valid()
      reads this, gbuf, tabPrefix, tabSuffix, deStack
    {
      && Shape()
      && (state == Start ==>
            pos == 0 && roffset == 0 && size == 0 && !clearFlg && stackp == 0 && (forall k :: 0 <= k < BITS ==> gbuf[k] == 0))
      && (state == Middle && stackp > 0 ==> Midway())
    }

    /**
     The next call goes astray: on a file that does not begin with a byte, after a call that failed, and
     after one that found nothing behind the header, which all leave the reader without text to go on with.
     */
    ghost predicate Lost()
      reads this
    {
      (state == Start && !Readable(file)) || (state == Middle && stackp == 0)
    }

    /** All that further calls will deliver, and how the stream ends. */
    ghost function Remaining(): S.Out
      reads this, gbuf, tabPrefix, tabSuffix, deStack
      requires Valid() && !Lost()
    {
      match state
      case Start => S.Decompress(file)
      case Middle => MidRest()
      case AtEof => S.Out([], S.Eof)
    }

    constructor (f: seq<byte>)
      ensures Valid() && file == f && state == Start
      ensures fresh(gbuf) && fresh(tabPrefix) && fresh(tabSuffix) && fresh(deStack)
    {
      file, pos, state := f, 0, Start;
      maxbits, blockCompress, nbits, maxcode, freeEnt, clearFlg := BITS, true, 0, 0, 0, false;
      finchar, oldcode, incode, roffset, size, stackp, table := 0, 0, 0, 0, 0, 0, [];
      gbuf := new byte[BITS](_ => 0);
      tabPrefix := new nat[TABLE_SIZE](_ => 0);
      tabSuffix := new byte[TABLE_SIZE](_ => 0);
      deStack := new byte[STACK_SIZE](_ => 0);
    }

    /** One code read and, if it is not CLEAR, its text put on the stack. */
    method Turn() returns (t: Turned)
      requires Between()
      modifies `pos, `roffset, `size, `nbits, `maxcode, `clearFlg, `stackp, `finchar, `incode, `oldcode,
               `freeEnt, `table, gbuf, tabPrefix, deStack
      ensures pos <= |file|
      ensures t == Ended ==> old(Rest()) == S.Out([], S.Eof)
      ensures t == Bad ==> stackp == 0 && old(Rest()) == S.Out([], S.BadStream)
      ensures t == Cleared ==> Between() && Rest() == old(Rest())
      ensures t == Filled ==> Midway() && stackp > 0 && MidRest() == old(Rest())
      ensures t == Cleared || t == Filled ==>
                pos > old(pos) || (pos == old(pos) && size == old(size) && old(roffset) < size && roffset > old(roffset))
    {
      hide Pow2, DecStep, DecValid, S.DecodeFrom, S.GetCode;
      Unroll(file, Rd(), Now(), First(), maxbits);
      var code := GetCode();
      if code == -1 {
        return Ended;
      }
      if code == CLEAR && blockCompress {
        Clear();
        return Cleared;
      }
      var ok := Decode(code);
      t := if ok then Filled else Bad;
    }

    /** The tables as after a CLEAR. */
    method Clear()
      requires Between() && blockCompress && CLEAR < Pow2(maxbits)
      modifies `clearFlg, `freeEnt, `oldcode, `table, tabPrefix
      ensures Between() && Rd() == old(Rd()).(clear := true)
      ensures var s := DecStep(old(Now()), First(), Pow2(maxbits), CLEAR); s == Some((Now(), []))
    {
      hide Pow2;
      forall c | 0 <= c < 256 {
        tabPrefix[c] := 0;
      }
      clearFlg := true;
      freeEnt := FIRST;
      oldcode := -1;
      table := [];
    }

    /** The header and the first code, which should be a byte; there may be none. */
    method Open() returns (r: Opening)
      requires Valid() && state == Start
      modifies this, gbuf, tabPrefix, tabSuffix
      ensures state == Middle && (r == Refused <==> !S.GoodHeader(file)) && (r == Unknown <==> !Readable(file))
      ensures r != Unknown ==> (r == Empty <==> S.Decompress(file) == S.Out([], S.Eof))
      ensures r == Refused || r == Empty ==> stackp == 0
      ensures r == Begun ==> Between() && pos <= |file|
                             && S.Decompress(file) == S.Out([finchar] + Rest().bytes, Rest().end)
    {
      hide Pow2, S.DecodeFrom, S.GetCode;
      state := Middle;
      var ok := Header();
      if !ok {
        return Refused;
      }
      r := FirstCode();
    }

    method Header() returns (ok: bool)
      requires Shape() && pos == 0 && roffset == 0 && size == 0 && !clearFlg && forall k :: 0 <= k < BITS ==> gbuf[k] == 0
      modifies `pos, `maxbits, `blockCompress, `nbits, `maxcode, `freeEnt, `table, `oldcode, `finchar, `stackp, tabPrefix, tabSuffix
      ensures ok <==> S.GoodHeader(file)
      ensures !ok ==> stackp == old(stackp)
      ensures ok ==> maxbits == file[2] % 32 && First() == S.HeaderFirst(file) && Rd() == S.Reader(maxbits)
                     && Now() == START && Between()
    {
      hide Pow2;
      if |file| < 3 || file[..2] != S.MAGIC {
        return false;
      }
      pos := 3;
      maxbits := file[2];
      blockCompress := maxbits >= S.BLOCK_MASK;
      maxbits := maxbits % 32;
      if maxbits > BITS || maxbits < 12 {
        return false;
      }
      nbits := INIT_BITS;
      maxcode := Pow2(nbits) - 1;
      FreshTables();
      FreshReader();
      ok := true;
    }

    method FreshTables()
      requires Shape() && 12 <= maxbits <= BITS
      modifies `freeEnt, `table, `oldcode, `finchar, `stackp, tabPrefix, tabSuffix
      ensures Tables() && Now() == START && stackp == 0 && DecValid(Now(), First(), Pow2(maxbits))
    {
      Literals();
      freeEnt := if blockCompress then FIRST else 256;
      table, oldcode, finchar, stackp := [], -1, 0, 0;
      Pow2Monotone(maxbits, BITS);
      Pow2Monotone(9, maxbits);
      Pow2Values();
    }

    lemma FreshReader()
      requires Shape() && S.GoodHeader(file) && maxbits == file[2] % 32
      requires pos == 3 && roffset == 0 && size == 0 && !clearFlg && nbits == INIT_BITS && maxcode == Pow2(nbits) - 1
      requires forall k :: 0 <= k < BITS ==> gbuf[k] == 0
      ensures Rd() == S.Reader(maxbits) && S.RdOk(Rd(), file, maxbits)
    {
      hide S.RdOk, S.GoodHeader;
      S.ReaderOk(file);
      assert gbuf[..] == Zeros();
    }

    /** The first 256 entries stand for themselves. */
    method Literals()
      requires Shape()
      modifies tabPrefix, tabSuffix
      ensures forall c :: 0 <= c < 256 ==> tabSuffix[c] == c
    {
      var code := 255;
      while code >= 0
        invariant -1 <= code <= 255
        invariant forall c :: code < c < 256 ==> tabSuffix[c] == c
      {
        tabPrefix[code] := 0;
        tabSuffix[code] := code;
        code := code - 1;
      }
    }

    method FirstCode() returns (r: Opening)
      requires Between() && S.GoodHeader(file) && Now() == START
      requires maxbits == file[2] % 32 && First() == S.HeaderFirst(file) && Rd() == S.Reader(maxbits)
      modifies `pos, `roffset, `size, `nbits, `maxcode, `clearFlg, `oldcode, `finchar, gbuf
      ensures r != Refused && (r == Unknown <==> !Readable(file))
      ensures r == Begun ==> Between() && S.Decompress(file) == S.Out([finchar] + Rest().bytes, Rest().end)
      ensures r == Empty ==> S.Decompress(file) == S.Out([], S.Eof)
    {
      hide Pow2, S.DecodeFrom, S.GetCode;
      Unroll(file, Rd(), Now(), First(), maxbits);
      var code := GetCode();
      if code == -1 {
        return Empty;
      } else if code > 255 {
        return Unknown;
      }
      finchar := code;
      oldcode := code;
      r := Begun;
    }

    /** Move the pending text out, as far as the caller has room. */
    method Drain(num: nat, given: seq<byte>) returns (data: seq<byte>, full: bool)
      requires Shape() && 0 < stackp <= STACK_SIZE && |given| <= num
      modifies `stackp
      ensures |data| <= num && stackp <= old(stackp)
      ensures data + Pending(deStack[..stackp]) == given + old(Pending(deStack[..stackp]))
      ensures if full then stackp > 0 && |data| == num else stackp == 0
    {
      data, full := given, false;
      while stackp > 0
        invariant stackp <= old(stackp) && |data| <= num
        invariant data + Pending(deStack[..stackp]) == given + old(Pending(deStack[..stackp]))
      {
        if |data| == num {
          return data, true;
        }
        stackp := stackp - 1;
        ghost var left := deStack[..stackp];
        PendingPush(left, deStack[stackp]);
        assert deStack[..stackp + 1] == left + [deStack[stackp]];
        assert data + ([deStack[stackp]] + Pending(left)) == data + [deStack[stackp]] + Pending(left);
        data := data + [deStack[stackp]];
      }
    }

    /** The text on the stack goes out; once it is all out, the dictionary learns from it. */
    method Deliver(num: nat, given: seq<byte>) returns (data: seq<byte>, full: bool)
      requires Midway() && stackp > 0 && |given| <= num
      modifies `stackp, `freeEnt, `oldcode, `table, tabPrefix, tabSuffix
      ensures |data| <= num
      ensures full ==> |data| == num && Midway() && stackp > 0
                       && S.Out(given + old(MidRest()).bytes, old(MidRest()).end) == S.Out(data + MidRest().bytes, MidRest().end)
      ensures !full ==> Between()
                        && S.Out(given + old(MidRest()).bytes, old(MidRest()).end) == S.Out(data + Rest().bytes, Rest().end)
    {
      hide Pow2, DecValid, S.DecodeFrom, S.RdOk, Pending;
      ghost var more, text := After(), Pending(deStack[..stackp]);
      data, full := Drain(num, given);
      Regroup(given, text, data, Pending(deStack[..stackp]), more.bytes);
      if !full {
        NothingPending(deStack[..stackp], data, more.bytes);
        Learn();
      }
    }

    /**
     zread: the next `num` bytes, fewer only at the end of the stream; the whole call fails when it
     runs into a bad code or a bad header.
     */
    method Read(num: nat) returns (r: Outcome)
      requires Valid()
      modifies this, gbuf, tabPrefix, tabSuffix, deStack
      ensures num == 0 ==> r == Data([]) && Valid() && (Lost() <==> old(Lost())) && (!Lost() ==> Remaining() == old(Remaining()))
      ensures num > 0 && old(Lost()) ==> r == Astray
      ensures num > 0 && !old(Lost()) ==>
                var o := old(Remaining());
                && Valid() && (Lost() <==> r == Failed || (old(state) == Start && o.bytes == []))
                && if num < |o.bytes| || o.end == S.Eof then
                     var n := if num < |o.bytes| then num else |o.bytes|;
                     r == Data(o.bytes[..n]) && (!Lost() ==> Remaining() == S.Out(o.bytes[n..], o.end))
                   else r == Failed
    {
      hide Pow2, DecValid, S.DecodeFrom, S.GoodHeader, Between, Readable;
      if num == 0 {
        return Data([]);
      }
      ghost var o := if Lost() then S.Out([], S.Eof) else Remaining();
      var data: seq<byte> := [];
      var mid := true;
      if state == AtEof {
        return Data([]);
      }
      if state == Start {
        var start := Open();
        if start == Refused {
          return Failed;
        } else if start == Empty {
          return Data([]);
        } else if start == Unknown {
          return Astray;
        }
        data := [finchar];
        mid := false;
      } else if stackp == 0 {
        return Astray;
      }
      while true
        invariant Shape() && state == Middle && |data| <= num && pos <= |file|
        invariant mid ==> Midway() && stackp > 0 && o == S.Out(data + MidRest().bytes, MidRest().end)
        invariant !mid ==> Between() && o == S.Out(data + Rest().bytes, Rest().end)
        decreases |file| - pos, if size > roffset then size - roffset else 0, mid
      {
        if !mid {
          var t := Turn();
          match t {
            case Ended =>
              state := AtEof;
              return Data(data);
            case Bad =>
              return Failed;
            case Cleared =>
            case Filled =>
              mid := true;
          }
        } else {
          var full;
          data, full := Deliver(num, data);
          if full {
            return Data(data);
          }
          mid := false;
        }
      }
    }
  }

  lemma EmptyPending(stack: seq<byte>)
    requires stack == []
    ensures Pending(stack) == []
  {
  }

  lemma NothingPending(stack: seq<byte>, data: seq<byte>, more: seq<byte>)
    requires stack == []
    ensures data + (Pending(stack) + more) == data + more
  {
    assert [] + more == more;
  }

  lemma Regroup(given: seq<byte>, text: seq<byte>, data: seq<byte>, left: seq<byte>, more: seq<byte>)
    requires given + text == data + left
    ensures given + (text + more) == data + (left + more)
  {
    assert given + (text + more) == given + text + more;
    assert data + (left + more) == data + left + more;
  }

  /** What came of one turn of the loop. */
  datatype Turned = Ended | Bad | Cleared | Filled

  /** The decoder's step, spelled out. */
  lemma StepSpelled(d: Dec, first: nat, limit: nat, code: nat)
    requires DecValid(d, first, limit) && code < limit && !(code == CLEAR && first == FIRST)
    ensures WellFormed(d.table, first) && (d.prev == -1 || (0 <= d.prev && Known(d.table, first, d.prev)))
    ensures code < first + |d.table| ==> Known(d.table, first, code)
    ensures var free, s := first + |d.table|, DecStep(d, first, limit, code);
            if code >= free && (code > free || d.prev == -1) then s.None?
            else
              var text := if code < free then Expand(d.table, first, code) else Expand(d.table, first, d.prev) + [d.fin];
              s.Some? && DecValid(s.value.0, first, limit)
              && s.value == (Dec(if d.prev != -1 && free < limit then d.table + [Entry(d.prev, text[0])] else d.table,
                                 code, text[0]), text)
  {
  }
}
