/** Both streams together: any pieces written, any pieces read, the same bytes in the same order. */
module ZRoundTrip {
  import opened LzwCodes
  import opened LzwPacking
  import S = LzwStream
  import W = ZWriter
  import R = ZReader

  /** What zclose leaves is in the reader's domain: its first code is a byte. */
  lemma WrittenIsReadable(input: seq<byte>, mb: nat)
    requires 9 <= mb <= BITS
    ensures R.Readable(S.Compress(input, mb))
  {
    var f := S.Compress(input, mb);
    if S.GoodHeader(f) {
      var codes := S.FileOf(input, mb);
      hide S.Compress, S.GetCode, Holds, DecRun;
      S.HeaderBack(f, mb);
      S.ReaderOk(f);
      S.ReadsCode(f, codes, 0, S.Reader(mb), FIRST, mb);
    }
  }

  function Flatten(pieces: seq<seq<byte>>): seq<byte> {
    if pieces == [] then [] else Flatten(pieces[..|pieces| - 1]) + pieces[|pieces| - 1]
  }

  /** However the input is cut into calls of zwrite, the file is the same. */
  method WriteAll(bits: nat, pieces: seq<seq<byte>>) returns (file: seq<byte>)
    requires 9 <= bits <= BITS
    ensures file == S.Compress(Flatten(pieces), bits)
  {
    hide S.Compress;
    var w := new W.Writer(bits);
    for i := 0 to |pieces|
      invariant w.Valid() && w.written == Flatten(pieces[..i]) && w.maxbits == bits
      invariant fresh(w) && fresh(w.htab) && fresh(w.codetab) && fresh(w.buf)
    {
      assert pieces[..i + 1][..i] == pieces[..i];
      var _ := w.Write(pieces[i]);
    }
    assert pieces[..|pieces|] == pieces;
    file := w.Close();
  }

  /** Every buffer is filled from where the one before stopped, until the input runs out. */
  ghost predicate Delivered(got: seq<seq<byte>>, sizes: seq<nat>, input: seq<byte>) {
    && |got| <= |sizes| && Flatten(got) <= input
    && (got != [] ==>
          var n := |got| - 1;
          Delivered(got[..n], sizes, input) && Filled(got[n], sizes[n], |input| - |Flatten(got[..n])|))
  }

  predicate Filled(piece: seq<byte>, size: nat, left: int) {
    |piece| == if size <= left then size else left
  }

  lemma DeliveredNext(got: seq<seq<byte>>, sizes: seq<nat>, input: seq<byte>, piece: seq<byte>, rest: seq<byte>)
    requires Delivered(got, sizes, input) && |got| < |sizes|
    requires Flatten(got) + (piece + rest) == input && Filled(piece, sizes[|got|], |piece + rest|)
    ensures Delivered(got + [piece], sizes, input) && Flatten(got + [piece]) + rest == input
  {
    var all, done := got + [piece], Flatten(got);
    assert all[..|got|] == got;
    assert done + (piece + rest) == done + piece + rest;
  }

  /** However the caller cuts its reads, it gets the input. */
  method ReadAll(file: seq<byte>, sizes: seq<nat>, ghost input: seq<byte>) returns (got: seq<seq<byte>>)
    requires R.Readable(file) && S.Decompress(file) == S.Out(input, S.Eof) && input != []
    ensures |got| == |sizes| && Delivered(got, sizes, input)
  {
    hide Delivered, R.Readable, S.Decompress, Filled, Flatten;
    var r := new R.Reader(file);
    got := [];
    NothingDelivered(sizes, input);
    assert [] + input == input;
    for i := 0 to |sizes|
      invariant |got| == i && r.Valid() && !r.Lost() && Delivered(got, sizes, input)
      invariant fresh(r) && fresh(r.gbuf) && fresh(r.tabPrefix) && fresh(r.tabSuffix) && fresh(r.deStack)
      invariant r.Remaining().end == S.Eof && Flatten(got) + r.Remaining().bytes == input
    {
      ghost var left := r.Remaining().bytes;
      assert r.state == R.Start ==> left == input;
      var piece := r.Read(sizes[i]);
      ghost var rest := r.Remaining().bytes;
      FilledFrom(left, piece.bytes, rest, sizes[i]);
      DeliveredNext(got, sizes, input, piece.bytes, rest);
      got := got + [piece.bytes];
    }
  }

  lemma NothingDelivered(sizes: seq<nat>, input: seq<byte>)
    ensures Delivered([], sizes, input) && Flatten([]) == []
  {
  }

  lemma FilledFrom(left: seq<byte>, piece: seq<byte>, rest: seq<byte>, size: nat)
    requires size == 0 ==> piece == [] && rest == left
    requires var n := if size < |left| then size else |left|; size > 0 ==> piece == left[..n] && rest == left[n..]
    ensures left == piece + rest && Filled(piece, size, |piece + rest|)
  {
  }

  /** Any pieces written, the stream closed, any buffers filled: the input comes back. */
  method WriteAndRead(bits: nat, pieces: seq<seq<byte>>, sizes: seq<nat>) returns (got: seq<seq<byte>>)
    requires 12 <= bits <= BITS && Flatten(pieces) != []
    ensures |got| == |sizes| && Delivered(got, sizes, Flatten(pieces))
  {
    hide S.Compress, S.Decompress, R.Readable;
    var file := WriteAll(bits, pieces);
    WrittenIsReadable(Flatten(pieces), bits);
    S.RoundTrip(Flatten(pieces), bits);
    got := ReadAll(file, sizes, Flatten(pieces));
  }
}
