/** Writers and readers of a channel together: what one side writes the other reads back. */
module ChannelRoundTrips {
  import opened BitChannels
  import opened BitFields
  import opened ChannelReaders
  import opened FlatBytes
  import F = Formats
  import opened Positional
  import opened Records
  import opened Sequences
  import W = ChannelWriters

  method WriteToString(items: seq<F.Item>) returns (data: seq<Byte>)
    requires forall item <- items :: F.Offered(item)
    ensures data == Record(F.FORMAT, items, 0)
  {
    var w := new W.Writer.ToString();
    var o := w.WriteItems(items);
    EmptyLeft(Record(F.FORMAT, items, 0));
    data := w.text;
  }

  /** A record written into a string comes back through mirrored reads, in whatever pieces the source delivers it
      and whatever follows. */
  method WriteThenRead(items: seq<F.Item>, after: seq<Byte>, ready: nat -> nat) returns (got: Got<seq<F.Value>>)
    requires forall item <- items :: F.Offered(item)
    ensures got == Got(Backs(F.FORMAT, items))
  {
    var data := WriteToString(items);
    var r := OpenSource(data + after, ready);
    got := ReadBack(r, items, after);
  }

  method OpenSource(data: seq<Byte>, ready: nat -> nat) returns (r: Reader)
    ensures r.Valid() && r.inner == null && fresh(r) && r.repr == {r} && r.Levels() == [Level(data, |data|, 0)]
  {
    r := new Reader.Source(data, ready);
  }

  method ReadBack(r: Reader, items: seq<F.Item>, ghost after: seq<Byte>) returns (got: Got<seq<F.Value>>)
    requires r.Valid() && r.inner == null && r.offset == 0 && r.Left() == Record(F.FORMAT, items, 0) + after
    requires forall item <- items :: F.Offered(item)
    modifies r.repr
    ensures got == Got(Backs(F.FORMAT, items))
  {
    F.FormatBackIff(items, after, false, 0);
    got := r.ReadItems(items);
  }

  /** Under a limit, the same exactly if the limit lets the whole record through and, where it ends with the record, the
      last item is not written as nothing. */
  method WriteThenReadLimited(items: seq<F.Item>, after: seq<Byte>, limit: nat, ready: nat -> nat) returns (got: Got<seq<F.Value>>)
    requires forall item <- items :: F.Offered(item)
    ensures var n := |Record(F.FORMAT, items, 0)|;
            if limit < n || (limit == n && EndsEmpty(F.FORMAT, items, 0)) then got.Thrown? else got == Got(Backs(F.FORMAT, items))
  {
    var data := WriteToString(items);
    var r := OpenSource(data + after, ready);
    ghost var levels;
    got, levels := ReadItemsLimited(r, limit, items);
    ReadUnderLimit(items, data, after, limit, levels, got);
  }

  lemma ReadUnderLimit(items: seq<F.Item>, data: seq<Byte>, after: seq<Byte>, limit: nat,
                       levels: seq<Level>, got: Got<seq<F.Value>>)
    requires data == Record(F.FORMAT, items, 0)
    requires TookItems(items, true, OnTop([Level(data + after, |data + after|, 0)], limit, 0), levels, got)
    ensures if limit < |data| || (limit == |data| && EndsEmpty(F.FORMAT, items, 0)) then got.Thrown?
            else got == Got(Backs(F.FORMAT, items))
  {
    var left := OnTop([Level(data + after, |data + after|, 0)], limit, 0)[0].left;
    F.FormatIsFaithful();
    if limit < |data| {
      assert left <= data;
      CutRecordFails(F.FORMAT, items, left, limit == |left|, 0);
    } else {
      var rest := left[|data|..];
      assert left == data + rest;
      F.FormatBackIff(items, rest, limit == |left|, 0);
    }
  }

  /** A block that is large enough ends up with the same bytes as a string. */
  method WriteBoth(items: seq<F.Item>, block: array<Byte>) returns (text: seq<Byte>, o: W.Outcome)
    requires forall item <- items :: F.Offered(item)
    modifies block
    ensures text == Record(F.FORMAT, items, 0) && (o.Ok? <==> |text| <= block.Length)
    ensures o.Ok? ==> block[..|text|] == text
  {
    var s := new W.Writer.ToString();
    var b := new W.Writer.ToBlock(block);
    var p := s.WriteItems(items);
    EmptyLeft(Record(F.FORMAT, items, 0));
    text := s.text;
    o := b.WriteItems(items);
  }

  /** Bit fields written and flushed come back with the same widths, each cut to its width, and fewer than eight
      zero bits are left. */
  method WriteBitsThenRead(fields: seq<BitField>, ready: nat -> nat) returns (values: seq<nat>, ghost left: seq<nat>)
    requires forall f <- fields :: f.width <= 32
    ensures values == Backs(BITS, fields)
    ensures |left| < 8 && left == Zeros(|left|)
  {
    var data;
    data, left := WriteFieldsToString(fields);
    var r := OpenSource(data, ready);
    values := ReadFieldsBack(r, fields, left);
  }

  method WriteFieldsToString(fields: seq<BitField>) returns (data: seq<Byte>, ghost left: seq<nat>)
    requires forall f <- fields :: f.width <= 32
    ensures BitsIn(data) == Record(BITS, fields, 0) + left && |left| < 8 && left == Zeros(|left|)
  {
    var w := new W.Writer.ToString();
    var bw := new BitWriter(w);
    var o := bw.WriteFields(fields);
    ghost var bits := bw.Bits();
    EmptyLeft(Record(BITS, fields, 0));
    o := bw.Flush();
    data := w.text;
    left := BitsIn(data)[|bits|..];
  }

  method ReadFieldsBack(r: Reader, fields: seq<BitField>, ghost left: seq<nat>) returns (values: seq<nat>)
    requires r.Valid() && BitsIn(r.Left()) == Record(BITS, fields, 0) + left
    requires forall f <- fields :: f.width <= 32
    modifies r.repr
    ensures values == Backs(BITS, fields)
  {
    FieldsBack(fields, left);
    var br := new BitReader(r);
    var got := br.ReadFields(fields);
    values := got.value;
  }

  method WriteCodes(bw: BitWriter, vs: seq<nat>)
    requires bw.Valid() && bw.writer.block == null && forall i | 0 <= i < |vs| :: vs[i] < 0x7FFF_FFFF
    modifies bw, bw.writer
    ensures bw.Valid() && bw.Bits() == old(bw.Bits()) + CodesOf(vs)
    decreases |vs|
  {
    ghost var was := bw.Bits();
    if vs == [] {
      assert was + [] == was;
      return;
    }
    WriteOneCode(bw, vs[0]);
    Assoc(was, CodeOf(vs[0]), CodesOf(vs[1..]));
    WriteCodes(bw, vs[1..]);
  }

  method WriteOneCode(bw: BitWriter, v: nat)
    requires bw.Valid() && bw.writer.block == null && v < 0x7FFF_FFFF
    modifies bw, bw.writer
    ensures bw.Valid() && bw.Bits() == old(bw.Bits()) + CodeOf(v)
  {
    ghost var was, n := bw.Bits(), Log2(v + 1);
    ShortCodes(v);
    ZeroDigits(n);
    var o := bw.WriteBits(Log2(v + 1), 0);
    o := bw.WriteBits(Log2(v + 1) + 1, v + 1);
    Assoc(was, Zeros(n), Digits(2, n + 1, v + 1));
  }

  method ReadOneCode(br: BitReader, ghost v: nat, ghost later: seq<nat>) returns (value: nat)
    requires br.Valid() && br.Left() == CodeOf(v) + later && AreDigits(2, later) && v < 0x7FFF_FFFF
    modifies br, br.reader.repr
    ensures br.Valid() && value == v && br.Left() == later
  {
    CodeBack(v, later);
    var r := br.ReadExpGolomb();
    value := r.value;
  }

  lemma FirstCode(vs: seq<nat>, rest: seq<nat>)
    requires vs != [] && AreDigits(2, rest)
    ensures CodesOf(vs) + rest == CodeOf(vs[0]) + (CodesOf(vs[1..]) + rest) && AreDigits(2, CodesOf(vs[1..]) + rest)
  {
    Assoc(CodeOf(vs[0]), CodesOf(vs[1..]), rest);
    CodesAreDigits(vs[1..], rest);
  }

  method ReadCodes(br: BitReader, n: nat, ghost vs: seq<nat>, ghost rest: seq<nat>) returns (values: seq<nat>)
    requires br.Valid() && n == |vs| && br.Left() == CodesOf(vs) + rest && AreDigits(2, rest)
    requires forall i | 0 <= i < |vs| :: vs[i] < 0x7FFF_FFFF
    modifies br, br.reader.repr
    ensures br.Valid() && values == vs && br.Left() == rest
    decreases n
  {
    if n == 0 {
      EmptyLeft(rest);
      return [];
    }
    FirstCode(vs, rest);
    var first := ReadOneCode(br, vs[0], CodesOf(vs[1..]) + rest);
    var others := ReadCodes(br, n - 1, vs[1..], rest);
    values := [first] + others;
  }

  /** Exp-Golomb codes of any list of values below two to the power 31, less one, come back through the reader in
      order, each taking exactly its bits, and fewer than eight zero bits are left. */
  method WriteCodesThenRead(vs: seq<nat>, ready: nat -> nat) returns (values: seq<nat>, ghost left: seq<nat>)
    requires forall i | 0 <= i < |vs| :: vs[i] < 0x7FFF_FFFF
    ensures values == vs && |left| < 8 && left == Zeros(|left|)
  {
    var data;
    data, left := WriteCodesToString(vs);
    var r := OpenSource(data, ready);
    values := ReadCodesBack(r, vs, left);
  }

  method WriteCodesToString(vs: seq<nat>) returns (data: seq<Byte>, ghost left: seq<nat>)
    requires forall i | 0 <= i < |vs| :: vs[i] < 0x7FFF_FFFF
    ensures BitsIn(data) == CodesOf(vs) + left && |left| < 8 && left == Zeros(|left|)
  {
    var w := new W.Writer.ToString();
    var bw := new BitWriter(w);
    WriteCodes(bw, vs);
    ghost var bits := bw.Bits();
    EmptyLeft(CodesOf(vs));
    var o := bw.Flush();
    data := w.text;
    left := BitsIn(data)[|bits|..];
  }

  method ReadCodesBack(r: Reader, vs: seq<nat>, ghost left: seq<nat>) returns (values: seq<nat>)
    requires r.Valid() && BitsIn(r.Left()) == CodesOf(vs) + left && left == Zeros(|left|)
    requires forall i | 0 <= i < |vs| :: vs[i] < 0x7FFF_FFFF
    modifies r.repr
    ensures values == vs
  {
    var br := new BitReader(r);
    values := ReadCodes(br, |vs|, vs, left);
  }
}
