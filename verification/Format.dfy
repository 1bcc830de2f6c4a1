/** Binary formats over a channel (libs/chan/writer.cc): integers, fixed-length fields, skips and alignments. */
module Formats {
  import opened Positional
  import opened Records
  import opened FlatBytes
  import opened Sequences

  // ---------- Byte order ----------

  /** Most significant byte first. */
  function BigEndian(size: nat, v: nat): (bs: seq<Byte>)
    ensures |bs| == size
  {
    if size == 0 then [] else BigEndian(size - 1, v / 256) + [AsByte(v)]
  }

  function BigValue(bs: seq<Byte>): nat {
    if bs == [] then 0 else 256 * BigValue(bs[..|bs| - 1]) + Num(bs[|bs| - 1])
  }

  /** Least significant byte first. */
  function LittleEndian(size: nat, v: nat): (bs: seq<Byte>)
    ensures |bs| == size
  {
    if size == 0 then [] else [AsByte(v)] + LittleEndian(size - 1, v / 256)
  }

  function LittleValue(bs: seq<Byte>): nat {
    if bs == [] then 0 else Num(bs[0]) + 256 * LittleValue(bs[1..])
  }

  /** What a number is past its last byte, and what it is up to a few bytes. */
  lemma LastByte(size: nat, v: nat)
    requires size > 0
    ensures 0 < Power(256, size - 1) && 0 < Power(256, size)
    ensures v % Power(256, size) == 256 * (v / 256 % Power(256, size - 1)) + v % 256
  {
    PowerPositive(256, size - 1);
    DivideTwice(v, 256, Power(256, size - 1));
  }

  /** An integer comes back from its bytes, in either order, cut to what they hold. */
  lemma {:induction false} IntegerBack(size: nat, v: nat)
    ensures Power(256, size) > 0
    ensures BigValue(BigEndian(size, v)) == v % Power(256, size) && LittleValue(LittleEndian(size, v)) == v % Power(256, size)
  {
    if size > 0 {
      LastByte(size, v);
      IntegerBack(size - 1, v / 256);
      assert BigEndian(size, v)[..size - 1] == BigEndian(size - 1, v / 256);
      assert LittleEndian(size, v)[1..] == LittleEndian(size - 1, v / 256);
    }
  }

  /** The bytes of a number depend on its low part only. */
  lemma {:induction false} LowBytes(size: nat, v: nat)
    ensures Power(256, size) > 0
    ensures BigEndian(size, v % Power(256, size)) == BigEndian(size, v)
    ensures LittleEndian(size, v % Power(256, size)) == LittleEndian(size, v)
  {
    if size > 0 {
      LastByte(size, v);
      var low := v % Power(256, size);
      DivideUnique(low, 256, v / 256 % Power(256, size - 1), v % 256);
      LowBytes(size - 1, v / 256);
    }
  }

  /** The bytes of a number are those of its upper and its lower part. */
  lemma {:induction false} BytesSplit(a: nat, b: nat, v: nat)
    ensures Power(256, b) > 0
    ensures BigEndian(a + b, v) == BigEndian(a, v / Power(256, b)) + BigEndian(b, v)
    ensures LittleEndian(a + b, v) == LittleEndian(b, v) + LittleEndian(a, v / Power(256, b))
    decreases b
  {
    if b == 0 {
      assert BigEndian(a, v) + [] == BigEndian(a, v);
      EmptyLeft(LittleEndian(a, v));
    } else {
      BytesSplit(a, b - 1, v / 256);
      PowerDivide(v, 256, b);
      var high := v / 256 / Power(256, b - 1);
      assert high == v / Power(256, b);
      Assoc(BigEndian(a, high), BigEndian(b - 1, v / 256), [AsByte(v)]);
      Assoc([AsByte(v)], LittleEndian(b - 1, v / 256), LittleEndian(a, high));
    }
  }

  /** The value of bytes after one another. */
  lemma {:induction false} BigConcat(a: seq<Byte>, b: seq<Byte>)
    ensures BigValue(a + b) == BigValue(a) * Power(256, |b|) + BigValue(b)
    decreases |b|
  {
    if b == [] {
      assert a + b == a;
    } else {
      var n := |b| - 1;
      BigConcat(a, b[..n]);
      assert (a + b)[..|a + b| - 1] == a + b[..n];
      Distribute(BigValue(a), Power(256, n), BigValue(b[..n]), 256);
    }
  }

  lemma {:induction false} LittleConcat(a: seq<Byte>, b: seq<Byte>)
    ensures LittleValue(a + b) == LittleValue(a) + LittleValue(b) * Power(256, |a|)
    decreases |a|
  {
    if a == [] {
      EmptyLeft(b);
    } else {
      LittleConcat(a[1..], b);
      assert (a + b)[1..] == a[1..] + b;
      Distribute(LittleValue(b), Power(256, |a| - 1), LittleValue(a[1..]), 256);
    }
  }

  lemma Big2(bs: seq<Byte>)
    requires |bs| == 2
    ensures BigValue(bs) == Num(bs[0]) * 256 + Num(bs[1])
  {
    assert BigValue(bs[..1]) == Num(bs[0]);
  }

  lemma Big3(bs: seq<Byte>)
    requires |bs| == 3
    ensures BigValue(bs) == Num(bs[0]) * 0x1_0000 + Num(bs[1]) * 256 + Num(bs[2])
  {
    Big2(bs[..2]);
  }

  lemma Big4(bs: seq<Byte>)
    requires |bs| == 4
    ensures BigValue(bs) == Num(bs[0]) * 0x100_0000 + Num(bs[1]) * 0x1_0000 + Num(bs[2]) * 256 + Num(bs[3])
  {
    Big3(bs[..3]);
  }

  lemma Little2(bs: seq<Byte>)
    requires |bs| == 2
    ensures LittleValue(bs) == Num(bs[0]) + Num(bs[1]) * 256
  {
    assert LittleValue(bs[1..]) == Num(bs[1]);
  }

  lemma Little3(bs: seq<Byte>)
    requires |bs| == 3
    ensures LittleValue(bs) == Num(bs[0]) + Num(bs[1]) * 256 + Num(bs[2]) * 0x1_0000
  {
    Little2(bs[1..]);
  }

  lemma Little4(bs: seq<Byte>)
    requires |bs| == 4
    ensures LittleValue(bs) == Num(bs[0]) + Num(bs[1]) * 256 + Num(bs[2]) * 0x1_0000 + Num(bs[3]) * 0x100_0000
  {
    Little3(bs[1..]);
  }

  /** The bytes of an integer as shifts pick them out. */
  lemma Bytes2(v: nat)
    ensures BigEndian(2, v) == [AsByte(v / 256), AsByte(v)] && LittleEndian(2, v) == [AsByte(v), AsByte(v / 256)]
  {
    assert BigEndian(1, v / 256) == [AsByte(v / 256)] && LittleEndian(1, v / 256) == [AsByte(v / 256)];
  }

  lemma Bytes3(v: nat)
    ensures BigEndian(3, v) == [AsByte(v / 0x1_0000), AsByte(v / 256), AsByte(v)]
    ensures LittleEndian(3, v) == [AsByte(v), AsByte(v / 256), AsByte(v / 0x1_0000)]
  {
    Bytes2(v / 256);
    DivideTwice(v, 256, 256);
  }

  lemma Bytes4(v: nat)
    ensures BigEndian(4, v) == [AsByte(v / 0x100_0000), AsByte(v / 0x1_0000), AsByte(v / 256), AsByte(v)]
    ensures LittleEndian(4, v) == [AsByte(v), AsByte(v / 256), AsByte(v / 0x1_0000), AsByte(v / 0x100_0000)]
  {
    Bytes3(v / 256);
    DivideTwice(v, 256, 256);
    DivideTwice(v, 256, 0x1_0000);
  }

  lemma FourBytes()
    ensures Power(256, 4) == 0x1_0000_0000
  {
    assert Power(256, 2) == 0x1_0000;
    assert Power(256, 4) == 256 * (256 * Power(256, 2));
  }

  /** Eight bytes as two four-byte integers. */
  lemma Bytes8(v: nat)
    ensures var high, low := v / 0x1_0000_0000, v % 0x1_0000_0000;
            && BigEndian(8, v) == BigEndian(4, high) + BigEndian(4, low)
            && LittleEndian(8, v) == LittleEndian(4, low) + LittleEndian(4, high)
  {
    FourBytes();
    BytesSplit(4, 4, v);
    LowBytes(4, v);
  }

  // ---------- Items ----------

  type Positive = n: nat | n > 0 witness 1

  datatype Item =
    | Integer(big: bool, size: nat, value: nat)
    | Fixed(text: seq<Byte>, length: nat, pad: Byte)
    | Skip(n: nat)
    | Align(to: Positive)

  function Zeros(n: nat): (r: seq<Byte>)
    ensures |r| == n
  {
    Repeated(Byte(0), n)
  }

  /** How far an offset is from the next multiple. */
  function ToAlign(offset: nat, n: Positive): nat {
    if offset == 0 then 0 else if offset < n then n - offset else ToAlign(offset - n, n)
  }

  /** The text cut or filled to the length of the field. */
  function Field(text: seq<Byte>, length: nat, pad: Byte): (r: seq<Byte>)
    ensures |r| == length
  {
    if |text| >= length then text[..length] else text + Repeated(pad, length - |text|)
  }

  function Encoded(item: Item, offset: nat): seq<Byte> {
    match item
    case Integer(big, size, v) => if big then BigEndian(size, v) else LittleEndian(size, v)
    case Fixed(text, length, pad) => Field(text, length, pad)
    case Skip(n) => Zeros(n)
    case Align(n) => Zeros(ToAlign(offset, n))
  }

  datatype Value = Whole(n: nat) | Text(bytes: seq<Byte>) | Gap

  /** What an item reads back as. */
  function Back(item: Item): Value {
    match item
    case Integer(_, size, v) =>
      PowerPositive(256, size);
      Whole(v % Power(256, size))
    case Fixed(text, length, pad) => Text(Field(text, length, pad))
    case Skip(_) => Gap
    case Align(_) => Gap
  }

  /** How many bytes an item takes to read; what it was written with is not looked at. */
  function Needs(item: Item, offset: nat): nat {
    match item
    case Integer(_, size, _) => size
    case Fixed(_, length, _) => length
    case Skip(n) => n
    case Align(n) => ToAlign(offset, n)
  }

  function Decoded(item: Item, bytes: seq<Byte>): Value {
    match item
    case Integer(big, _, _) => Whole(if big then BigValue(bytes) else LittleValue(bytes))
    case Fixed(_, _, _) => Text(bytes)
    case _ => Gap
  }

  /** The integers a channel can read and write. */
  predicate Offered(item: Item) {
    item.Integer? ==> item.size in {2, 3, 4, 8}
  }

  const FORMAT := Codec(Encoded, Needs, Decoded, Back)

  lemma ItemBack(item: Item, offset: nat)
    ensures |Encoded(item, offset)| == Needs(item, offset) && Decoded(item, Encoded(item, offset)) == Back(item)
  {
    if item.Integer? {
      IntegerBack(item.size, item.value);
    }
  }

  lemma FormatIsFaithful()
    ensures Faithful(FORMAT)
  {
    forall item: Item, offset: nat
      ensures |FORMAT.enc(item, offset)| == FORMAT.needs(item, offset)
      ensures FORMAT.dec(item, FORMAT.enc(item, offset)) == FORMAT.back(item)
    {
      ItemBack(item, offset);
    }
  }

  /** For every list of integers, fixed fields, skips and alignments, mirrored reads return what was written and
      end where it ended; under a limit that ends with the record this fails exactly when the last item takes
      no bytes. */
  lemma FormatBackIff(items: seq<Item>, rest: seq<Byte>, limited: bool, offset: nat)
    ensures ReadRecord(FORMAT, items, Record(FORMAT, items, offset) + rest, limited, offset) ==
            if limited && rest == [] && EndsEmpty(FORMAT, items, offset) then Failed
            else Readout(Backs(FORMAT, items), rest)
  {
    FormatIsFaithful();
    RecordBackIff(FORMAT, items, rest, limited, offset);
  }

  /** The formula both sides use for the distance to the next multiple. */
  lemma {:induction false} AlignFormula(offset: nat, n: Positive)
    ensures n * ((offset + n - 1) / n) - offset == ToAlign(offset, n)
    decreases offset
  {
    if offset == 0 {
      DivideUnique(n - 1, n, 0, n - 1);
    } else if offset < n {
      DivideUnique(offset + n - 1, n, 1, offset - 1);
    } else {
      AlignFormula(offset - n, n);
      NextQuotient(offset - 1, n);
    }
  }

  lemma NextQuotient(v: nat, n: Positive)
    ensures (v + n) / n == v / n + 1 && n * (v / n + 1) == n * (v / n) + n
  {
    var q := v / n;
    Quotient(v, n);
    assert (q + 1) * n == q * n + n;
    DivideUnique(v + n, n, q + 1, v % n);
  }
}
