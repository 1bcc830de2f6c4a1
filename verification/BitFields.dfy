/** Fields of bits (libs/chan/bits.cc), and Exp-Golomb codes (section 9.1 of ITU-T H.264). */
module BitFields {
  import opened FlatBytes
  import opened Positional
  import opened Records
  import opened Sequences

  // ---------- Bytes as bits ----------

  function ByteBits(b: Byte): (bits: seq<nat>)
    ensures |bits| == 8
  {
    Digits(2, 8, Num(b))
  }

  function BitsIn(bytes: seq<Byte>): (bits: seq<nat>)
    ensures |bits| == 8 * |bytes|
  {
    if bytes == [] then [] else ByteBits(bytes[0]) + BitsIn(bytes[1..])
  }

  lemma {:induction false} BitsInSnoc(bytes: seq<Byte>, b: Byte)
    ensures BitsIn(bytes + [b]) == BitsIn(bytes) + ByteBits(b)
  {
    if bytes == [] {
      assert [b][1..] == [];
      assert ByteBits(b) + [] == ByteBits(b) == [] + ByteBits(b);
    } else {
      BitsInSnoc(bytes[1..], b);
      assert (bytes + [b])[1..] == bytes[1..] + [b];
      Assoc(ByteBits(bytes[0]), BitsIn(bytes[1..]), ByteBits(b));
    }
  }

  function Zeros(n: nat): (bits: seq<nat>)
    ensures |bits| == n && forall i | 0 <= i < n :: bits[i] == 0
  {
    seq(n, _ => 0)
  }

  lemma {:induction false} ZeroDigits(n: nat)
    ensures Digits(2, n, 0) == Zeros(n)
  {
    if n > 0 {
      ZeroDigits(n - 1);
    }
  }

  /** Moved up by some places. */
  function ShiftLeft(v: nat, n: nat): nat {
    if n == 0 then v else 2 * ShiftLeft(v, n - 1)
  }

  /** Bits moved up and filled with zeros. */
  lemma {:induction false} Shifted(k: nat, m: nat, v: nat)
    ensures Digits(2, k + m, ShiftLeft(v, m)) == Digits(2, k, v) + Zeros(m)
    ensures v < Power(2, k) ==> ShiftLeft(v, m) < Power(2, k + m)
    decreases m
  {
    if m == 0 {
      assert Digits(2, k, v) + Zeros(0) == Digits(2, k, v);
    } else {
      Shifted(k, m - 1, v);
      Assoc(Digits(2, k, v), Zeros(m - 1), [0]);
      assert Zeros(m) == Zeros(m - 1) + [0];
    }
  }

  lemma {:induction false} ShiftLeftAdds(a: nat, bit: nat, n: nat)
    ensures ShiftLeft(2 * a + bit, n) == ShiftLeft(a, n + 1) + ShiftLeft(bit, n)
  {
    if n > 0 {
      ShiftLeftAdds(a, bit, n - 1);
    }
  }

  lemma {:induction false} ShiftedOne(n: nat)
    ensures ShiftLeft(1, n) == Power(2, n) && Power(2, n) > 0
  {
    if n > 0 {
      ShiftedOne(n - 1);
    }
  }

  /** The highest of some bits. */
  lemma HighestBit(n: nat, v: nat)
    requires n > 0
    ensures Power(2, n - 1) > 0 && Digits(2, n, v) == [v / Power(2, n - 1) % 2] + Digits(2, n - 1, v)
  {
    DigitsSplit(2, 1, n - 1, v);
    var high := v / Power(2, n - 1);
    assert Digits(2, 0, high / 2) == [];
  }

  /** Moved down by some places. */
  function ShiftRight(v: nat, n: nat): nat {
    if n == 0 then v else ShiftRight(v, n - 1) / 2
  }

  lemma {:induction false} ShiftRightIs(v: nat, n: nat)
    ensures Power(2, n) > 0 && ShiftRight(v, n) == v / Power(2, n)
  {
    PowerPositive(2, n);
    if n > 0 {
      ShiftRightIs(v, n - 1);
      DivideTwice(v, Power(2, n - 1), 2);
    }
  }

  lemma HighestBitShifted(n: nat, v: nat)
    requires n > 0
    ensures Digits(2, n, v) == [ShiftRight(v, n - 1) % 2] + Digits(2, n - 1, v)
  {
    HighestBit(n, v);
    ShiftRightIs(v, n - 1);
  }

  lemma {:induction false} PowerGrows(j: nat, k: nat)
    requires j <= k
    ensures 0 < Power(2, j) <= Power(2, k)
  {
    PowerPositive(2, j);
    if j < k {
      PowerGrows(j, k - 1);
    }
  }

  // ---------- Fields ----------

  datatype BitField = BitField(width: nat, value: nat)

  function FieldBits(f: BitField, offset: nat): seq<nat> {
    Digits(2, f.width, f.value)
  }

  function FieldWidth(f: BitField, offset: nat): nat {
    f.width
  }

  function FieldRead(f: BitField, bits: seq<nat>): nat {
    Number(2, bits)
  }

  /** A value cut to the width of its field. */
  function FieldValue(f: BitField): nat {
    PowerPositive(2, f.width);
    f.value % Power(2, f.width)
  }

  const BITS := Codec(FieldBits, FieldWidth, FieldRead, FieldValue)

  lemma BitsAreFaithful()
    ensures Faithful(BITS)
  {
    forall f: BitField, offset: nat
      ensures |BITS.enc(f, offset)| == BITS.needs(f, offset)
      ensures BITS.dec(f, BITS.enc(f, offset)) == BITS.back(f)
    {
      NumberDigits(2, f.width, f.value);
    }
  }

  /** Fields written one after another, whatever bits follow, read back with the same widths. */
  lemma FieldsBack(fields: seq<BitField>, rest: seq<nat>)
    ensures ReadRecord(BITS, fields, Record(BITS, fields, 0) + rest, false, 0) == Readout(Backs(BITS, fields), rest)
  {
    BitsAreFaithful();
    RecordBackIff(BITS, fields, rest, false, 0);
  }

  // ---------- Exp-Golomb ----------

  /** How many zeros come first. */
  function LeadingZeros(bits: seq<nat>): (n: nat)
    ensures n <= |bits|
  {
    if bits != [] && bits[0] == 0 then 1 + LeadingZeros(bits[1..]) else 0
  }

  lemma {:induction false} ZerosLead(bits: seq<nat>)
    ensures var z := LeadingZeros(bits); bits[..z] == Zeros(z) && (z < |bits| ==> bits[z] != 0)
  {
    if bits != [] && bits[0] == 0 {
      ZerosLead(bits[1..]);
    }
  }

  lemma {:induction false} OneThen(tail: seq<nat>)
    ensures Number(2, [1] + tail) == Power(2, |tail|) + Number(2, tail)
    decreases |tail|
  {
    if tail == [] {
      assert [1] + tail == [1] && [1][..0] == [];
    } else {
      var n := |tail| - 1;
      OneThen(tail[..n]);
      assert ([1] + tail)[..n + 1] == [1] + tail[..n];
    }
  }

  /** A number whose highest bit is one. */
  lemma NumberFromOne(bits: seq<nat>)
    requires AreDigits(2, bits) && bits != [] && bits[0] == 1
    ensures var p := Power(2, |bits| - 1); 0 < p <= Number(2, bits) < 2 * p && Number(2, bits) == p + Number(2, bits[1..])
  {
    OneThen(bits[1..]);
    assert [1] + bits[1..] == bits;
    PowerPositive(2, |bits| - 1);
    NumberBelow(2, bits);
  }

  lemma CodedNumber(bits: seq<nat>, z: nat, coded: seq<nat>)
    requires AreDigits(2, bits) && z == LeadingZeros(bits) && 2 * z + 1 <= |bits| && coded == bits[z..2 * z + 1]
    ensures coded[0] == 1 && 0 < Power(2, z) <= Number(2, coded) < 2 * Power(2, z) && AreDigits(2, coded)
    ensures Number(2, coded) == Power(2, z) + Number(2, bits[z + 1..][..z])
  {
    ZerosLead(bits);
    assert coded[0] == bits[z] && coded[1..] == bits[z + 1..][..z];
    NumberFromOne(coded);
  }

  datatype Code = Code(value: nat, rest: seq<nat>) | Incomplete

  /** As many bits after the first one as there are zeros before it; all of them, with the one, are the value
      plus one. */
  function ReadCode(bits: seq<nat>): Code
    requires AreDigits(2, bits)
  {
    var z := LeadingZeros(bits);
    if 2 * z + 1 > |bits| then Incomplete
    else
      var coded := bits[z..2 * z + 1];
      CodedNumber(bits, z, coded);
      Code(Number(2, coded) - 1, bits[2 * z + 1..])
  }

  /** The highest power of two not above a positive number. */
  function Log2(n: nat): (k: nat)
    requires n > 0
  {
    if n == 1 then 0 else 1 + Log2(n / 2)
  }

  function CodeOf(v: nat): (bits: seq<nat>) {
    Zeros(Log2(v + 1)) + Digits(2, Log2(v + 1) + 1, v + 1)
  }

  lemma {:induction false} Log2Is(n: nat)
    requires n > 0
    ensures Power(2, Log2(n)) <= n < 2 * Power(2, Log2(n))
  {
    if n > 1 {
      Log2Is(n / 2);
    }
  }

  lemma {:induction false} LeadingZerosIs(z: nat, bits: seq<nat>)
    requires bits != [] && bits[0] != 0
    ensures LeadingZeros(Zeros(z) + bits) == z
  {
    if z > 0 {
      assert (Zeros(z) + bits)[1..] == Zeros(z - 1) + bits;
      LeadingZerosIs(z - 1, bits);
    } else {
      EmptyLeft(bits);
    }
  }

  /** The digits of a number from its highest one. */
  lemma HighestIsOne(n: nat)
    requires n > 0
    ensures Digits(2, Log2(n) + 1, n)[0] == 1 && Number(2, Digits(2, Log2(n) + 1, n)) == n
  {
    var z := Log2(n);
    Log2Is(n);
    PowerPositive(2, z);
    HighestBit(z + 1, n);
    DivideUnique(n, Power(2, z), 1, n - Power(2, z));
    NumberDigits(2, z + 1, n);
    DivideUnique(n, Power(2, z + 1), 0, n);
  }

  lemma CodeAhead(z: nat, high: seq<nat>, rest: seq<nat>)
    requires |high| == z + 1 && high[0] == 1 && AreDigits(2, high) && AreDigits(2, rest)
    ensures var bits := Zeros(z) + high + rest;
            && AreDigits(2, bits) && LeadingZeros(bits) == z && |bits| >= 2 * z + 1
            && bits[z..2 * z + 1] == high && bits[2 * z + 1..] == rest
  {
    LeadingZerosIs(z, high + rest);
    Assoc(Zeros(z), high, rest);
  }

  /** Every value reads back from its code, and takes exactly the bits of the code. */
  lemma CodeBack(v: nat, rest: seq<nat>)
    requires AreDigits(2, rest)
    ensures AreDigits(2, CodeOf(v) + rest) && ReadCode(CodeOf(v) + rest) == Code(v, rest)
  {
    HighestIsOne(v + 1);
    CodeAhead(Log2(v + 1), Digits(2, Log2(v + 1) + 1, v + 1), rest);
  }

  lemma {:induction false} Log2Unique(n: nat, z: nat)
    requires 0 < Power(2, z) <= n < 2 * Power(2, z)
    ensures Log2(n) == z
  {
    if z > 0 {
      PowerPositive(2, z - 1);
      Log2Unique(n / 2, z - 1);
    }
  }

  lemma Pieces(bits: seq<nat>, i: nat, j: nat)
    requires i <= j <= |bits|
    ensures bits == bits[..i] + bits[i..j] + bits[j..]
  {
  }

  lemma CodeOfIs(n: nat, z: nat, coded: seq<nat>)
    requires 0 < Power(2, z) <= n < 2 * Power(2, z) && AreDigits(2, coded) && |coded| == z + 1 && Number(2, coded) == n
    ensures CodeOf(n - 1) == Zeros(z) + coded
  {
    Log2Unique(n, z);
    DigitsNumber(2, coded);
  }

  /** Nothing else reads back as a value: what is read starts with the code of what is returned. */
  lemma CodeOnly(bits: seq<nat>)
    requires AreDigits(2, bits) && ReadCode(bits).Code?
    ensures bits == CodeOf(ReadCode(bits).value) + ReadCode(bits).rest
  {
    var z := LeadingZeros(bits);
    var coded := bits[z..2 * z + 1];
    ZerosLead(bits);
    CodedNumber(bits, z, coded);
    CodeOfIs(Number(2, coded), z, coded);
    assert ReadCode(bits) == Code(Number(2, coded) - 1, bits[2 * z + 1..]);
    Pieces(bits, z, 2 * z + 1);
  }

  /** The value as its parts give it. */
  lemma CodeRead(bits: seq<nat>, z: nat)
    requires AreDigits(2, bits) && z == LeadingZeros(bits) && 2 * z + 1 <= |bits|
    ensures ShiftLeft(1, z) > 0
    ensures ReadCode(bits) == Code(Number(2, bits[z + 1..][..z]) + ShiftLeft(1, z) - 1, bits[z + 1..][z..])
  {
    ShiftedOne(z);
    CodedNumber(bits, z, bits[z..2 * z + 1]);
    assert bits[z + 1..][z..] == bits[2 * z + 1..];
  }

  /** Codes one after another. */
  function CodesOf(vs: seq<nat>): seq<nat> {
    if vs == [] then [] else CodeOf(vs[0]) + CodesOf(vs[1..])
  }

  lemma {:induction false} CodesAreDigits(vs: seq<nat>, rest: seq<nat>)
    requires AreDigits(2, rest)
    ensures AreDigits(2, CodesOf(vs) + rest)
    decreases |vs|
  {
    if vs != [] {
      CodesAreDigits(vs[1..], rest);
      CodeBack(vs[0], CodesOf(vs[1..]) + rest);
      Assoc(CodeOf(vs[0]), CodesOf(vs[1..]), rest);
    } else {
      EmptyLeft(rest);
    }
  }

  /** The values below two to the power 31, less one, are those whose code starts with at most 30 zeros. */
  lemma ShortCodes(v: nat)
    ensures v < 0x7FFF_FFFF <==> Log2(v + 1) <= 30
  {
    ThirtyTwos();
    Log2Is(v + 1);
    if Log2(v + 1) <= 30 {
      PowerGrows(Log2(v + 1), 30);
    } else {
      PowerGrows(31, Log2(v + 1));
    }
  }

  /** A code that is read starts with at most 30 zeros exactly when its value is that small. */
  lemma ShortCodeRead(bits: seq<nat>)
    requires AreDigits(2, bits) && ReadCode(bits).Code?
    ensures LeadingZeros(bits) <= 30 <==> ReadCode(bits).value < 0x7FFF_FFFF
  {
    var z := LeadingZeros(bits);
    CodedNumber(bits, z, bits[z..2 * z + 1]);
    Log2Unique(ReadCode(bits).value + 1, z);
    ShortCodes(ReadCode(bits).value);
  }

  lemma SixteenTwos()
    ensures Power(2, 16) == 0x1_0000
  {
    EightTwos();
    assert Power(2, 12) == 16 * Power(2, 8);
    assert Power(2, 16) == 16 * Power(2, 12);
  }

  lemma ThirtyTwos()
    ensures Power(2, 30) == 0x4000_0000 && Power(2, 31) == 0x8000_0000
  {
    SixteenTwos();
    assert Power(2, 20) == 16 * Power(2, 16);
    assert Power(2, 24) == 16 * Power(2, 20);
    assert Power(2, 28) == 16 * Power(2, 24);
    assert Power(2, 30) == 4 * Power(2, 28);
  }
}
