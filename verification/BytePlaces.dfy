/** What is written on a channel, place by place: which byte, and which bit. */
module BytePlaces {
  import opened BitFields
  import opened FlatBytes
  import F = Formats
  import opened Positional
  import opened Sequences

  // ---------- Digits ----------

  /** The digit in a place, counted from the highest. */
  lemma {:induction false} DigitAt(base: nat, n: nat, v: nat, i: nat)
    requires base > 0 && i < n
    ensures Power(base, n - 1 - i) > 0 && Digits(base, n, v)[i] == v / Power(base, n - 1 - i) % base
  {
    PowerPositive(base, n - 1 - i);
    if i < n - 1 {
      DigitAt(base, n - 1, v / base, i);
      PowerDivide(v, base, n - 1 - i);
    }
  }

  // ---------- Integers, fields and gaps ----------

  /** The highest byte first. */
  lemma {:induction false} BigByteAt(size: nat, v: nat, i: nat)
    requires i < size
    ensures Power(256, size - 1 - i) > 0 && F.BigEndian(size, v)[i] == AsByte(v / Power(256, size - 1 - i))
  {
    PowerPositive(256, size - 1 - i);
    if i < size - 1 {
      BigByteAt(size - 1, v / 256, i);
      PowerDivide(v, 256, size - 1 - i);
    }
  }

  /** The lowest byte first. */
  lemma {:induction false} LittleByteAt(size: nat, v: nat, i: nat)
    requires i < size
    ensures Power(256, i) > 0 && F.LittleEndian(size, v)[i] == AsByte(v / Power(256, i))
  {
    PowerPositive(256, i);
    if i > 0 {
      LittleByteAt(size - 1, v / 256, i - 1);
      PowerDivide(v, 256, i);
    }
  }

  /** Each byte of an item: of an integer, highest or lowest first; of a field, the text and then the padding; of a gap or
      an alignment, zero. */
  lemma ItemByteAt(item: F.Item, offset: nat, i: nat)
    requires i < F.Needs(item, offset)
    ensures |F.Encoded(item, offset)| == F.Needs(item, offset)
    ensures item.Integer? ==>
              var p := Power(256, if item.big then item.size - 1 - i else i);
              p > 0 && Num(F.Encoded(item, offset)[i]) == item.value / p % 256
    ensures item.Fixed? ==> F.Encoded(item, offset)[i] == if i < |item.text| then item.text[i] else item.pad
    ensures item.Skip? || item.Align? ==> F.Encoded(item, offset)[i] == Byte(0)
  {
    if item.Integer? {
      BigByteAt(item.size, item.value, i);
      LittleByteAt(item.size, item.value, i);
    }
  }

  /** An integer that fits its bytes, and a text as long as its field, come back as they are. */
  lemma BackAsItIs(item: F.Item)
    ensures item.Integer? && item.value < Power(256, item.size) ==> F.Back(item) == F.Whole(item.value)
    ensures item.Fixed? && |item.text| == item.length ==> F.Back(item) == F.Text(item.text)
  {
    if item.Integer? && item.value < Power(256, item.size) {
      DivideUnique(item.value, Power(256, item.size), 0, item.value);
    }
  }

  // ---------- Bits ----------

  /** The bits of bytes: byte by byte, the highest first. */
  lemma {:induction false} BitAt(bytes: seq<Byte>, j: nat, i: nat)
    requires j < |bytes| && i < 8
    ensures Power(2, 7 - i) > 0 && BitsIn(bytes)[8 * j + i] == Num(bytes[j]) / Power(2, 7 - i) % 2
  {
    DigitAt(2, 8, Num(bytes[j]), i);
    if j > 0 {
      BitAt(bytes[1..], j - 1, i);
    }
  }

  /** The bits of fields: the low bits of each, the highest first. */
  lemma FieldBitAt(f: BitField, i: nat)
    requires i < f.width
    ensures |FieldBits(f, 0)| == f.width
    ensures Power(2, f.width - 1 - i) > 0 && FieldBits(f, 0)[i] == f.value / Power(2, f.width - 1 - i) % 2
  {
    DigitAt(2, f.width, f.value, i);
  }

  /** An Exp-Golomb code: the value plus one in binary, and before it a zero for each bit but the first. */
  lemma CodeIs(v: nat, k: nat, i: nat)
    requires Power(2, k) <= v + 1 < Power(2, k + 1) && i <= k
    ensures |CodeOf(v)| == 2 * k + 1
    ensures i < k ==> CodeOf(v)[i] == 0
    ensures Power(2, k - i) > 0 && CodeOf(v)[k + i] == (v + 1) / Power(2, k - i) % 2
  {
    PowerPositive(2, k);
    Log2Unique(v + 1, k);
    DigitAt(2, k + 1, v + 1, i);
  }
}
