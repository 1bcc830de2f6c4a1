/** The bit writer and readers (libs/chan/bits.cc): a byte being filled or emptied one bit at a time over a
    channel. */
module BitChannels {
  import opened BitFields
  import opened ChannelReaders
  import W = ChannelWriters
  import opened FlatBytes
  import opened Positional
  import opened Records
  import opened Sequences

  /** A bit added at the low end of some bits. */
  lemma BitAdded(before: seq<nat>, k: nat, current: nat, bit: nat)
    requires current < Power(2, k) && bit < 2
    ensures 2 * current + bit < Power(2, k + 1)
    ensures before + Digits(2, k + 1, 2 * current + bit) == before + Digits(2, k, current) + [bit]
  {
    Assoc(before, Digits(2, k, current), [bit]);
  }

  /** A full byte. */
  lemma FullByte(current: nat)
    requires current < Power(2, 8)
    ensures ByteBits(AsByte(current)) == Digits(2, 8, current)
  {
    EightTwos();
    DigitBack(current);
  }

  class BitWriter {
    const writer: W.Writer
    var bitsValid: nat
    var currentByte: nat

    ghost predicate Valid()
      reads this, writer, writer.block
    {
      writer.Valid() && bitsValid < 8 && currentByte < Power(2, bitsValid)
    }

    /** Every bit written so far. */
    ghost function Bits(): seq<nat>
      requires Valid()
      reads this, writer, writer.block
    {
      BitsIn(writer.Contents()) + Digits(2, bitsValid, currentByte)
    }

    constructor (writer: W.Writer)
      requires writer.Valid()
      ensures this.writer == writer && Valid() && Bits() == BitsIn(writer.Contents())
    {
      this.writer, bitsValid, currentByte := writer, 0, 0;
      new;
      assert BitsIn(writer.Contents()) + [] == BitsIn(writer.Contents());
    }

    ghost function Count(): nat
      reads this, writer
    {
      8 * writer.offset + bitsValid
    }

    /** Room for the whole bytes that so many bits come to. */
    ghost predicate Fits(n: nat)
      reads this, writer
    {
      writer.block == null || Count() + n < 8 * writer.block.Length + 8
    }

    /** Add a bit to the byte being filled, and write the byte out when it is full. */
    method WriteBit(bit: nat) returns (o: W.Outcome)
      requires Valid()
      modifies this, writer, writer.block
      ensures o.Ok? <==> old(Fits(1))
      ensures o.Ok? ==> Valid() && Bits() == old(Bits()) + [bit % 2] && Count() == old(Count()) + 1
    {
      ghost var goal := Bits() + [bit % 2];
      AddBit(bit % 2);
      o := W.Ok;
      if bitsValid == 8 {
        o := WriteFull(goal);
      }
    }

    method AddBit(low: nat)
      requires Valid() && low < 2
      modifies this`bitsValid, this`currentByte
      ensures bitsValid == old(bitsValid) + 1 && currentByte < Power(2, bitsValid)
      ensures BitsIn(writer.Contents()) + Digits(2, bitsValid, currentByte) == old(Bits()) + [low]
    {
      BitAdded(BitsIn(writer.Contents()), bitsValid, currentByte, low);
      currentByte := 2 * currentByte + low;
      bitsValid := bitsValid + 1;
    }

    method WriteFull(ghost goal: seq<nat>) returns (o: W.Outcome)
      requires writer.Valid() && bitsValid == 8 && currentByte < Power(2, 8)
      requires goal == BitsIn(writer.Contents()) + Digits(2, 8, currentByte)
      modifies this, writer, writer.block
      ensures o.Ok? <==> old(writer.Fits(1))
      ensures o.Ok? ==> Valid() && bitsValid == 0 && writer.offset == old(writer.offset) + 1 && Bits() == goal
    {
      FullByte(currentByte);
      BitsInSnoc(writer.Contents(), AsByte(currentByte));
      o := WriteByte();
    }

    /** Write the low `n` bits of a number, highest first. */
    method WriteBits(n: nat, bits: nat) returns (o: W.Outcome)
      requires Valid() && n <= 32
      modifies this, writer, writer.block
      ensures o.Ok? <==> old(Fits(n))
      ensures o.Ok? ==> Valid() && Bits() == old(Bits()) + Digits(2, n, bits) && Count() == old(Count()) + n
    {
      var left: nat := n;
      o := W.Ok;
      ghost var was := Bits();
      assert was + [] == was;
      while left > 0
        invariant left <= n && Valid() && o.Ok? && Count() == old(Count()) + n - left && (left < n ==> old(Fits(n - left)))
        invariant Bits() == was + Digits(2, n - left, ShiftRight(bits, left))
      {
        left := left - 1;
        OneMoreBit(was, n - left - 1, left, bits);
        o := WriteBit(ShiftRight(bits, left));
        if o.Thrown? {
          return;
        }
      }
    }

    /** Write out what is left as a last byte, filled up with zeros. */
    method Flush() returns (o: W.Outcome)
      requires Valid()
      modifies this, writer, writer.block
      ensures o.Ok? <==> old(bitsValid) == 0 || old(writer.Fits(1))
      ensures o.Ok? ==> Valid() && bitsValid == 0 && Bits() == BitsIn(writer.Contents())
      ensures o.Ok? ==> Bits() == old(Bits()) + Zeros(if old(bitsValid) == 0 then 0 else 8 - old(bitsValid))
    {
      if bitsValid == 0 {
        NothingAdded(BitsIn(writer.Contents()));
        return W.Ok;
      }
      o := WriteLast(8 - bitsValid, Bits());
    }

    method WriteLast(m: nat, ghost bits: seq<nat>) returns (o: W.Outcome)
      requires Valid() && bitsValid + m == 8 && bits == Bits()
      modifies this, writer, writer.block
      ensures o.Ok? <==> old(writer.Fits(1))
      ensures o.Ok? ==> Valid() && bitsValid == 0 && Bits() == BitsIn(writer.Contents()) && Bits() == bits + Zeros(m)
    {
      FlushedByte(writer.Contents(), bitsValid, m, currentByte);
      currentByte := ShiftLeft(currentByte, m);
      o := WriteByte();
    }

    /** Write out the byte and start another. */
    method WriteByte() returns (o: W.Outcome)
      requires writer.Valid()
      modifies this, writer, writer.block
      ensures o.Ok? <==> old(writer.Fits(1))
      ensures o.Ok? ==> writer.Valid() && writer.Contents() == old(writer.Contents()) + [AsByte(old(currentByte))]
      ensures o.Ok? ==> Valid() && bitsValid == 0 && Bits() == BitsIn(writer.Contents())
    {
      o := writer.BasicWrite([AsByte(currentByte)]);
      if o.Ok? {
        bitsValid, currentByte := 0, 0;
        NothingAdded(BitsIn(writer.Contents()));
      }
    }

    /** Write fields one after another. */
    method WriteFields(fields: seq<BitField>) returns (o: W.Outcome)
      requires Valid() && writer.block == null && forall f <- fields :: f.width <= 32
      modifies this, writer
      ensures o.Ok? && Valid() && Bits() == old(Bits()) + Record(BITS, fields, 0)
      decreases |fields|
    {
      ghost var was := Bits();
      if fields == [] {
        assert was + [] == was;
        return W.Ok;
      }
      ghost var first := Digits(2, fields[0].width, fields[0].value);
      RecordAnywhere(fields[1..], |first|, 0);
      Assoc(was, first, Record(BITS, fields[1..], 0));
      o := WriteBits(fields[0].width, fields[0].value);
      o := WriteFields(fields[1..]);
    }
  }

  /** The bits of a number from its highest down to one more place. */
  lemma OneMoreBit(was: seq<nat>, k: nat, left: nat, v: nat)
    ensures was + Digits(2, k + 1, ShiftRight(v, left)) ==
            was + Digits(2, k, ShiftRight(v, left + 1)) + [ShiftRight(v, left) % 2]
  {
    Assoc(was, Digits(2, k, ShiftRight(v, left + 1)), [ShiftRight(v, left) % 2]);
  }

  lemma NothingAdded(bits: seq<nat>)
    ensures bits + [] == bits && bits + Zeros(0) == bits
  {
  }

  /** The bits left over, moved to the top of a byte. */
  lemma FlushedByte(bytes: seq<Byte>, k: nat, m: nat, current: nat)
    requires k + m == 8 && current < Power(2, k)
    ensures BitsIn(bytes + [AsByte(ShiftLeft(current, m))]) == BitsIn(bytes) + Digits(2, k, current) + Zeros(m)
  {
    Shifted(k, m, current);
    FullByte(ShiftLeft(current, m));
    BitsInSnoc(bytes, AsByte(ShiftLeft(current, m)));
    Assoc(BitsIn(bytes), Digits(2, k, current), Zeros(m));
  }

  /** Bit fields do not depend on where they start. */
  lemma {:induction false} RecordAnywhere(fields: seq<BitField>, a: nat, b: nat)
    ensures Record(BITS, fields, a) == Record(BITS, fields, b)
    decreases |fields|
  {
    if fields != [] {
      RecordAnywhere(fields[1..], a + fields[0].width, b + fields[0].width);
    }
  }

  lemma {:induction false} NoBits(n: nat)
    ensures ShiftLeft(0, n) == 0
  {
    if n > 0 {
      NoBits(n - 1);
    }
  }

  /** The sum with one more bit at its place. */
  lemma PlacedNext(bits: seq<nat>, k: nat, i: nat)
    requires k < |bits|
    ensures ShiftLeft(Number(2, bits[..k + 1]), i) == ShiftLeft(Number(2, bits[..k]), i + 1) + ShiftLeft(bits[k], i)
  {
    assert bits[..k + 1][..k] == bits[..k];
    ShiftLeftAdds(Number(2, bits[..k]), bits[k], i);
  }

  lemma {:induction false} ReadAnywhere(fields: seq<BitField>, left: seq<nat>, a: nat, b: nat)
    ensures ReadRecord(BITS, fields, left, false, a) == ReadRecord(BITS, fields, left, false, b)
    decreases |fields|
  {
    if fields != [] && fields[0].width <= |left| {
      ReadAnywhere(fields[1..], left[fields[0].width..], a + fields[0].width, b + fields[0].width);
    }
  }

  /** A value, an exception at the end, or shifts past the width of the source's integers, where nothing is
      promised. */
  datatype CodeValue = Value(value: nat) | Missing | Overflow

  class BitReader {
    const reader: Reader
    var bitsValid: nat
    var currentByte: nat

    ghost predicate Valid()
      reads this, reader, reader.repr
    {
      reader.Valid() && bitsValid <= 8
    }

    /** Every bit still to read. */
    ghost function Left(): (bits: seq<nat>)
      requires Valid()
      reads this, reader, reader.repr
      ensures AreDigits(2, bits)
    {
      BitsAreDigits(reader.Left());
      Digits(2, bitsValid, currentByte) + BitsIn(reader.Left())
    }

    constructor (reader: Reader)
      requires reader.Valid()
      ensures this.reader == reader && Valid() && Left() == BitsIn(reader.Left())
    {
      this.reader, bitsValid, currentByte := reader, 0, 0;
      new;
      EmptyLeft(BitsIn(reader.Left()));
    }

    /** The next bit, or an exception at the end. */
    method ReadBit() returns (r: Got<nat>)
      requires Valid()
      modifies this, reader.repr
      ensures Valid() && !r.AtEnd? && (r.Got? <==> old(Left()) != [])
      ensures if r.Got? then r.value == old(Left())[0] && Left() == old(Left())[1..] else Left() == []
    {
      ghost var all := Left();
      if bitsValid == 0 {
        var thrown := Fill(all);
        if thrown {
          return Thrown("EOF");
        }
      }
      r := TakeBit(all);
    }

    /** Read another byte. */
    method Fill(ghost all: seq<nat>) returns (thrown: bool)
      requires Valid() && bitsValid == 0 && all == Left()
      modifies this, reader.repr
      ensures Valid() && Left() == all && (thrown <==> all == []) && (!thrown ==> bitsValid == 8)
    {
      ghost var bytes := reader.Left();
      EmptyLeft(BitsIn(bytes));
      var got := reader.Read(1);
      if !got.Got? {
        EmptyLeft(BitsIn(reader.Left()));
        return true;
      }
      currentByte := Num(got.value[0]);
      bitsValid := 8;
      return false;
    }

    method TakeBit(ghost all: seq<nat>) returns (r: Got<nat>)
      requires Valid() && bitsValid > 0 && all == Left()
      modifies this
      ensures Valid() && all != [] && r == Got(all[0]) && Left() == all[1..]
    {
      HighestBitShifted(bitsValid, currentByte);
      bitsValid := bitsValid - 1;
      var bit := ShiftRight(currentByte, bitsValid) % 2;
      Assoc([bit], Digits(2, bitsValid, currentByte), BitsIn(reader.Left()));
      DropLeft([bit], Left());
      r := Got(bit);
    }

    /** Read up to 32 bits as a number. */
    method ReadBits(n: nat) returns (r: Got<nat>)
      requires Valid() && n <= 32
      modifies this, reader.repr
      ensures Valid() && !r.AtEnd? && (r.Got? <==> n <= |old(Left())|)
      ensures if r.Got? then r.value == Number(2, old(Left())[..n]) && Left() == old(Left())[n..] else Left() == []
    {
      ghost var all := Left();
      var bits, done := 0, 0;
      while done < n
        invariant Valid() && done <= n && done <= |all| && Left() == all[done..] && bits == Number(2, all[..done])
      {
        var bit := ReadBit();
        if bit.Thrown? {
          return Thrown(bit.message);
        }
        assert all[..done + 1][..done] == all[..done];
        bits := 2 * bits + bit.value;
        done := done + 1;
      }
      return Got(bits);
    }

    /** Pass over zeros and the one after them. */
    method CountZeros(ghost all: seq<nat>) returns (r: Got<nat>)
      requires Valid() && all == Left()
      modifies this, reader.repr
      ensures Valid() && !r.AtEnd? && (r.Got? <==> LeadingZeros(all) < |all|)
      ensures if r.Got? then r.value == LeadingZeros(all) && Left() == all[r.value + 1..] else Left() == []
    {
      ZerosLead(all);
      assert forall k | 0 <= k < LeadingZeros(all) :: all[..LeadingZeros(all)][k] == all[k] == 0;
      var len := 0;
      var bit := ReadBit();
      while bit.Got? && bit.value == 0
        invariant Valid() && !bit.AtEnd? && 0 <= len <= LeadingZeros(all)
        invariant if bit.Got? then len < |all| && bit.value == all[len] && Left() == all[len + 1..] else len == |all| && Left() == []
        decreases |all| - len
      {
        assert len < LeadingZeros(all);
        len := len + 1;
        bit := ReadBit();
      }
      if bit.Thrown? {
        return Thrown(bit.message);
      }
      r := Got(len);
    }

    /** Add one more bit at its place. */
    method AddPlaced(value: nat, i: nat, ghost all: seq<nat>, ghost k: nat) returns (thrown: bool, sum: nat)
      requires Valid() && k <= |all| && Left() == all[k..] && value == ShiftLeft(Number(2, all[..k]), i + 1)
      modifies this, reader.repr
      ensures Valid() && (thrown <==> k == |all|)
      ensures if thrown then Left() == [] else Left() == all[k + 1..] && sum == ShiftLeft(Number(2, all[..k + 1]), i)
    {
      sum := 0;
      var bit := ReadBit();
      thrown := bit.Thrown?;
      if !thrown {
        PlacedNext(all, k, i);
        sum := value + ShiftLeft(bit.value, i);
      }
    }

    /** Add up bits, each at its place. */
    method AddBits(len: nat, ghost all: seq<nat>) returns (r: Got<nat>)
      requires Valid() && all == Left()
      modifies this, reader.repr
      ensures Valid() && !r.AtEnd? && (r.Got? <==> len <= |all|)
      ensures if r.Got? then r.value == Number(2, all[..len]) && Left() == all[len..] else Left() == []
    {
      var value, i: nat := 0, len;
      ghost var k: nat := 0;
      NoBits(len);
      while i > 0
        invariant i + k == len && k <= |all| && Valid() && Left() == all[k..]
        invariant value == ShiftLeft(Number(2, all[..k]), i)
      {
        i := i - 1;
        var thrown;
        thrown, value := AddPlaced(value, i, all, k);
        if thrown {
          return Thrown("EOF");
        }
        k := k + 1;
      }
      return Got(value);
    }

    /** An Exp-Golomb code: zeros, a one, and as many bits as there were zeros.  The value is read back exactly when
        at most 30 zeros lead, which is when it is below two to the power 31, less one. */
    method ReadExpGolomb() returns (r: CodeValue)
      requires Valid()
      modifies this, reader.repr
      ensures Valid()
      ensures r.Overflow? <==> LeadingZeros(old(Left())) < |old(Left())| && LeadingZeros(old(Left())) > 30
      ensures r.Value? <==> ReadCode(old(Left())).Code? && ReadCode(old(Left())).value < 0x7FFF_FFFF
      ensures r.Value? ==> ReadCode(old(Left())) == Code(r.value, Left())
      ensures r.Missing? ==> Left() == []
    {
      ghost var all := Left();
      if ReadCode(all).Code? {
        ShortCodeRead(all);
      }
      var zeros := CountZeros(all);
      if zeros.Thrown? {
        return Missing;
      }
      var len := zeros.value;
      if len > 30 {
        return Overflow;
      }
      var bits := AddBits(len, Left());
      if bits.Thrown? {
        return Missing;
      }
      CodeRead(all, len);
      return Value(bits.value + ShiftLeft(1, len) - 1);
    }

    /** Read fields of the given widths one after another. */
    method ReadFields(fields: seq<BitField>) returns (r: Got<seq<nat>>)
      requires Valid() && forall f <- fields :: f.width <= 32
      modifies this, reader.repr
      ensures Valid()
      ensures match ReadRecord(BITS, fields, old(Left()), false, 0)
              case Failed => r.Thrown?
              case Readout(vs, rest) => r == Got(vs) && Left() == rest
      decreases |fields|
    {
      if fields == [] {
        return Got([]);
      }
      var first := ReadBits(fields[0].width);
      if first.Thrown? {
        return Thrown(first.message);
      }
      ReadAnywhere(fields[1..], Left(), fields[0].width, 0);
      var others := ReadFields(fields[1..]);
      r := if others.Got? then Got([first.value] + others.value) else Thrown("EOF");
    }
  }

  lemma {:induction false} BitsAreDigits(bytes: seq<Byte>)
    ensures AreDigits(2, BitsIn(bytes))
  {
    if bytes != [] {
      BitsAreDigits(bytes[1..]);
    }
  }
}
