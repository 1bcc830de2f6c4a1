/** Writing to a channel (libs/chan/writer.cc, libs/chan/block-chan.cc, libs/chan/string-chan.cc): the same
    operations over a string that grows and over a block of fixed length. */
module ChannelWriters {
  import opened FlatBytes
  import opened Formats
  import opened Positional
  import opened Records
  import opened Sequences

  datatype Outcome = Ok | Thrown(message: string)

  lemma {:induction false} RepeatedStarts(b: Byte, k: nat, n: nat)
    requires k <= n
    ensures Repeated(b, k) <= Repeated(b, n)
  {
    if k < n {
      RepeatedStarts(b, k, n - 1);
    }
  }

  class Writer {
    /** The block written into; none for a string. */
    const block: array?<Byte>
    var text: seq<Byte>
    var offset: nat

    ghost predicate Valid()
      reads this
    {
      if block == null then offset == |text| else offset <= block.Length
    }

    /** Everything written. */
    ghost function Contents(): (s: seq<Byte>)
      requires Valid()
      reads this, block
      ensures |s| == offset
    {
      if block == null then text else block[..offset]
    }

    /** A block must have the room; a string always has. */
    predicate Fits(n: nat)
      reads this
    {
      block == null || offset + n <= block.Length
    }

    constructor ToString()
      ensures Valid() && block == null && Contents() == []
    {
      block, text, offset := null, [], 0;
    }

    constructor ToBlock(block: array<Byte>)
      ensures Valid() && this.block == block && Contents() == []
    {
      this.block, text, offset := block, [], 0;
    }

    /** What writing some bytes in one or more pieces comes to: all of them if they fit, else an exception after
        some first part of them. */
    twostate predicate Sent(bytes: seq<Byte>, o: Outcome)
      requires old(Valid()) && Valid()
      reads this, block
    {
      && (o.Ok? <==> old(Fits(|bytes|)))
      && (o.Ok? ==> Contents() == old(Contents()) + bytes)
      && (o.Thrown? ==> old(Contents()) <= Contents() <= old(Contents()) + bytes)
    }

    /** One write: all or nothing. */
    method BasicWrite(bytes: seq<Byte>) returns (o: Outcome)
      requires Valid()
      modifies this, block
      ensures Valid() && Sent(bytes, o) && (o.Thrown? ==> Contents() == old(Contents()))
    {
      if block == null {
        text := text + bytes;
        offset := offset + |bytes|;
        return Ok;
      }
      if |bytes| > block.Length - offset {
        return Thrown("Data block overflowed");
      }
      forall i | 0 <= i < |bytes| {
        block[offset + i] := bytes[i];
      }
      offset := offset + |bytes|;
      return Ok;
    }

    /** Most significant byte first, two bytes. */
    method WriteNbo16(i: nat) returns (o: Outcome)
      requires Valid()
      modifies this, block
      ensures Valid() && Sent(BigEndian(2, i), o)
    {
      Bytes2(i);
      var buf := [AsByte(i / 256), AsByte(i)];
      o := BasicWrite(buf);
    }

    /** Most significant byte first, three bytes. */
    method WriteNbo24(i: nat) returns (o: Outcome)
      requires Valid()
      modifies this, block
      ensures Valid() && Sent(BigEndian(3, i), o)
    {
      Bytes3(i);
      var buf := [AsByte(i / 0x1_0000), AsByte(i / 256), AsByte(i)];
      o := BasicWrite(buf);
    }

    /** Most significant byte first, four bytes. */
    method WriteNbo32(i: nat) returns (o: Outcome)
      requires Valid()
      modifies this, block
      ensures Valid() && Sent(BigEndian(4, i), o)
    {
      Bytes4(i);
      var buf := [AsByte(i / 0x100_0000), AsByte(i / 0x1_0000), AsByte(i / 256), AsByte(i)];
      o := BasicWrite(buf);
    }

    /** Least significant byte first, two bytes. */
    method WriteLe16(i: nat) returns (o: Outcome)
      requires Valid()
      modifies this, block
      ensures Valid() && Sent(LittleEndian(2, i), o)
    {
      Bytes2(i);
      var buf := [AsByte(i), AsByte(i / 256)];
      o := BasicWrite(buf);
    }

    /** Least significant byte first, three bytes. */
    method WriteLe24(i: nat) returns (o: Outcome)
      requires Valid()
      modifies this, block
      ensures Valid() && Sent(LittleEndian(3, i), o)
    {
      Bytes3(i);
      var buf := [AsByte(i), AsByte(i / 256), AsByte(i / 0x1_0000)];
      o := BasicWrite(buf);
    }

    /** Least significant byte first, four bytes. */
    method WriteLe32(i: nat) returns (o: Outcome)
      requires Valid()
      modifies this, block
      ensures Valid() && Sent(LittleEndian(4, i), o)
    {
      Bytes4(i);
      var buf := [AsByte(i), AsByte(i / 256), AsByte(i / 0x1_0000), AsByte(i / 0x100_0000)];
      o := BasicWrite(buf);
    }

    /** Most significant byte first, eight bytes as two halves. */
    method WriteNbo64(i: nat) returns (o: Outcome)
      requires Valid()
      modifies this, block
      ensures Valid() && Sent(BigEndian(8, i), o)
    {
      Bytes8(i);
      ghost var was, a, b := Contents(), BigEndian(4, i / 0x1_0000_0000), BigEndian(4, i % 0x1_0000_0000);
      Assoc(was, a, b);
      o := WriteNbo32(i / 0x1_0000_0000);
      if o.Ok? {
        o := WriteNbo32(i % 0x1_0000_0000);
      }
    }

    /** Least significant byte first, eight bytes as two halves. */
    method WriteLe64(i: nat) returns (o: Outcome)
      requires Valid()
      modifies this, block
      ensures Valid() && Sent(LittleEndian(8, i), o)
    {
      Bytes8(i);
      ghost var was, a, b := Contents(), LittleEndian(4, i % 0x1_0000_0000), LittleEndian(4, i / 0x1_0000_0000);
      Assoc(was, a, b);
      o := WriteLe32(i % 0x1_0000_0000);
      if o.Ok? {
        o := WriteLe32(i / 0x1_0000_0000);
      }
    }

    /** Padding, one byte at a time. */
    method WritePadding(n: nat, pad: Byte) returns (o: Outcome)
      requires Valid()
      modifies this, block
      ensures Valid() && Sent(Repeated(pad, n), o)
    {
      ghost var was := Contents();
      var k := 0;
      o := Ok;
      assert was + [] == was;
      while k < n
        invariant Valid() && o.Ok? && k <= n && old(Fits(k)) && Contents() == was + Repeated(pad, k)
      {
        Assoc(was, Repeated(pad, k), [pad]);
        RepeatedStarts(pad, k, n);
        o := BasicWrite([pad]);
        if o.Thrown? {
          return;
        }
        k := k + 1;
      }
    }

    /** A field of fixed length: the text cut, or followed by padding. */
    method WriteFixed(s: seq<Byte>, length: nat, pad: Byte) returns (o: Outcome)
      requires Valid()
      modifies this, block
      ensures Valid() && Sent(Field(s, length, pad), o)
    {
      var len := Min(length, |s|);
      ghost var padding := Repeated(pad, length - len);
      Assoc(Contents(), s[..len], padding);
      assert Field(s, length, pad) == s[..len] + padding;
      o := BasicWrite(s[..len]);
      if o.Ok? {
        o := WritePadding(length - len, pad);
      }
    }

    /** Zero bytes: a block checks for room, a string appends. */
    method Skip(n: nat) returns (o: Outcome)
      requires Valid()
      modifies this, block
      ensures Valid() && Sent(Zeros(n), o) && (o.Thrown? ==> Contents() == old(Contents()))
    {
      if block != null && offset + n > block.Length {
        return Thrown("Data block overflowed in skip");
      }
      o := BasicWrite(Zeros(n));
    }

    method AlignTo(n: Positive) returns (o: Outcome)
      requires Valid()
      modifies this, block
      ensures Valid() && Sent(Zeros(ToAlign(old(offset), n)), o)
    {
      AlignFormula(offset, n);
      o := Skip(n * ((offset + n - 1) / n) - offset);
    }

    /** Go back over what was written last. */
    method Rewind(n: nat) returns (o: Outcome)
      requires Valid()
      modifies this, block
      ensures Valid() && (o.Ok? <==> n <= old(offset))
      ensures Contents() == if o.Ok? then old(Contents())[..old(offset) - n] else old(Contents())
    {
      if n > offset {
        return Thrown("Rewound too far");
      }
      offset := offset - n;
      if block == null {
        text := text[..offset];
      }
      return Ok;
    }

    method WriteInteger(size: nat, big: bool, i: nat) returns (o: Outcome)
      requires Valid() && size in {2, 3, 4, 8}
      modifies this, block
      ensures Valid() && Sent(if big then BigEndian(size, i) else LittleEndian(size, i), o)
    {
      if big {
        match size
        case 2 => o := WriteNbo16(i);
        case 3 => o := WriteNbo24(i);
        case 4 => o := WriteNbo32(i);
        case _ => o := WriteNbo64(i);
      } else {
        match size
        case 2 => o := WriteLe16(i);
        case 3 => o := WriteLe24(i);
        case 4 => o := WriteLe32(i);
        case _ => o := WriteLe64(i);
      }
    }

    method WriteItem(item: Item) returns (o: Outcome)
      requires Valid() && Offered(item)
      modifies this, block
      ensures Valid() && Sent(Encoded(item, old(offset)), o)
    {
      match item
      case Integer(big, size, i) => o := WriteInteger(size, big, i);
      case Fixed(text, length, pad) => o := WriteFixed(text, length, pad);
      case Skip(n) => o := this.Skip(n);
      case Align(n) => o := AlignTo(n);
    }

    /** A whole record; what is written does not depend on whether it goes into a string or a block. */
    method WriteItems(items: seq<Item>) returns (o: Outcome)
      requires Valid() && forall item <- items :: Offered(item)
      modifies this, block
      ensures Valid() && Sent(Record(FORMAT, items, old(offset)), o)
      decreases |items|
    {
      ghost var was := Contents();
      if items == [] {
        assert was + [] == was;
        return Ok;
      }
      ghost var first := Encoded(items[0], offset);
      Assoc(was, first, Record(FORMAT, items[1..], offset + |first|));
      o := WriteItem(items[0]);
      if o.Ok? {
        o := WriteItems(items[1..]);
      }
    }
  }
}
