/** The gather buffer (libs/gather): an array of segments, each a view of a block of bytes that the
    segment may own.

    Every operation is stated on the flat bytes behind the segments, and where it matters on the segments
    as well.  The blocks are values held in their segments. */
module GatherBuffers {
  import opened Sequences
  import opened FlatBytes

  /** Which allocated block a segment owns, if it owns one. */
  datatype Owner = Nobody | Block(id: nat)

  /** A segment is a plain record that lives in the buffer's array: the block it points into, and the
      unconsumed part of it. */
  datatype Segment = Segment(owned: Owner, data: seq<Byte>, start: nat, length: nat) {
    predicate Ok() {
      start + length <= |data|
    }

    function View(): seq<Byte>
      requires Ok()
    {
      data[start..start + length]
    }

    /** Consume `n` bytes from the beginning. */
    function Consume(n: nat): Segment
      requires n <= length
    {
      this.(start := start + n, length := length - n)
    }

    /** Reset to length zero, freeing any owned block. */
    function Reset(): Segment {
      EMPTY
    }

    /** Write bytes through the data pointer. */
    function Put(from: nat, bytes: seq<Byte>): (r: Segment)
      requires Ok() && from + |bytes| <= length
      ensures r.Ok() && r.length == length && r.View() == View()[..from] + bytes + View()[from + |bytes|..]
    {
      var at := start + from;
      PutView(data, start, length, from, bytes);
      this.(data := data[..at] + bytes + data[at + |bytes|..])
    }

    /** A copy with its own block, when the segment owns one.  The bytes are taken from the start of the
        owned block, not from the unconsumed part. */
    function DeepCopy(id: nat): (r: Segment)
      requires Ok()
      ensures r.Ok() && (CopiesRight() ==> r.View() == View())
    {
      if owned == Nobody then this else Segment(Block(id), data[..length], 0, length)
    }

    predicate CopiesRight() {
      owned == Nobody || start == 0 || length == 0
    }

    /** What is left when the segment has been taken: its view, but not its block. */
    function Taken(): Segment {
      this.(owned := Nobody)
    }
  }

  lemma PutView(data: seq<Byte>, start: nat, length: nat, from: nat, bytes: seq<Byte>)
    requires start + length <= |data| && from + |bytes| <= length
    ensures var at := start + from; var view := data[start..start + length];
            (data[..at] + bytes + data[at + |bytes|..])[start..start + length] == view[..from] + bytes + view[from + |bytes|..]
  {
    var view := data[start..start + length];
    PutInMiddle(data[..start], view, data[start + length..], from, bytes);
    TakeWithin(data, start, length, from);
    DropWithin(data, start, length, from + |bytes|);
  }

  lemma TakeWithin<T>(data: seq<T>, start: nat, length: nat, n: nat)
    requires start + length <= |data| && n <= length
    ensures data[..start + n] == data[..start] + data[start..start + length][..n]
  {
    SliceOfSlice(data, start, start + length, 0, n);
    assert data[..start + n] == data[..start] + data[start..start + n];
  }

  lemma DropWithin<T>(data: seq<T>, start: nat, length: nat, n: nat)
    requires start + length <= |data| && n <= length
    ensures data[start + n..] == data[start..start + length][n..] + data[start + length..]
  {
    SliceOfSlice(data, start, start + length, n, length);
    assert data[start + n..] == data[start + n..start + length] + data[start + length..];
  }

  lemma PutInMiddle(before: seq<Byte>, view: seq<Byte>, after: seq<Byte>, from: nat, bytes: seq<Byte>)
    requires from + |bytes| <= |view|
    ensures (before + view[..from] + bytes + (view[from + |bytes|..] + after))[|before|..|before| + |view|] ==
            view[..from] + bytes + view[from + |bytes|..]
  {
  }

  /** A deep copy shows the same bytes, whatever they are, exactly when nothing has been consumed of an
      owned block. */
  lemma DeepCopyIsRightIff(s: Segment, id: nat)
    requires s.Ok()
    ensures (forall data: seq<Byte> | |data| == |s.data| :: s.(data := data).DeepCopy(id).View() == s.(data := data).View())
            <==> s.CopiesRight()
  {
    if !s.CopiesRight() {
      var data := seq(|s.data|, k requires 0 <= k < |s.data| => if k < s.start then Byte(0) else Byte(1));
      assert s.(data := data).DeepCopy(id).View()[0] == Byte(0);
      assert s.(data := data).View()[0] == Byte(1);
    }
  }

  const EMPTY := Segment(Nobody, [], 0, 0)

  predicate AllOk(segments: seq<Segment>) {
    forall i :: 0 <= i < |segments| ==> segments[i].Ok()
  }

  function Views(segments: seq<Segment>): (v: seq<seq<Byte>>)
    requires AllOk(segments)
    ensures |v| == |segments| && forall i :: 0 <= i < |v| ==> v[i] == segments[i].View()
  {
    seq(|segments|, i requires 0 <= i < |segments| => segments[i].View())
  }

  lemma ViewsConcat(a: seq<Segment>, b: seq<Segment>)
    requires AllOk(a) && AllOk(b)
    ensures AllOk(a + b) && Views(a + b) == Views(a) + Views(b)
  {
  }

  class Buffer {
    var size: nat
    var count: nat
    var segments: array<Segment>

    constructor (size: nat)
      ensures Valid() && fresh(segments) && this.size == size && count == 0 && Bytes() == []
    {
      this.size, count := size, 0;
      segments := new Segment[size](_ => EMPTY);
    }

    predicate Valid()
      reads this, segments
    {
      && segments.Length == size && count <= size
      && AllOk(segments[..count])
    }

    function Chunks(): seq<seq<Byte>>
      requires Valid()
      reads this, segments
    {
      Views(segments[..count])
    }

    /** The flat bytes of the buffer. */
    function Bytes(): seq<Byte>
      requires Valid()
      reads this, segments
    {
      Flat(Chunks())
    }

    method GetLength() returns (total: nat)
      requires Valid()
      ensures total == |Bytes()|
    {
      total := 0;
      for i := 0 to count
        invariant total == Before(Chunks(), i)
      {
        FlatSnoc(Chunks(), i);
        assert |Chunks()[i]| == segments[i].length;
        total := total + segments[i].length;
      }
      assert Chunks()[..count] == Chunks();
    }

    /** Resize the segment array.  A size below the count aborts the program. */
    method Resize(newSize: nat)
      requires count <= size == segments.Length && newSize >= count
      modifies this, segments
      ensures size == newSize == segments.Length && fresh(segments) && count == old(count)
      ensures segments[..count] == old(segments[..count])
    {
      var bigger := new Segment[newSize](_ => EMPTY);
      var was := segments[..count];
      for i := 0 to count
        invariant segments == old(segments) && count == old(count) && size == old(size)
        invariant bigger[..i] == was[..i]
        invariant segments[i..count] == was[i..]
      {
        bigger[i] := segments[i];
        segments[i] := segments[i].Taken();
      }
      segments := bigger;
      size := newSize;
    }

    /** Add a segment at the end, taking its block; the caller's segment keeps its view but owns nothing. */
    method Add(segment: Segment) returns (left: Segment)
      requires Valid() && segment.Ok()
      modifies this, segments
      ensures Valid() && (segments == old(segments) || fresh(segments))
      ensures segments[..count] == old(segments[..count]) + [segment] && left == segment.Taken()
      ensures Bytes() == old(Bytes()) + segment.View()
    {
      ghost var was := segments[..count];
      left := AddCell(segment);
      SpliceBytes(was, segment, |was|);
      assert was[..|was|] + [segment] + was[|was|..] == was + [segment];
      assert Views(was)[..|was|] == Views(was);
    }

    method AddCell(segment: Segment) returns (left: Segment)
      requires count <= size == segments.Length
      modifies this, segments
      ensures count <= size == segments.Length && (segments == old(segments) || fresh(segments))
      ensures segments[..count] == old(segments[..count]) + [segment] && left == segment.Taken()
    {
      MakeRoom();
      segments[count] := segment;
      left := segment.Taken();
      count := count + 1;
    }

    /** Insert a segment at an index; an index past the count aborts the program. */
    method Insert(segment: Segment, pos: nat) returns (left: Segment)
      requires Valid() && segment.Ok() && pos <= count
      modifies this, segments
      ensures Valid() && (segments == old(segments) || fresh(segments))
      ensures segments[..count] == old(segments[..pos]) + [segment] + old(segments[pos..count])
      ensures left == segment.Taken()
      ensures var at := old(Before(Chunks(), pos));
        at <= |old(Bytes())| && Bytes() == old(Bytes())[..at] + segment.View() + old(Bytes())[at..]
    {
      ghost var was := segments[..count];
      left := InsertCell(segment, pos);
      SpliceBytes(was, segment, pos);
    }

    method InsertCell(segment: Segment, pos: nat) returns (left: Segment)
      requires pos <= count <= size == segments.Length
      modifies this, segments
      ensures count <= size == segments.Length && (segments == old(segments) || fresh(segments))
      ensures segments[..count] == old(segments[..count])[..pos] + [segment] + old(segments[..count])[pos..]
      ensures left == segment.Taken()
    {
      ghost var was := segments[..count];
      MakeRoom();
      ShiftUp(pos);
      segments[pos] := segment;
      left := segment.Taken();
      count := count + 1;
      InsertedIs(was, segment, pos, segments[..count]);
    }

    /** Room for one more segment. */
    method MakeRoom()
      requires count <= size == segments.Length
      modifies this, segments
      ensures count == old(count) < size == segments.Length && (segments == old(segments) || fresh(segments))
      ensures segments[..count] == old(segments[..count])
    {
      if count >= size {
        Resize(if size > 0 then size * 2 else 1);
      }
    }

    lemma InsertedIs(was: seq<Segment>, segment: Segment, pos: nat, now: seq<Segment>)
      requires pos <= |was| && |now| == |was| + 1 && now[pos] == segment
      requires (forall k | 0 <= k < pos :: now[k] == was[k]) && forall k | pos < k < |now| :: now[k] == was[k - 1]
      ensures now == was[..pos] + [segment] + was[pos..]
    {
      assert now[..pos] == was[..pos] && now[pos + 1..] == was[pos..];
      assert now == now[..pos] + [now[pos]] + now[pos + 1..];
    }

    /** Move the segments from `pos` on up by one. */
    method ShiftUp(pos: nat)
      requires pos <= count < segments.Length
      modifies segments
      ensures forall k :: 0 <= k < pos ==> segments[k] == old(segments[k])
      ensures forall k :: pos < k <= count ==> segments[k] == old(segments[k - 1])
    {
      var i := count;
      while i > pos
        invariant pos <= i <= count
        invariant forall k :: 0 <= k < i ==> segments[k] == old(segments[k])
        invariant forall k :: i < k <= count ==> segments[k] == old(segments[k - 1])
      {
        segments[i] := segments[i - 1];
        segments[i - 1] := segments[i - 1].Taken();
        i := i - 1;
      }
    }

    lemma SpliceBytes(was: seq<Segment>, segment: Segment, pos: nat)
      requires AllOk(was) && segment.Ok() && pos <= |was|
      ensures AllOk(was[..pos] + [segment] + was[pos..])
      ensures var bytes := Flat(Views(was)); var at := Before(Views(was), pos);
        && at <= |bytes|
        && Flat(Views(was[..pos] + [segment] + was[pos..])) == bytes[..at] + segment.View() + bytes[at..]
    {
      var a, b := was[..pos], was[pos..];
      ViewsConcat(a, [segment]);
      ViewsConcat(a + [segment], b);
      FlatConcat(Views(a), Views([segment]));
      FlatConcat(Views(a + [segment]), Views(b));
      assert Views([segment]) == [segment.View()];
      FlatOne(segment.View());
      FlatSplit(Views(was), pos);
      assert Views(was)[..pos] == Views(a) && Views(was)[pos..] == Views(b);
    }

    /** Consume bytes from the front. */
    method Consume(n: nat)
      requires Valid()
      modifies segments
      ensures Valid() && Bytes() == old(Bytes())[Min(n, |old(Bytes())|)..]
    {
      ghost var chunks := Chunks();
      var left: nat := n;
      var i := 0;
      assert chunks[..0] == [];
      while i < count
        invariant i <= count && Valid()
        invariant forall k :: 0 <= k < i ==> segments[k].length == 0
        invariant forall k :: i <= k < count ==> segments[k] == old(segments[k])
        invariant Before(chunks, i) + left == n
      {
        var segment := segments[i];
        FlatSnoc(chunks, i);
        assert |chunks[i]| == segment.length;
        if segment.length > left {
          ConsumePart(i, left, chunks);
          return;
        }
        left := left - segment.length;
        if segment.length > 0 {
          segments[i] := segment.Reset();
        }
        i := i + 1;
      }
      assert chunks[..count] == chunks;
      EmptyBytes();
    }

    lemma EmptyBytes()
      requires Valid() && forall k :: 0 <= k < count ==> segments[k].length == 0
      ensures Bytes() == []
    {
      AllEmpty(Chunks());
    }

    /** Consume the first `n` bytes of segment `i`, those before it being empty by now. */
    method ConsumePart(i: nat, n: nat, ghost chunks: seq<seq<Byte>>)
      requires Valid() && i < count == |chunks| && n < segments[i].length
      requires forall k :: 0 <= k < i ==> segments[k].length == 0
      requires forall k :: i <= k < count ==> segments[k].View() == chunks[k]
      modifies segments
      ensures Valid() && Before(chunks, i) + n <= |Flat(chunks)| && Bytes() == Flat(chunks)[Before(chunks, i) + n..]
    {
      segments[i] := segments[i].Consume(n);
      DroppedChunks(chunks, Chunks(), i, n);
    }

    /** Limit the buffer to at most `length` bytes; returns how many are left. */
    method Limit(length: nat) returns (total: nat)
      requires Valid()
      modifies this`count, segments
      ensures Valid() && total == Min(length, |old(Bytes())|) && Bytes() == old(Bytes())[..total]
    {
      ghost var was, chunks := segments[..count], Chunks();
      var i;
      i, total := Shorten(length);
      ghost var now := segments[..count];
      if i < |was| {
        LimitedViews(was, now, i, now[i].length);
      } else {
        assert now[..Min(i + 1, |was|)] == was && Flat(chunks)[..|Flat(chunks)|] == Flat(chunks);
      }
      ghost var kept := Views(now[..Min(i + 1, |was|)]);
      CutAfter(i);
      assert Chunks() == kept;
    }

    /** Find the segment that reaches the limit, and shorten it. */
    method Shorten(length: nat) returns (i: nat, total: nat)
      requires Valid()
      modifies segments
      ensures i <= count && (i == count > 0 ==> total < length)
      ensures total == if i < count then length else |old(Bytes())|
      ensures i < count ==> var kept := total - Before(old(Chunks()), i);
        && 0 <= kept <= old(segments[i]).length
        && segments[..count] == old(segments[..count])[i := old(segments[i]).(length := kept)]
      ensures i == count ==> segments[..count] == old(segments[..count])
    {
      ghost var chunks := Chunks();
      total := 0;
      i := 0;
      while i < count
        invariant i <= count && segments[..] == old(segments[..])
        invariant total == Before(chunks, i) && (i > 0 ==> total < length)
      {
        FlatSnoc(chunks, i);
        assert |chunks[i]| == segments[i].length;
        total := total + segments[i].length;
        if total >= length {
          segments[i] := segments[i].(length := segments[i].length - (total - length));
          total := length;
          return;
        }
        i := i + 1;
      }
      assert chunks[..count] == chunks;
    }

    /** Drop the segments after segment `last`. */
    method CutAfter(last: nat)
      requires Valid()
      modifies this`count, segments
      ensures Valid() && segments[..count] == old(segments[..count])[..Min(last + 1, old(count))]
    {
      ghost var was := segments[..count];
      var i := last + 1;
      DestroyFrom(i);
      if i < count {
        count := i;
      }
      assert segments[..count] == was[..Min(last + 1, |was|)];
    }

    /** Free the blocks of the segments from `i` on. */
    method DestroyFrom(i: nat)
      requires count <= segments.Length
      modifies segments
      ensures forall k :: 0 <= k < count ==> segments[k] == if k < i then old(segments[k]) else old(segments[k]).Taken()
    {
      var j := i;
      while j < count
        invariant i <= j && forall k :: 0 <= k < i && k < count ==> segments[k] == old(segments[k])
        invariant forall k :: i <= k < count ==> segments[k] == if k < j then old(segments[k]).Taken() else old(segments[k])
      {
        segments[j] := segments[j].Taken();
        j := j + 1;
      }
    }

    /** Overwrite part of one segment's bytes. */
    method Overwrite(i: nat, from: nat, bytes: seq<Byte>)
      requires Valid() && i < count && from + |bytes| <= segments[i].length
      modifies segments
      ensures Valid() && |Bytes()| == |old(Bytes())|
      ensures Before(Chunks(), i + 1) == old(Before(Chunks(), i + 1))
      ensures var p, n := old(Before(Chunks(), i)) + from, |bytes|;
        p + n <= |old(Bytes())| && Bytes() == old(Bytes())[..p] + bytes + old(Bytes())[p + n..]
    {
      ghost var was := segments[..count];
      ghost var put := segments[i].Put(from, bytes);
      segments[i] := segments[i].Put(from, bytes);
      assert segments[..count] == was[i := put];
      PutChunk(was, i, from, bytes, put);
    }

    /** Copy at most `len` bytes from `offset` on to a contiguous block. */
    method Copy(dest: array<Byte>, offset: nat, len: nat) returns (read: nat)
      requires Valid() && len <= dest.Length
      modifies dest
      ensures read == |Slice(Bytes(), offset, len)| <= len
      ensures dest[..read] == Slice(Bytes(), offset, len) && dest[read..] == old(dest[read..])
    {
      var gather := 0;
      read := 0;
      ghost var chunks, prefix := Chunks(), [];
      var i := 0;
      while i < count
        invariant i <= count && prefix == Flat(chunks[..i]) && gather == |prefix|
        invariant read == |Slice(prefix, offset, len)| <= len
        invariant dest[..read] == Slice(prefix, offset, len) && dest[read..] == old(dest[read..])
      {
        FlatSnoc(chunks, i);
        var segment := segments[i];
        assert segment.View() == chunks[i];
        i := i + 1;
        if offset < gather + segment.length {
          var start := if gather > offset then 0 else offset - gather;
          read := CopyPart(segment, start, dest, offset, len, read, prefix);
          prefix := Flat(chunks[..i]);
          if read >= len {
            break;
          }
        } else {
          SliceBeyond(prefix, offset, len);
          prefix := Flat(chunks[..i]);
          SliceBeyond(prefix, offset, len);
        }
        gather := gather + segment.length;
      }
      PrefixFills(chunks, i, prefix, offset, len);
    }

    /** Add references to a run of bytes of another buffer. */
    method AddRun(buffer: Buffer, offset: nat, len: nat)
      requires Valid() && buffer.Valid() && buffer != this && buffer.segments != segments
      modifies this, segments
      ensures Valid() && (segments == old(segments) || fresh(segments))
      ensures Bytes() == old(Bytes()) + Slice(buffer.Bytes(), offset, len)
    {
      ghost var chunks, was, prefix := buffer.Chunks(), Bytes(), [];
      var gather, read: nat := 0, 0;
      var i := 0;
      while i < buffer.count
        invariant buffer.Valid() && i <= buffer.count && buffer.Chunks() == chunks
        invariant prefix == Flat(chunks[..i]) && gather == |prefix|
        invariant read == |Slice(prefix, offset, len)| <= len
        invariant Valid() && buffer.segments != segments && (segments == old(segments) || fresh(segments))
        invariant Bytes() == was + Slice(prefix, offset, len)
      {
        FlatSnoc(chunks, i);
        var segment := buffer.segments[i];
        i := i + 1;
        if offset < gather + segment.length {
          read := AddRunPart(segment, gather, offset, len, read, prefix, was);
          prefix := Flat(chunks[..i]);
          if read >= len {
            break;
          }
        } else {
          NotYet(prefix, segment.View(), offset, len);
          prefix := Flat(chunks[..i]);
        }
        gather := gather + segment.length;
      }
      PrefixFills(chunks, i, prefix, offset, len);
    }

    method AddRunPart(segment: Segment, gather: nat, offset: nat, len: nat, done: nat, ghost prefix: seq<Byte>, ghost was: seq<Byte>)
      returns (read: nat)
      requires Valid() && segment.Ok() && gather == |prefix| && offset < gather + segment.length
      requires done == |Slice(prefix, offset, len)| <= len && Bytes() == was + Slice(prefix, offset, len)
      modifies this, segments
      ensures Valid() && (segments == old(segments) || fresh(segments))
      ensures read == |Slice(prefix + segment.View(), offset, len)| <= len
      ensures Bytes() == was + Slice(prefix + segment.View(), offset, len)
    {
      var start := if gather > offset then 0 else offset - gather;
      var toRead := len - done;
      if toRead > segment.length - start {
        toRead := segment.length - start;
      }
      SliceSnoc(prefix, segment.View(), offset, len);
      Assoc(was, Slice(prefix, offset, len), segment.View()[start..start + toRead]);
      AddPart(segment, start, toRead);
      read := done + toRead;
    }

    /** Add all of another buffer, copying owned blocks into new ones. */
    method AddAll(buffer: Buffer, newBlock: nat)
      requires Valid() && buffer.Valid() && buffer != this && buffer.segments != segments
      modifies this, segments
      ensures Valid() && (segments == old(segments) || fresh(segments))
      ensures (forall k :: 0 <= k < buffer.count ==> buffer.segments[k].CopiesRight()) ==>
        Bytes() == old(Bytes()) + buffer.Bytes()
    {
      ghost var chunks, was := buffer.Chunks(), Bytes();
      ghost var right := forall k :: 0 <= k < buffer.count ==> buffer.segments[k].CopiesRight();
      assert was + Flat(chunks[..0]) == was;
      for i := 0 to buffer.count
        invariant buffer.Valid() && buffer.Chunks() == chunks && i <= buffer.count == old(buffer.count)
        invariant Valid() && buffer.segments != segments && (segments == old(segments) || fresh(segments))
        invariant right ==> Bytes() == was + Flat(chunks[..i])
      {
        var segment := buffer.segments[i];
        FlatSnoc(chunks, i);
        Assoc(was, Flat(chunks[..i]), segment.View());
        var _ := Add(segment.DeepCopy(newBlock + i));
      }
      assert chunks[..buffer.count] == chunks;
    }

    method AddPart(segment: Segment, from: nat, n: nat)
      requires Valid() && segment.Ok() && from + n <= segment.length
      modifies this, segments
      ensures Valid() && (segments == old(segments) || fresh(segments))
      ensures Bytes() == old(Bytes()) + segment.View()[from..from + n]
    {
      var part := Segment(Nobody, segment.data, segment.start + from, n);
      SliceOfSlice(segment.data, segment.start, segment.start + segment.length, from, from + n);
      var _ := Add(part);
    }

    method OverwriteSpliced(i: nat, from: nat, bytes: seq<Byte>, ghost p: nat, ghost after: seq<Byte>)
      requires Valid() && i < count && from + |bytes| <= segments[i].length && p == Before(Chunks(), i) + from
      requires p + |bytes| <= |Bytes()| && after == Bytes()[..p] + bytes + Bytes()[p + |bytes|..]
      modifies segments
      ensures Valid() && Bytes() == after && Before(Chunks(), i + 1) == old(Before(Chunks(), i + 1))
    {
      Overwrite(i, from, bytes);
    }

    /** Overwrite bytes that exist already, stopping at the end of the buffer. */
    method Replace(offset: nat, buf: seq<Byte>, length: nat)
      requires Valid() && length <= |buf|
      modifies segments
      ensures Valid() && Bytes() == Replaced(old(Bytes()), offset, buf, |Slice(old(Bytes()), offset, length)|)
    {
      ReplacedNone(Bytes(), offset, buf);
      var i, left := Locate(offset);
      if i < count {
        if left + length < segments[i].length {
          var part := buf[..length];
          SplicedOn(Bytes(), Bytes(), buf, offset, 0, length, part);
          OverwriteSpliced(i, left, part, offset, Replaced(Bytes(), offset, buf, length));
        } else {
          ReplaceFrom(i, left, offset, buf, length, Bytes());
        }
      }
    }

    /** Find the segment an offset falls in, and the offset within it. */
    method Locate(offset: nat) returns (i: nat, left: nat)
      requires Valid()
      ensures if offset < |Bytes()| then i < count && left < segments[i].length && offset == Before(Chunks(), i) + left
              else i == count
      ensures i < count ==> Before(Chunks(), i) + segments[i].length <= |Bytes()|
    {
      left := offset;
      i := 0;
      while i < count
        invariant i <= count && Before(Chunks(), i) + left == offset
      {
        FlatSnoc(Chunks(), i);
        BeforeGrows(Chunks(), i + 1, count);
        if left < segments[i].length {
          return;
        }
        left := left - segments[i].length;
        i := i + 1;
      }
      assert Chunks()[..count] == Chunks();
    }

    /** A replacement that runs to the end of segment `first` or over several segments. */
    method ReplaceFrom(first: nat, from: nat, offset: nat, buf: seq<Byte>, length: nat, ghost bytes: seq<Byte>)
      requires Valid() && first < count && length <= |buf| && bytes == Bytes()
      requires from < segments[first].length <= from + length && offset == Before(Chunks(), first) + from
      modifies segments
      ensures Valid() && Bytes() == Replaced(bytes, offset, buf, |Slice(bytes, offset, length)|)
    {
      var copied, i, at := 0, first, from;
      PartFits(Chunks(), first, from, 0);
      ReplacedNone(bytes, offset, buf);
      while copied < length && i < count
        invariant first <= i <= count && Valid() && copied <= length && |Bytes()| == |bytes|
        invariant offset + copied <= |bytes| && Bytes() == Replaced(bytes, offset, buf, copied)
        invariant at == if i == first then from else 0
        invariant copied < length ==> offset + copied == Before(Chunks(), i) + at && (i < count ==> at <= segments[i].length)
      {
        copied := ReplacePart(i, at, offset, buf, copied, length, bytes);
        i, at := i + 1, 0;
      }
      if copied < length {
        assert Chunks()[..count] == Chunks();
      }
      AllCopied(bytes, offset, length, copied);
    }

    /** Replace as much as one segment takes. */
    method ReplacePart(i: nat, from: nat, offset: nat, buf: seq<Byte>, done: nat, length: nat, ghost bytes: seq<Byte>)
      returns (copied: nat)
      requires Valid() && i < count && from <= segments[i].length && done <= length <= |buf|
      requires offset + done == Before(Chunks(), i) + from && |Bytes()| == |bytes|
      requires offset + done <= |bytes| && Bytes() == Replaced(bytes, offset, buf, done)
      modifies segments
      ensures Valid() && count == old(count) && |Bytes()| == |bytes|
      ensures done <= copied <= length && offset + copied <= |bytes| && Bytes() == Replaced(bytes, offset, buf, copied)
      ensures copied < length ==> offset + copied == Before(Chunks(), i + 1)
    {
      var needed := length - done;
      if needed > segments[i].length - from {
        needed := segments[i].length - from;
      }
      PartFits(Chunks(), i, from, needed);
      copied := done + needed;
      OverwriteReplaced(i, from, offset, buf, done, copied, bytes);
    }

    /** Put the bytes of `buf` from `done` to `to` where they belong in segment `i`. */
    method OverwriteReplaced(i: nat, from: nat, offset: nat, buf: seq<Byte>, done: nat, to: nat, ghost bytes: seq<Byte>)
      requires Valid() && i < count && done <= to <= |buf| && from + to - done <= segments[i].length
      requires offset + done == Before(Chunks(), i) + from && offset + to <= |Bytes()| == |bytes|
      requires Bytes() == Replaced(bytes, offset, buf, done)
      modifies segments
      ensures Valid() && |Bytes()| == |bytes| && Bytes() == Replaced(bytes, offset, buf, to)
      ensures Before(Chunks(), i + 1) == old(Before(Chunks(), i + 1))
    {
      var part := buf[done..to];
      SplicedOn(Bytes(), bytes, buf, offset, done, to, part);
      OverwriteSpliced(i, from, part, offset + done, Replaced(bytes, offset, buf, to));
    }

    /** A pointer to `length` flat bytes: into a segment, or into the caller's block after copying. */
    method GetFlatData(offset: nat, length: nat, temp: array<Byte>) returns (p: Pointer)
      requires Valid() && length <= temp.Length
      modifies temp
      ensures CanPoint(p, length)
      ensures p.Nowhere? ==> length == 0 || offset + length > |Bytes()|
      ensures !p.Nowhere? ==> offset + length <= |Bytes()| && Pointed(p, temp, length) == Bytes()[offset..offset + length]
      ensures p.InSegment? ==> temp[..] == old(temp[..])
    {
      if count == 1 {
        assert Chunks() == [segments[0].View()];
        FlatOne(segments[0].View());
        if offset + length > segments[0].length {
          return Nowhere;
        }
        return InSegment(0, offset);
      }
      p := GetFlatDataMulti(offset, length, temp);
    }

    predicate CanPoint(p: Pointer, n: nat)
      reads this, segments
    {
      Valid() && (p.InSegment? ==> p.i < count && p.at + n <= segments[p.i].length)
    }

    function Pointed(p: Pointer, temp: array<Byte>, n: nat): seq<Byte>
      requires CanPoint(p, n) && n <= temp.Length
      reads this, segments, temp
    {
      match p
      case Nowhere => []
      case InSegment(i, at) => segments[i].View()[at..at + n]
      case InTemp => temp[..n]
    }

    method GetFlatDataMulti(offset: nat, length: nat, temp: array<Byte>) returns (p: Pointer)
      requires Valid() && length <= temp.Length
      modifies temp
      ensures CanPoint(p, length)
      ensures p.Nowhere? <==> offset >= |Bytes()| || offset + length > |Bytes()|
      ensures !p.Nowhere? ==> offset + length <= |Bytes()| && Pointed(p, temp, length) == Bytes()[offset..offset + length]
      ensures p.InSegment? ==> temp[..] == old(temp[..])
    {
      var i, left := Locate(offset);
      if i < count {
        if left + length < segments[i].length {
          ChunkInFlat(Chunks(), i, left, left + length);
          return InSegment(i, left);
        }
        p := Flatten(i, left, offset, length, temp);
      } else {
        p := Nowhere;
      }
    }

    /** Flatten several segments into the caller's block, failing at the end of the buffer. */
    method Flatten(first: nat, from: nat, offset: nat, length: nat, temp: array<Byte>) returns (p: Pointer)
      requires Valid() && first < count && length <= temp.Length
      requires from < segments[first].length <= from + length && offset == Before(Chunks(), first) + from
      modifies temp
      ensures if offset + length > |Bytes()| then p == Nowhere
              else p == InTemp && temp[..length] == Bytes()[offset..offset + length]
    {
      var copied: nat, i: nat := 0, first;
      ChunkInFlat(Chunks(), first, from, segments[first].length);
      while copied < length
        invariant first <= i <= count && copied <= length && offset + copied <= |Bytes()|
        invariant if i == first then copied == 0 else copied < length ==> offset + copied == Before(Chunks(), i)
        invariant temp[..copied] == Bytes()[offset..offset + copied]
        decreases count - i
      {
        if i >= count {
          assert Chunks()[..count] == Chunks();
          return Nowhere;
        }
        copied := FlattenPart(i, if i == first then from else 0, offset, copied, length, temp);
        i := i + 1;
      }
      p := InTemp;
    }

    method FlattenPart(i: nat, from: nat, offset: nat, done: nat, length: nat, temp: array<Byte>) returns (copied: nat)
      requires Valid() && i < count && from <= segments[i].length && done <= length <= temp.Length
      requires offset + done == Before(Chunks(), i) + from
      requires offset + done <= |Bytes()| && temp[..done] == Bytes()[offset..offset + done]
      modifies temp
      ensures copied == done + Min(length - done, segments[i].length - from) && offset + copied <= |Bytes()|
      ensures copied < length ==> offset + copied == Before(Chunks(), i + 1)
      ensures temp[..copied] == Bytes()[offset..offset + copied]
    {
      var needed := length - done;
      if needed > segments[i].length - from {
        needed := segments[i].length - from;
      }
      FlattensOn(Chunks(), i, from, offset, done, needed);
      PutBytes(temp, done, segments[i].View()[from..from + needed]);
      copied := done + needed;
    }

    lemma FlattensOn(chunks: seq<seq<Byte>>, i: nat, from: nat, offset: nat, done: nat, needed: nat)
      requires i < |chunks| && from + needed <= |chunks[i]| && offset + done == Before(chunks, i) + from
      ensures var bytes, to := Flat(chunks), offset + done + needed;
        && to <= |bytes| && bytes[offset..offset + done] + chunks[i][from..from + needed] == bytes[offset..to]
        && (from + needed == |chunks[i]| ==> to == Before(chunks, i + 1))
    {
      FlatSnoc(chunks, i);
      ChunkInFlat(chunks, i, from, from + needed);
      SliceJoins(Flat(chunks), offset, done, needed);
    }

    /** Fill an iovec array with the non-empty segments; returns one more than its size if they overflow it. */
    method Fill(iovec: array<seq<Byte>>, size: nat) returns (n: nat)
      requires Valid() && size <= iovec.Length
      modifies iovec
      ensures n == if Occupied(Chunks()) <= size then Occupied(Chunks()) else size + 1
      ensures n <= size ==> Flat(iovec[..n]) == Bytes() && forall k :: 0 <= k < n ==> iovec[k] != []
    {
      ghost var chunks := Chunks();
      n := 0;
      assert iovec[..0] == [] && chunks[..0] == [];
      for i := 0 to count
        invariant n <= size && n == Occupied(chunks[..i]) && Flat(iovec[..n]) == Flat(chunks[..i])
        invariant forall k :: 0 <= k < n ==> iovec[k] != []
      {
        FlatSnoc(chunks, i);
        OccupiedSnoc(chunks, i);
        if segments[i].length > 0 {
          if n >= size {
            OccupiedGrows(chunks, i + 1);
            return size + 1;
          }
          PutVector(iovec, n, segments[i].View());
          n := n + 1;
        }
      }
      assert chunks[..count] == chunks;
    }

    method PutVector(iovec: array<seq<Byte>>, n: nat, view: seq<Byte>)
      requires n < iovec.Length
      modifies iovec
      ensures iovec[n] == view && (forall k :: 0 <= k < n ==> iovec[k] == old(iovec[k]))
      ensures Flat(iovec[..n + 1]) == Flat(old(iovec[..n])) + view
    {
      ghost var was := iovec[..n];
      iovec[n] := view;
      assert iovec[..n + 1] == was + [view];
      FlatConcat(was, [view]);
      FlatOne(view);
    }

    /** Shuffle occupied segments back over empty ones: what stays is the non-empty segments in order,
        with the same flat bytes, and no owned block is lost when empty segments own nothing. */
    method Tidy()
      requires Valid()
      modifies this`count, segments
      ensures Valid() && Bytes() == old(Bytes()) && count == Occupied(old(Chunks()))
      ensures segments[..count] == NonEmpty(old(segments[..count]))
      ensures old(EmptyOwnNothing(segments[..count])) ==> Owners(segments[..count]) == old(Owners(segments[..count]))
    {
      ghost var was := segments[..count];
      NonEmptyKeepsBytes(was);
      NonEmptyIs(was);
      var newCount := Compact();
      count := newCount;
    }

    /** Take the segment at `from` into the cell at `to`, and consume it where it was. */
    method Move(from: nat, to: nat)
      requires to < from < segments.Length
      modifies segments
      ensures segments[to] == old(segments[from]) && segments[from].length == 0
      ensures forall k :: 0 <= k < segments.Length && k != from && k != to ==> segments[k] == old(segments[k])
    {
      segments[to] := segments[from];
      segments[from] := segments[from].Taken();
      segments[from] := segments[from].Consume(segments[from].length);
    }

    /** Move an occupied segment into the first free place, if there is one. */
    method MoveDown(i: nat, newCount: nat, free: seq<nat>)
      requires i < count <= segments.Length && IsGap(free, newCount, i)
      requires forall k :: newCount <= k < i ==> segments[k].length == 0
      modifies segments
      ensures segments[..newCount + 1] == old(segments[..newCount]) + [old(segments[i])]
      ensures forall k :: newCount < k <= i ==> segments[k].length == 0
      ensures forall k :: i < k < count ==> segments[k] == old(segments[k])
    {
      if |free| > 0 {
        Move(i, free[0]);
      }
    }

    /** The scan: the free queue is always the ascending gap between the occupied prefix and the scan
        point. */
    method Compact() returns (newCount: nat)
      requires count <= segments.Length
      modifies segments
      ensures newCount <= count && segments[..newCount] == NonEmpty(old(segments[..count]))
    {
      ghost var was := segments[..count];
      var free: seq<nat> := [];
      newCount := 0;
      assert was[..0] == [];
      for i := 0 to count
        invariant IsGap(free, newCount, i)
        invariant segments[..newCount] == NonEmpty(was[..i])
        invariant forall k :: newCount <= k < i ==> segments[k].length == 0
        invariant forall k :: i <= k < count ==> segments[k] == was[k]
      {
        NonEmptySnoc(was, i);
        if segments[i].length > 0 {
          MoveDown(i, newCount, free);
          free := Shifted(free, newCount, i);
          newCount := newCount + 1;
        } else {
          free := Grown(free, newCount, i);
        }
      }
      assert was[..count] == was;
    }

    method Reset()
      requires Valid()
      modifies this`count, segments
      ensures Valid() && count == 0 && Bytes() == []
    {
      DestroyFrom(0);
      count := 0;
    }
  }

  datatype Pointer = Nowhere | InSegment(i: nat, at: nat) | InTemp

  method PutBytes(dest: array<Byte>, at: nat, bytes: seq<Byte>)
    requires at + |bytes| <= dest.Length
    modifies dest
    ensures dest[..at + |bytes|] == old(dest[..at]) + bytes && dest[at + |bytes|..] == old(dest[at + |bytes|..])
  {
    for k := 0 to |bytes|
      invariant dest[..at + k] == old(dest[..at]) + bytes[..k] && dest[at + k..] == old(dest[at + k..])
    {
      dest[at + k] := bytes[k];
    }
  }

  /** Copy what one segment contributes to a slice. */
  method CopyPart(segment: Segment, start: nat, dest: array<Byte>, ghost offset: nat, len: nat, done: nat, ghost prefix: seq<Byte>)
    returns (read: nat)
    requires segment.Ok() && offset < |prefix| + segment.length && len <= dest.Length
    requires start == if |prefix| > offset then 0 else offset - |prefix|
    requires done == |Slice(prefix, offset, len)| <= len && dest[..done] == Slice(prefix, offset, len)
    modifies dest
    ensures done <= read == |Slice(prefix + segment.View(), offset, len)| <= len
    ensures dest[..read] == Slice(prefix + segment.View(), offset, len) && dest[read..] == old(dest[read..])
  {
    var toRead := len - done;
    if toRead > segment.length - start {
      toRead := segment.length - start;
    }
    SliceSnoc(prefix, segment.View(), offset, len);
    PutPart(dest, done, segment.View()[start..start + toRead], Slice(prefix, offset, len));
    read := done + toRead;
  }

  method PutPart(dest: array<Byte>, at: nat, bytes: seq<Byte>, ghost before: seq<Byte>)
    requires at + |bytes| <= dest.Length && dest[..at] == before
    modifies dest
    ensures dest[..at + |bytes|] == before + bytes && dest[at + |bytes|..] == old(dest[at + |bytes|..])
  {
    PutBytes(dest, at, bytes);
  }

  /** The bytes with the first `n` of `buf` put over those at `offset`. */
  function Replaced(bytes: seq<Byte>, offset: nat, buf: seq<Byte>, n: nat): seq<Byte>
    requires n <= |buf| && (n > 0 ==> offset + n <= |bytes|)
  {
    if n == 0 then bytes else bytes[..offset] + buf[..n] + bytes[offset + n..]
  }

  lemma ReplacedNone(bytes: seq<Byte>, offset: nat, buf: seq<Byte>)
    ensures Replaced(bytes, offset, buf, 0) == bytes
  {
  }

  /** Writing into one segment. */
  lemma PutChunk(was: seq<Segment>, i: nat, from: nat, bytes: seq<Byte>, put: Segment)
    requires AllOk(was) && i < |was| && from + |bytes| <= was[i].length && put == was[i].Put(from, bytes)
    ensures AllOk(was[i := put])
    ensures var before, after := Views(was), Views(was[i := put]); var p, n := Before(before, i) + from, |bytes|;
      && Before(after, i + 1) == Before(before, i + 1) && p + n <= |Flat(before)|
      && Flat(after) == Flat(before)[..p] + bytes + Flat(before)[p + n..]
  {
    PutViews(was, i, from, bytes, put);
    UpdatedChunk(Views(was), Views(was[i := put]), i, from, bytes);
    SameLengths(Views(was), Views(was[i := put]), i + 1);
  }

  lemma PutViews(was: seq<Segment>, i: nat, from: nat, bytes: seq<Byte>, put: Segment)
    requires AllOk(was) && i < |was| && from + |bytes| <= was[i].length && put == was[i].Put(from, bytes)
    ensures AllOk(was[i := put])
    ensures var before, after := Views(was), Views(was[i := put]);
      && |before| == |after| && (forall k | 0 <= k < |before| && k != i :: after[k] == before[k])
      && after[i] == before[i][..from] + bytes + before[i][from + |bytes|..] && |after[i]| == |before[i]|
  {
  }

  lemma NotYet(prefix: seq<Byte>, chunk: seq<Byte>, offset: nat, n: nat)
    requires offset >= |prefix| + |chunk|
    ensures Slice(prefix, offset, n) == [] == Slice(prefix + chunk, offset, n)
  {
  }

  lemma SplicedOn(was: seq<Byte>, bytes: seq<Byte>, buf: seq<Byte>, offset: nat, copied: nat, to: nat, part: seq<Byte>)
    requires copied <= to <= |buf| && offset + to <= |bytes| && part == buf[copied..to]
    requires was == Replaced(bytes, offset, buf, copied)
    ensures var p := offset + copied;
      && |was| == |bytes| == |Replaced(bytes, offset, buf, to)|
      && was[..p] + part + was[p + |part|..] == Replaced(bytes, offset, buf, to)
  {
  }

  lemma {:induction false} AllEmpty(chunks: seq<seq<Byte>>)
    requires forall k :: 0 <= k < |chunks| ==> |chunks[k]| == 0
    ensures Flat(chunks) == []
  {
    if chunks != [] {
      AllEmpty(chunks[1..]);
    }
  }

  lemma AllCopied(bytes: seq<Byte>, offset: nat, length: nat, copied: nat)
    requires copied <= length && offset + copied <= |bytes| && (copied < length ==> offset + copied == |bytes|)
    ensures |Slice(bytes, offset, length)| == copied
  {
  }

  lemma PartFits(chunks: seq<seq<Byte>>, i: nat, from: nat, n: nat)
    requires i < |chunks| && from + n <= |chunks[i]|
    ensures Before(chunks, i) + from + n <= |Flat(chunks)| && Before(chunks, i + 1) == Before(chunks, i) + |chunks[i]|
  {
    FlatSnoc(chunks, i);
    BeforeGrows(chunks, i + 1, |chunks|);
  }

  lemma {:induction false} SameLengths(a: seq<seq<Byte>>, b: seq<seq<Byte>>, i: nat)
    requires |a| == |b| && i <= |a| && forall k | 0 <= k < |a| :: |a[k]| == |b[k]|
    ensures Before(a, i) == Before(b, i)
  {
    if i > 0 {
      SameLengths(a, b, i - 1);
      FlatSnoc(a, i - 1);
      FlatSnoc(b, i - 1);
    }
  }

  function Occupied(chunks: seq<seq<Byte>>): nat {
    if chunks == [] then 0 else (if chunks[0] == [] then 0 else 1) + Occupied(chunks[1..])
  }

  lemma {:induction false} OccupiedConcat(a: seq<seq<Byte>>, b: seq<seq<Byte>>)
    ensures Occupied(a + b) == Occupied(a) + Occupied(b)
  {
    if a == [] {
      assert a + b == b;
    } else {
      OccupiedConcat(a[1..], b);
      assert (a + b)[1..] == a[1..] + b;
    }
  }

  lemma OccupiedSnoc(chunks: seq<seq<Byte>>, i: nat)
    requires i < |chunks|
    ensures Occupied(chunks[..i + 1]) == Occupied(chunks[..i]) + if chunks[i] == [] then 0 else 1
  {
    assert chunks[..i + 1] == chunks[..i] + [chunks[i]];
    OccupiedConcat(chunks[..i], [chunks[i]]);
  }

  lemma OccupiedGrows(chunks: seq<seq<Byte>>, i: nat)
    requires i <= |chunks|
    ensures Occupied(chunks[..i]) <= Occupied(chunks)
  {
    OccupiedConcat(chunks[..i], chunks[i..]);
    assert chunks == chunks[..i] + chunks[i..];
  }

  function NonEmpty(segments: seq<Segment>): seq<Segment> {
    if segments == [] then []
    else NonEmpty(segments[..|segments| - 1]) + (if segments[|segments| - 1].length > 0 then [segments[|segments| - 1]] else [])
  }

  predicate EmptyOwnNothing(segments: seq<Segment>) {
    forall s <- segments :: s.length == 0 ==> s.owned == Nobody
  }

  function Owners(segments: seq<Segment>): set<Owner> {
    set s <- segments | s.owned != Nobody :: s.owned
  }

  /** The free queue: the places from `from` on, ascending, up to `to`. */
  predicate IsGap(free: seq<nat>, from: nat, to: nat) {
    from + |free| == to && forall k | 0 <= k < |free| :: free[k] == from + k
  }

  /** The queue after segment `to` has moved into its first place. */
  function Shifted(free: seq<nat>, from: nat, to: nat): (r: seq<nat>)
    requires IsGap(free, from, to)
    ensures IsGap(r, from + 1, to + 1)
  {
    if |free| > 0 then free[1..] + [to] else []
  }

  /** The queue after segment `to` has been found empty. */
  function Grown(free: seq<nat>, from: nat, to: nat): (r: seq<nat>)
    requires IsGap(free, from, to)
    ensures IsGap(r, from, to + 1)
  {
    free + [to]
  }

  lemma NonEmptySnoc(segments: seq<Segment>, i: nat)
    requires i < |segments|
    ensures NonEmpty(segments[..i + 1]) == NonEmpty(segments[..i]) + if segments[i].length > 0 then [segments[i]] else []
  {
    assert segments[..i + 1][..i] == segments[..i];
  }

  /** Dropping the empty segments keeps the flat bytes. */
  lemma {:induction false} NonEmptyKeepsBytes(segments: seq<Segment>)
    requires AllOk(segments)
    ensures AllOk(NonEmpty(segments)) && Flat(Views(NonEmpty(segments))) == Flat(Views(segments))
    ensures |NonEmpty(segments)| == Occupied(Views(segments))
  {
    if segments != [] {
      var front, last := segments[..|segments| - 1], segments[|segments| - 1];
      NonEmptyKeepsBytes(front);
      SnocViews(front, last);
      SnocViews(NonEmpty(front), last);
      assert segments == front + [last];
      if last.length == 0 {
        assert last.View() == [] && NonEmpty(segments) == NonEmpty(front);
      } else {
        assert NonEmpty(segments) == NonEmpty(front) + [last];
      }
    }
  }

  lemma SnocViews(front: seq<Segment>, last: Segment)
    requires AllOk(front) && last.Ok()
    ensures AllOk(front + [last]) && Flat(Views(front + [last])) == Flat(Views(front)) + last.View()
    ensures Occupied(Views(front + [last])) == Occupied(Views(front)) + if last.length == 0 then 0 else 1
  {
    ViewsConcat(front, [last]);
    assert Views([last]) == [last.View()];
    FlatConcat(Views(front), Views([last]));
    FlatOne(last.View());
    OccupiedConcat(Views(front), Views([last]));
  }

  /** The segments kept are non-empty, and are all the non-empty ones. */
  lemma {:induction false} NonEmptyIs(segments: seq<Segment>)
    ensures forall s <- NonEmpty(segments) :: s.length > 0 && s in segments
    ensures forall s <- segments | s.length > 0 :: s in NonEmpty(segments)
  {
    if segments != [] {
      NonEmptyIs(segments[..|segments| - 1]);
    }
  }

  lemma ShortenedView(s: Segment, n: nat)
    requires s.Ok() && n <= s.length
    ensures s.(length := n).Ok() && s.(length := n).View() == s.View()[..n]
  {
    SliceOfSlice(s.data, s.start, s.start + s.length, 0, n);
  }

  lemma LimitedViews(was: seq<Segment>, now: seq<Segment>, i: nat, n: nat)
    requires AllOk(was) && i < |was| && n <= was[i].length && now == was[i := was[i].(length := n)]
    ensures AllOk(now) && Before(Views(was), i) + n <= |Flat(Views(was))|
    ensures Flat(Views(now[..i + 1])) == Flat(Views(was))[..Before(Views(was), i) + n]
  {
    assert Views(now[..i + 1])[..i] == Views(was)[..i];
    ShortenedView(was[i], n);
    LimitedChunks(Views(was), Views(now[..i + 1]), i, n);
  }
}
