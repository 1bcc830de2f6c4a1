/** The bidirectional iterator over a gather buffer (libs/gather/ot-gather.h), which refines an index
    into the flat bytes, and the channel reader built on it (libs/gather/reader.cc). */
module GatherReaders {
  import opened FlatBytes
  import opened GatherBuffers

  /** Where the data pointer is: at the shared end byte, or so far into the current segment's data. */
  datatype DataPointer = AtEnd | Into(offset: nat)

  /** Lengths are 64 bits wide. */
  const WRAP: nat := 0x1_0000_0000_0000_0000

  class BufferIterator {
    var segments: array<Segment>
    var count: nat
    var segment: nat
    var countdown: nat
    var dp: DataPointer

    constructor (segments: array<Segment>, count: nat, segment: nat, countdown: nat)
      requires count <= segments.Length && AllOk(segments[..count])
      requires if segment < count then 0 < countdown == segments[segment].length else segment == count && countdown == 0
      ensures Valid() && this.segments == segments && this.count == count && Position() == Before(Chunks(), segment)
    {
      this.segments, this.count, this.segment, this.countdown := segments, count, segment, countdown;
      dp := if segment >= count then AtEnd else Into(0);
      new;
      if segment == count {
        assert Chunks()[..count] == Chunks();
      }
    }

    predicate Based()
      reads this, segments
    {
      count <= segments.Length && AllOk(segments[..count])
    }

    function Chunks(): (chunks: seq<seq<Byte>>)
      requires Based()
      reads this, segments
      ensures |chunks| == count
    {
      Views(segments[..count])
    }

    function Total(): nat
      requires Based()
      reads this, segments
    {
      |Flat(Chunks())|
    }

    predicate Valid()
      reads this, segments
    {
      && Based() && segment <= count
      && if dp.AtEnd? then segment == count && countdown == 0
         else segment < count && 0 < countdown <= segments[segment].length && dp.offset == segments[segment].length - countdown
    }

    /** The index into the flat bytes that the iterator stands for. */
    function Position(): nat
      requires Valid()
      reads this, segments
    {
      if dp.AtEnd? then Total() else Before(Chunks(), segment) + dp.offset
    }

    lemma PositionInRange()
      requires Valid()
      ensures if dp.AtEnd? then Position() == Total() else Position() < Total() && Before(Chunks(), segment + 1) <= Total()
    {
      if !dp.AtEnd? {
        FlatSnoc(Chunks(), segment);
        BeforeGrows(Chunks(), segment + 1, count);
      }
    }

    /** The next segment with bytes, from some place on. */
    method ScanOn(first: nat) returns (s: nat)
      requires Based() && first <= count
      ensures first <= s <= count && (s < count ==> segments[s].length > 0)
      ensures Before(Chunks(), s) == Before(Chunks(), first) && Before(Chunks(), count) == Total()
    {
      s := first;
      while s < count && segments[s].length == 0
        invariant first <= s <= count && forall k :: first <= k < s ==> segments[k].length == 0
      {
        s := s + 1;
      }
      SkipEmpty(Chunks(), first, s);
      assert Chunks()[..count] == Chunks();
    }

    method NextSegment()
      requires Based() && segment < count
      modifies this`segment, this`countdown, this`dp
      ensures Valid() && Position() == Before(Chunks(), old(segment) + 1) && segment > old(segment)
    {
      segment := ScanOn(segment + 1);
      if segment >= count {
        countdown := 0;
        dp := AtEnd;
      } else {
        countdown := segments[segment].length;
        dp := Into(0);
      }
    }

    /** The segment before some place that has bytes, or the first one. */
    method ScanBack(from: nat) returns (s: nat)
      requires Based() && 0 < from <= count
      ensures s < from && (s > 0 ==> segments[s].length > 0)
      ensures Before(Chunks(), from) == Before(Chunks(), s + 1) == Before(Chunks(), s) + segments[s].length
      ensures Before(Chunks(), from) <= Total()
    {
      s := from - 1;
      while s > 0 && segments[s].length == 0
        invariant s < from <= count && forall k :: s < k < from ==> segments[k].length == 0
      {
        s := s - 1;
      }
      ScannedBack(Chunks(), s, from);
    }

    lemma ScannedBack(chunks: seq<seq<Byte>>, s: nat, from: nat)
      requires s < from <= |chunks| && forall k | s < k < from :: chunks[k] == []
      ensures Before(chunks, from) == Before(chunks, s + 1) == Before(chunks, s) + |chunks[s]|
      ensures Before(chunks, from) <= |Flat(chunks)|
    {
      SkipEmpty(chunks, s + 1, from);
      FlatSnoc(chunks, s);
      BeforeGrows(chunks, from, |chunks|);
    }

    lemma FirstByte()
      requires Based() && count > 0
      ensures Before(Chunks(), 0) == 0 && segments[0].length <= Total()
    {
      FlatSnoc(Chunks(), 0);
      BeforeGrows(Chunks(), 1, count);
    }

    /** Go to the byte before the current segment, or to the first byte when there is none. */
    method PreviousSegment()
      requires Based() && segment <= count && count > 0 && (segment == 0 ==> segments[0].length > 0)
      modifies this`segment, this`countdown, this`dp
      ensures Valid() && Position() == if Before(Chunks(), old(segment)) == 0 then 0 else Before(Chunks(), old(segment)) - 1
      ensures Total() > 0 ==> !dp.AtEnd?
    {
      FirstByte();
      if segment == 0 {
        countdown := segments[segment].length;
        dp := Into(0);
        return;
      }
      segment := ScanBack(segment);
      if segments[segment].length > 0 {
        countdown := 1;
        dp := Into(segments[segment].length - 1);
      } else {
        NextSegment();
        PositionInRange();
      }
    }

    method Increment()
      requires Valid()
      modifies this`segment, this`countdown, this`dp
      ensures Valid() && Position() == Min(old(Position()) + 1, Total())
    {
      PositionInRange();
      if dp.AtEnd? {
        return;
      }
      FlatSnoc(Chunks(), segment);
      countdown := countdown - 1;
      if countdown == 0 {
        NextSegment();
      } else {
        dp := Into(dp.offset + 1);
      }
    }

    method Advance(add: nat)
      requires Valid()
      modifies this`segment, this`countdown, this`dp
      ensures Valid() && Position() == Min(old(Position()) + add, Total())
    {
      var left := add;
      while left >= countdown
        invariant Valid() && 0 <= left && Min(Position() + left, Total()) == Min(old(Position()) + add, Total())
        decreases count - segment
      {
        if dp.AtEnd? {
          return;
        }
        left := left - countdown;
        PassSegment();
      }
      MoveWithin(left);
    }

    /** To the segment after the rest of this one. */
    method PassSegment()
      requires Valid() && !dp.AtEnd?
      modifies this`segment, this`countdown, this`dp
      ensures Valid() && segment > old(segment) && Position() == old(Position()) + old(countdown) <= Total()
    {
      PositionInRange();
      FlatSnoc(Chunks(), segment);
      NextSegment();
    }

    method MoveWithin(n: nat)
      requires Valid() && n < countdown
      modifies this`countdown, this`dp
      ensures Valid() && Position() == old(Position()) + n < Total()
    {
      PositionInRange();
      FlatSnoc(Chunks(), segment);
      countdown := countdown - n;
      dp := Into(dp.offset + n);
    }

    /** Stepping back from the end of a buffer with no segments reads an unset segment. */
    method Decrement()
      requires Valid() && count > 0
      modifies this`segment, this`countdown, this`dp
      ensures Valid() && Position() == if old(Position()) == 0 then 0 else old(Position()) - 1
    {
      PositionInRange();
      if dp.AtEnd? {
        assert Chunks()[..count] == Chunks();
        PreviousSegment();
      } else {
        countdown := countdown + 1;
        if countdown > segments[segment].length {
          PreviousSegment();
        } else {
          dp := Into(dp.offset - 1);
        }
      }
    }

    /** How far back `-=` really goes: stepping off the end decrements the distance, and zero wraps. */
    function Distance(sub: nat): nat
      reads this
    {
      if dp.AtEnd? && sub == 0 then WRAP else sub
    }

    /** Step back by a distance.  With no byte at all and some segment the loop never ends (see
        `NoWayBack`); otherwise it goes back that far, and a distance past the start throws when the
        first segment has bytes, and stops at the start when it has none. */
    method Retreat(sub: nat) returns (threw: bool)
      requires Valid() && sub < WRAP && Total() < WRAP && (Total() > 0 || count == 0)
      modifies this`segment, this`countdown, this`dp
      ensures Valid()
      ensures old(Distance(sub)) <= old(Position()) ==> !threw && Position() == old(Position()) - old(Distance(sub))
      ensures old(Distance(sub)) > old(Position()) ==>
        if count == 0 || segments[0].length > 0 then threw else !threw && Position() == 0
    {
      threw := false;
      var left := sub;
      ghost var gap := Position() - Distance(sub);
      PositionInRange();
      while dp.AtEnd? || left > segments[segment].length - countdown
        invariant Valid() && 0 <= left < WRAP
        invariant dp.AtEnd? ==> segment == count == old(segment) && left == sub && Position() - Distance(sub) == gap
        invariant !dp.AtEnd? ==> Position() - left == gap || (gap < 0 && segments[0].length == 0 && Position() == 0)
        decreases dp.AtEnd?, left
      {
        if segment == 0 {
          PositionInRange();
          threw := true;
          return;
        }
        left := GoBack(left);
      }
      countdown := countdown + left;
      dp := Into(dp.offset - left);
    }

    /** One turn of the `-=` loop: to the byte before the segment, or before the end. */
    method GoBack(left: nat) returns (next: nat)
      requires Valid() && left < WRAP && segment > 0 && Total() > 0 && (dp.AtEnd? || left > dp.offset)
      modifies this`segment, this`countdown, this`dp
      ensures Valid() && !dp.AtEnd?
      ensures old(dp.AtEnd?) ==> next == (if left == 0 then WRAP - 1 else left - 1) && Position() == Total() - 1
      ensures !old(dp.AtEnd?) ==> next == left - old(dp.offset) - 1
      ensures !old(dp.AtEnd?) ==>
        if old(Position()) == old(dp.offset) then segments[0].length == 0 && Position() == 0
        else Position() == old(Position()) - old(dp.offset) - 1
    {
      BytesBefore(Chunks(), segment);
      if dp.AtEnd? {
        next := if left == 0 then WRAP - 1 else left - 1;
      } else {
        next := left - (segments[segment].length - countdown + 1);
      }
      PreviousSegment();
    }

    lemma BytesBefore(chunks: seq<seq<Byte>>, i: nat)
      requires 0 < i <= |chunks|
      ensures |chunks[0]| <= Before(chunks, i) && Before(chunks, |chunks|) == |Flat(chunks)|
    {
      FlatSnoc(chunks, 0);
      BeforeGrows(chunks, 1, i);
      assert chunks[..|chunks|] == chunks && chunks[..0] == [];
    }

    /** At the end of a buffer whose segments are all empty, going to the previous segment comes back to
        the end: one turn of the `-=` loop changes nothing but the distance left, so it never ends. */
    method NoWayBack()
      requires Valid() && count > 0 && Total() == 0
      modifies this`segment, this`countdown, this`dp
      ensures dp == AtEnd == old(dp) && segment == count == old(segment) && countdown == old(countdown)
    {
      PositionInRange();
      PreviousSegment();
      PositionInRange();
    }
  }

  /** Copy at most `len` bytes from an iterator's position; an iterator of another buffer gives nothing. */
  method CopyFrom(buffer: Buffer, dest: array<Byte>, it: BufferIterator, len: nat) returns (read: nat)
    requires buffer.Valid() && it.Valid() && len <= dest.Length
    requires it.segments == buffer.segments ==> it.count == buffer.count
    modifies dest
    ensures read <= len && dest[read..] == old(dest[read..])
    ensures it.segments == buffer.segments ==>
      var slice := Slice(buffer.Bytes(), it.Position(), len); read == |slice| && dest[..read] == slice
    ensures it.segments != buffer.segments ==> read == 0
  {
    it.PositionInRange();
    if it.dp.AtEnd? || it.segments != buffer.segments {
      return 0;
    }
    read := CopyOn(buffer, it.segment, it.segments[it.segment].length - it.countdown, dest, len, it.Position());
  }

  method CopyOn(buffer: Buffer, first: nat, segmentOffset: nat, dest: array<Byte>, len: nat, ghost offset: nat) returns (read: nat)
    requires buffer.Valid() && len <= dest.Length && first < buffer.count && segmentOffset < buffer.segments[first].length
    requires offset == Before(buffer.Chunks(), first) + segmentOffset
    modifies dest
    ensures read == |Slice(buffer.Bytes(), offset, len)| <= len
    ensures dest[..read] == Slice(buffer.Bytes(), offset, len) && dest[read..] == old(dest[read..])
  {
    read := 0;
    ghost var chunks := buffer.Chunks();
    var start, i := segmentOffset, first;
    while i < buffer.count
      invariant first <= i <= buffer.count && buffer.Chunks() == chunks
      invariant if i == first then offset == Before(chunks, i) + start else offset < Before(chunks, i) && start == 0
      invariant Copied(chunks, i, offset, len, dest[..], read) && dest[read..] == old(dest[read..])
    {
      read := CopyNext(buffer, i, start, dest, offset, len, read);
      i := i + 1;
      if read >= len {
        break;
      }
      start := 0;
    }
    PrefixFills(chunks, i, Flat(chunks[..i]), offset, len);
  }

  /** What has been copied when the chunks before `i` have been looked at. */
  ghost predicate Copied(chunks: seq<seq<Byte>>, i: nat, offset: nat, len: nat, dest: seq<Byte>, read: nat) {
    i <= |chunks| && var slice := Slice(Flat(chunks[..i]), offset, len); read == |slice| <= len <= |dest| && dest[..read] == slice
  }

  method CopyNext(buffer: Buffer, i: nat, start: nat, dest: array<Byte>, ghost offset: nat, len: nat, done: nat) returns (read: nat)
    requires buffer.Valid() && i < buffer.count && offset < Before(buffer.Chunks(), i) + buffer.segments[i].length
    requires start == if Before(buffer.Chunks(), i) > offset then 0 else offset - Before(buffer.Chunks(), i)
    requires Copied(buffer.Chunks(), i, offset, len, dest[..], done)
    modifies dest
    ensures done <= read && Copied(buffer.Chunks(), i + 1, offset, len, dest[..], read) && dest[read..] == old(dest[read..])
    ensures offset < Before(buffer.Chunks(), i + 1)
  {
    FlatSnoc(buffer.Chunks(), i);
    read := CopyPart(buffer.segments[i], start, dest, offset, len, done, Flat(buffer.Chunks()[..i]));
  }

  /** An iterator at the first byte. */
  method Begin(buffer: Buffer) returns (it: BufferIterator)
    requires buffer.Valid()
    ensures fresh(it) && it.Valid() && it.segments == buffer.segments && it.count == buffer.count && it.Position() == 0
  {
    var i := 0;
    while i < buffer.count && buffer.segments[i].length == 0
      invariant i <= buffer.count && forall k :: 0 <= k < i ==> buffer.segments[k].length == 0
    {
      i := i + 1;
    }
    SkipEmpty(buffer.Chunks(), 0, i);
    it := new BufferIterator(buffer.segments, buffer.count, i, if i < buffer.count then buffer.segments[i].length else 0);
  }

  // ---------- The channel reader, and the flat reader it behaves like ----------

  datatype Operation = Read(count: nat) | Skip(count: nat) | Rewind(count: nat)

  datatype Outcome = Data(bytes: seq<Byte>) | Done | Refused

  datatype FlatState = FlatState(offset: nat, outcome: Outcome)

  /** A reader over flat bytes. */
  function FlatStep(bytes: seq<Byte>, offset: nat, op: Operation): FlatState {
    match op
    case Read(n) => var slice := Slice(bytes, offset, n); FlatState(offset + |slice|, Data(slice))
    case Skip(n) => if offset + n > |bytes| then FlatState(offset, Refused) else FlatState(offset + n, Done)
    case Rewind(n) => if n > offset then FlatState(offset, Refused) else FlatState(offset - n, Done)
  }

  function FlatRun(bytes: seq<Byte>, offset: nat, ops: seq<Operation>): seq<Outcome>
    decreases ops
  {
    if ops == [] then []
    else var s := FlatStep(bytes, offset, ops[0]); [s.outcome] + FlatRun(bytes, s.offset, ops[1..])
  }

  /** A rewind by zero at the very end is the one operation the reader gets wrong. */
  predicate Sensible(bytes: seq<Byte>, offset: nat, op: Operation) {
    op != Rewind(0) || offset < |bytes|
  }

  predicate AllSensible(bytes: seq<Byte>, offset: nat, ops: seq<Operation>)
    decreases ops
  {
    ops == [] || (Sensible(bytes, offset, ops[0]) && AllSensible(bytes, FlatStep(bytes, offset, ops[0]).offset, ops[1..]))
  }

  class Reader {
    const buffer: Buffer
    const it: BufferIterator
    var offset: nat

    constructor (buffer: Buffer)
      requires buffer.Valid()
      ensures Valid() && this.buffer == buffer && offset == 0 && fresh(it)
    {
      this.buffer := buffer;
      var start := Begin(buffer);
      it := start;
      offset := 0;
    }

    predicate Valid()
      reads this, buffer, buffer.segments, it, it.segments
    {
      && buffer.Valid() && it.Valid() && it.segments == buffer.segments && it.count == buffer.count
      && it.Position() == offset
    }

    method BasicRead(buf: array<Byte>, count: nat) returns (n: nat)
      requires Valid() && count <= buf.Length
      modifies this, buf, it`segment, it`countdown, it`dp
      ensures Valid() && n <= count && buf[n..] == old(buf[n..])
      ensures FlatState(offset, Data(buf[..n])) == FlatStep(buffer.Bytes(), old(offset), Read(count))
    {
      n := 0;
      it.PositionInRange();
      if count > 0 {
        n := ReadOn(buf, count);
      }
    }

    method ReadOn(buf: array<Byte>, count: nat) returns (n: nat)
      requires Valid() && count <= buf.Length
      modifies this, buf, it`segment, it`countdown, it`dp
      ensures Valid() && n <= count && buf[n..] == old(buf[n..]) && offset == old(offset) + n
      ensures n == |Slice(buffer.Bytes(), old(offset), count)| && buf[..n] == Slice(buffer.Bytes(), old(offset), count)
    {
      it.PositionInRange();
      n := CopyFrom(buffer, buf, it, count);
      it.Advance(n);
      offset := offset + n;
    }

    method SkipOver(n: nat) returns (ok: bool)
      requires Valid()
      modifies this, it`segment, it`countdown, it`dp
      ensures Valid() && FlatState(offset, if ok then Done else Refused) == FlatStep(buffer.Bytes(), old(offset), Skip(n))
    {
      var length := buffer.GetLength();
      if offset + n > length {
        return false;
      }
      offset := offset + n;
      it.Advance(n);
      ok := true;
    }

    /** Rewinding: it is right, and says so, exactly when the distance fits and is not zero at the end.  In a buffer
        of empty segments a rewind by zero never returns. */
    method RewindBy(n: nat) returns (ok: bool)
      requires Valid() && n < WRAP && |buffer.Bytes()| < WRAP && (|buffer.Bytes()| > 0 || buffer.count == 0 || n > 0)
      modifies this, it`segment, it`countdown, it`dp
      ensures n <= old(offset) ==> (ok && Valid() <==> Sensible(buffer.Bytes(), old(offset), Rewind(n)))
      ensures Sensible(buffer.Bytes(), old(offset), Rewind(n)) ==>
        Valid() && FlatState(offset, if ok then Done else Refused) == FlatStep(buffer.Bytes(), old(offset), Rewind(n))
    {
      it.PositionInRange();
      if n > offset {
        return false;
      }
      offset := offset - n;
      var threw := it.Retreat(n);
      ok := !threw;
    }
  }

  /** For every sequence of reads, skips and rewinds the reader answers as the flat reader does. */
  method RunReader(reader: Reader, ops: seq<Operation>) returns (outcomes: seq<Outcome>)
    requires reader.Valid() && |reader.buffer.Bytes()| < WRAP && forall op <- ops :: op.count < WRAP
    requires AllSensible(reader.buffer.Bytes(), reader.offset, ops)
    modifies reader, reader.it`segment, reader.it`countdown, reader.it`dp
    ensures reader.Valid() && outcomes == FlatRun(reader.buffer.Bytes(), old(reader.offset), ops)
    decreases ops
  {
    if ops == [] {
      return [];
    }
    var op := ops[0];
    var outcome;
    match op {
      case Read(n) =>
        var buf := new Byte[n](_ => Byte(0));
        var got := reader.BasicRead(buf, n);
        outcome := Data(buf[..got]);
      case Skip(n) =>
        var ok := reader.SkipOver(n);
        outcome := if ok then Done else Refused;
      case Rewind(n) =>
        var ok := reader.RewindBy(n);
        outcome := if ok then Done else Refused;
    }
    var rest := RunReader(reader, ops[1..]);
    outcomes := [outcome] + rest;
  }
}
