/** Reading from a channel (libs/chan/reader.cc, libs/chan/ot-chan.h): a source that delivers its data in
    pieces of its own choosing, and limited readers stacked on it to any depth. */
module ChannelReaders {
  import opened Sequences
  import opened FlatBytes
  import opened Formats
  import opened Positional
  import opened Records

  const BUFFER_SIZE := 1024

  /** What an exact read comes to. */
  datatype Got<+T> = Got(value: T) | AtEnd | Thrown(message: string)

  /** What one basic read may deliver: a first piece of what is left, and something if there is anything. */
  ghost predicate Piece(left: seq<Byte>, count: nat, piece: seq<Byte>) {
    piece <= left && |piece| <= count && (count > 0 && left != [] ==> piece != [])
  }

  /** An exact read of everything that is left and wanted: it depends on neither the source's pieces nor the
      depth of the limits.  A limited reader whose limit is used up is at its end. */
  function Exact(all: seq<Byte>, exhausted: bool, count: nat): Got<seq<Byte>> {
    if exhausted then AtEnd
    else if count <= |all| then Got(all[..count])
    else if |all| == 0 then AtEnd
    else Thrown("EOF")
  }

  /** An exact read of an integer; here the end is an exception too. */
  function ExactInteger(all: seq<Byte>, exhausted: bool, size: nat, big: bool): Got<nat> {
    match Exact(all, exhausted, size)
    case Got(bs) => Got(if big then BigValue(bs) else LittleValue(bs))
    case _ => Thrown("EOF")
  }

  lemma TwoHalves(all: seq<Byte>)
    requires |all| >= 8
    ensures BigValue(all[..8]) == BigValue(all[..4]) * 0x1_0000_0000 + BigValue(all[4..][..4])
    ensures LittleValue(all[..8]) == LittleValue(all[..4]) + LittleValue(all[4..][..4]) * 0x1_0000_0000
  {
    assert all[..8] == all[..4] + all[4..][..4];
    BigConcat(all[..4], all[4..][..4]);
    LittleConcat(all[..4], all[4..][..4]);
  }

  /** An eight-byte integer from its halves in the order they are read. */
  function Halves(first: Got<nat>, second: Got<nat>, big: bool): Got<nat> {
    if first.Got? && second.Got? then
      Got(if big then first.value * 0x1_0000_0000 + second.value else first.value + second.value * 0x1_0000_0000)
    else Thrown("EOF")
  }

  /** Two four-byte reads are one eight-byte read, also where they fail. */
  lemma HalvesRead(all: seq<Byte>, exhausted: bool, left: seq<Byte>, later: bool, big: bool)
    requires exhausted ==> |all| == 0
    requires left == all[Min(4, |all|)..] && (|all| >= 4 && later ==> |all| == 4)
    ensures left[Min(4, |left|)..] == all[Min(8, |all|)..]
    ensures ExactInteger(all, exhausted, 8, big) ==
            Halves(ExactInteger(all, exhausted, 4, big), ExactInteger(left, later, 4, big), big)
  {
    if |all| >= 8 {
      TwoHalves(all);
    }
  }

  /** The second half is not read if the first cannot be. */
  lemma SecondHalf(all: seq<Byte>, exhausted: bool, left: seq<Byte>, later: bool, big: bool, first: Got<nat>, second: Got<nat>)
    requires exhausted ==> |all| == 0
    requires left == all[Min(4, |all|)..] && (|all| >= 4 && later ==> |all| == 4)
    requires first == ExactInteger(all, exhausted, 4, big)
    requires second == if first.Got? then ExactInteger(left, later, 4, big) else Thrown("EOF")
    ensures ExactInteger(all, exhausted, 8, big) == Halves(first, second, big)
    ensures Min(8, |all|) == Min(4, |all|) + if first.Got? then Min(4, |left|) else 0
  {
    HalvesRead(all, exhausted, left, later, big);
  }

  /** What one reader of a stack has left, how much of its limit, and how far it has come. */
  datatype Level = Level(left: seq<Byte>, limit: nat, offset: nat)

  function Dropped(s: seq<Byte>, n: nat): seq<Byte> {
    if n <= |s| then s[n..] else []
  }

  function DrawnLevel(l: Level, n: nat): Level {
    Level(Dropped(l.left, n), if n <= l.limit then l.limit - n else 0, l.offset + n)
  }

  /** Every level with so much drawn from it. */
  function Drawn(levels: seq<Level>, n: nat): (r: seq<Level>)
    ensures |r| == |levels| && (levels != [] ==> r[0] == DrawnLevel(levels[0], n))
  {
    if levels == [] then [] else [DrawnLevel(levels[0], n)] + Drawn(levels[1..], n)
  }

  lemma DroppedTwice(s: seq<Byte>, a: nat, b: nat)
    ensures Dropped(s, 0) == s && Dropped(Dropped(s, a), b) == Dropped(s, a + b)
  {
    assert s[0..] == s;
    if a + b <= |s| {
      assert s[a..][b..] == s[a + b..];
    }
  }

  lemma {:induction false} DrawnTwice(levels: seq<Level>, a: nat, b: nat)
    ensures Drawn(levels, 0) == levels && Drawn(Drawn(levels, a), b) == Drawn(levels, a + b)
  {
    if levels != [] {
      DrawnTwice(levels[1..], a, b);
      DroppedTwice(levels[0].left, a, b);
      assert Drawn(levels, a)[1..] == Drawn(levels[1..], a);
    }
  }

  /** No more than what is left has been drawn, at every level. */
  predicate Drew(before: seq<Level>, after: seq<Level>, n: nat) {
    before != [] && n <= |before[0].left| <= before[0].limit && after == Drawn(before, n)
  }

  /** A limited reader on top of a stack. */
  function OnTop(below: seq<Level>, left: nat, offset: nat): (r: seq<Level>)
    requires below != []
    ensures r != []
  {
    [Level(below[0].left[..Min(left, |below[0].left|)], left, offset)] + below
  }

  /** What a limited reader draws from below is drawn from it too. */
  lemma DrewOnTop(below: seq<Level>, after: seq<Level>, left: nat, offset: nat, count: nat, piece: seq<Byte>)
    requires Drew(below, after, |piece|) && Piece(below[0].left, Min(count, left), piece)
    ensures |piece| <= left && Piece(OnTop(below, left, offset)[0].left, count, piece)
    ensures Drew(OnTop(below, left, offset), OnTop(after, left - |piece|, offset + |piece|), |piece|)
  {
    var all, n := below[0].left, |piece|;
    assert all[n..][..Min(left - n, |all| - n)] == all[..Min(left, |all|)][n..];
    assert OnTop(below, left, offset)[1..] == below;
  }

  lemma DrewSource(l: Level, n: nat)
    requires n <= |l.left| <= l.limit
    ensures Drew([l], [DrawnLevel(l, n)], n)
  {
    assert [l][1..] == [];
  }

  lemma DrewNothing(levels: seq<Level>)
    requires levels != [] && |levels[0].left| <= levels[0].limit
    ensures Drew(levels, levels, 0)
  {
    DrawnTwice(levels, 0, 0);
  }

  /** At every level that has so much, exactly the next bytes are gone, and the limit is as much shorter. */
  lemma {:induction false} DrewEach(before: seq<Level>, n: nat, i: nat)
    requires i < |before| && n <= |before[i].left| && n <= before[i].limit
    ensures var l := before[i]; Drawn(before, n)[i] == Level(l.left[n..], l.limit - n, l.offset + n)
  {
    if i > 0 {
      DrewEach(before[1..], n, i - 1);
    }
  }

  lemma DrewTwice(before: seq<Level>, between: seq<Level>, after: seq<Level>, a: nat, b: nat)
    requires Drew(before, between, a) && Drew(between, after, b)
    ensures Drew(before, after, a + b)
  {
    DrawnTwice(before, a, b);
  }

  /** These bytes have been read, and drawn at every level. */
  predicate ReadSoFar(before: seq<Level>, after: seq<Level>, done: seq<Byte>) {
    Drew(before, after, |done|) && done == before[0].left[..|done|]
  }

  lemma OneMorePiece(before: seq<Level>, mid: seq<Level>, after: seq<Level>, done: seq<Byte>, piece: seq<Byte>)
    requires ReadSoFar(before, mid, done) && Drew(mid, after, |piece|) && piece <= mid[0].left
    ensures ReadSoFar(before, after, done + piece)
  {
    DrewTwice(before, mid, after, |done|, |piece|);
    assert before[0].left == done + mid[0].left;
  }

  /** What an exact read comes to, and what it draws. */
  predicate TriedRead(before: seq<Level>, after: seq<Level>, exhausted: bool, count: nat, r: Got<seq<Byte>>) {
    before != [] && r == Exact(before[0].left, exhausted, count) && Drew(before, after, Min(count, |before[0].left|))
  }

  lemma ExhaustedRead(levels: seq<Level>, count: nat)
    requires levels != [] && |levels[0].left| <= levels[0].limit == 0
    ensures TriedRead(levels, levels, true, count, AtEnd)
  {
    DrewNothing(levels);
  }

  lemma FullRead(before: seq<Level>, after: seq<Level>, done: seq<Byte>)
    requires ReadSoFar(before, after, done)
    ensures TriedRead(before, after, false, |done|, Got(done))
  {
  }

  lemma ShortRead(before: seq<Level>, after: seq<Level>, done: seq<Byte>, count: nat)
    requires ReadSoFar(before, after, done) && after[0].left == [] && |done| < count
    ensures TriedRead(before, after, false, count, if done == [] then AtEnd else Thrown("EOF"))
  {
  }

  /** Whether a limited reader's limit is used up when the data are: it does not reach beyond them. */
  predicate Tight(limited: bool, levels: seq<Level>) {
    limited && levels != [] && levels[0].limit == |levels[0].left|
  }

  /** An exact read of `n` bytes for an item: it takes them or throws. */
  predicate Took(limited: bool, before: seq<Level>, after: seq<Level>, n: nat, taken: bool) {
    && before != [] && (taken <==> CanTake(before[0].left, Tight(limited, before), n))
    && Drew(before, after, Min(n, |before[0].left|))
  }

  /** What mirrored reads return, and that what they took is drawn at every level. */
  predicate Delivered(goal: Readout<Value, Byte>, before: seq<Level>, after: seq<Level>, r: Got<seq<Value>>) {
    && before != [] && after != []
    && match goal
       case Failed => r.Thrown?
       case Readout(vs, rest) =>
         r == Got(vs) && after[0].left == rest && |rest| <= |before[0].left| && Drew(before, after, |before[0].left| - |rest|)
  }

  predicate TookItems(items: seq<Item>, limited: bool, before: seq<Level>, after: seq<Level>, r: Got<seq<Value>>) {
    before != [] &&
    Delivered(ReadRecord(FORMAT, items, before[0].left, Tight(limited, before), before[0].offset), before, after, r)
  }

  lemma TookNoItems(limited: bool, levels: seq<Level>)
    requires levels != [] && |levels[0].left| <= levels[0].limit
    ensures TookItems([], limited, levels, levels, Got([]))
  {
    DrewNothing(levels);
  }

  predicate TookItem(item: Item, limited: bool, before: seq<Level>, after: seq<Level>, taken: bool, v: Value) {
    && before != [] && Took(limited, before, after, Needs(item, before[0].offset), taken)
    && (taken ==> v == Decoded(item, before[0].left[..Needs(item, before[0].offset)]))
  }

  lemma DeliveredMore(later: Readout<Value, Byte>, before: seq<Level>, mid: seq<Level>, after: seq<Level>, n: nat, v: Value, others: Got<seq<Value>>)
    requires Drew(before, mid, n) && Delivered(later, mid, after, others)
    ensures Delivered(Then(v, later), before, after, if others.Got? then Got([v] + others.value) else Thrown("EOF"))
  {
    if others.Got? {
      DrewTwice(before, mid, after, n, |mid[0].left| - |after[0].left|);
    }
  }

  lemma TookMore(items: seq<Item>, limited: bool, before: seq<Level>, mid: seq<Level>, after: seq<Level>, v: Value, others: Got<seq<Value>>)
    requires items != [] && TookItem(items[0], limited, before, mid, true, v)
    requires TookItems(items[1..], limited, mid, after, others)
    ensures TookItems(items, limited, before, after, if others.Got? then Got([v] + others.value) else Thrown("EOF"))
  {
    var n := Needs(items[0], before[0].offset);
    var later := ReadStep(items, before[0].left, Tight(limited, before), before[0].offset);
    assert mid[0].left == before[0].left[n..] && mid[0].offset == before[0].offset + n;
    assert Tight(limited, mid) == Tight(limited, before);
    DeliveredMore(later, before, mid, after, n, v, others);
  }

  lemma TookNone(items: seq<Item>, limited: bool, before: seq<Level>, after: seq<Level>, v: Value)
    requires items != [] && TookItem(items[0], limited, before, after, false, v) && after != []
    ensures TookItems(items, limited, before, after, Thrown("EOF"))
  {
    var later := ReadStep(items, before[0].left, Tight(limited, before), before[0].offset);
  }

  lemma ReadStep(items: seq<Item>, left: seq<Byte>, limited: bool, offset: nat) returns (later: Readout<Value, Byte>)
    requires items != []
    ensures var n := Needs(items[0], offset);
      ReadRecord(FORMAT, items, left, limited, offset) == (if CanTake(left, limited, n) then Then(Decoded(items[0], left[..n]), later) else Failed)
    ensures var n := Needs(items[0], offset); n <= |left| ==> later == ReadRecord(FORMAT, items[1..], left[n..], limited, offset + n)
  {
    later := FirstOfRecord(FORMAT, items, left, limited, offset);
  }

  class Reader {
    /** The reader a limited one draws from; none for a source. */
    const inner: Reader?
    const data: seq<Byte>
    /** How much a source has ready at each position: always something. */
    const ready: nat -> nat
    var pos: nat
    var left: nat
    var offset: nat
    ghost const repr: set<Reader>

    ghost predicate Valid()
      reads this, repr
      decreases repr
    {
      && this in repr
      && (inner == null ==> pos == offset <= |data|)
      && (inner != null ==> inner in repr && inner.repr < repr && this !in inner.repr && inner.Valid())
    }

    /** This reader and those it draws from, down to the source. */
    ghost function Levels(): (r: seq<Level>)
      requires Valid()
      reads this, repr
      ensures r != [] && r[0].offset == offset && |r[0].left| <= r[0].limit && (inner != null ==> r[0].limit == left)
      decreases repr
    {
      if inner == null then [Level(data[pos..], |data| - pos, offset)]
      else OnTop(inner.Levels(), left, offset)
    }

    /** Everything that can still be read here. */
    ghost function Left(): seq<Byte>
      requires Valid()
      reads this, repr
    {
      Levels()[0].left
    }

    /** What the source at the bottom still has. */
    ghost function Behind(): seq<Byte>
      requires Valid()
      reads this, repr
    {
      Levels()[|Levels()| - 1].left
    }

    /** However deep the limits are stacked, what can be read is the first of what the source has. */
    lemma {:induction false} LeftIsFirst()
      requires Valid()
      ensures (forall l <- Levels() :: Left() <= l.left) && Left() <= Behind() && (inner != null ==> |Left()| <= left)
      decreases repr
    {
      if inner != null {
        inner.LeftIsFirst();
        assert Left() <= inner.Left();
      }
    }

    constructor Source(data: seq<Byte>, ready: nat -> nat)
      ensures Valid() && inner == null && repr == {this} && Left() == data && offset == 0
      ensures Levels() == [Level(data, |data|, 0)]
    {
      this.inner, this.data, this.ready, this.repr := null, data, ready, {this};
      pos, left, offset := 0, 0, 0;
    }

    constructor Limited(reader: Reader, limit: nat)
      requires reader.Valid()
      ensures Valid() && inner == reader && fresh(repr - reader.repr) && offset == 0 && left == limit
      ensures Levels() == OnTop(reader.Levels(), limit, 0)
    {
      inner, data, ready, repr := reader, [], _ => 1, reader.repr + {this};
      pos, left, offset := 0, limit, 0;
    }

    method SourceRead(count: nat) returns (piece: seq<Byte>)
      requires Valid() && inner == null
      modifies this
      ensures Valid() && Piece(old(Left()), count, piece) && Left() == old(Left())[|piece|..]
      ensures offset == old(offset) + |piece|
    {
      var n := Min(count, Min(if ready(pos) == 0 then 1 else ready(pos), |data| - pos));
      piece := data[pos..pos + n];
      pos := pos + n;
      offset := offset + n;
    }

    /** Skip in a block or a string: all or nothing. */
    method SkipInBlock(n: nat) returns (thrown: bool)
      requires Valid() && inner == null
      modifies this
      ensures Valid() && (thrown <==> n > |old(Left())|)
      ensures Left() == if thrown then old(Left()) else old(Left())[n..]
    {
      thrown := offset + n > |data|;
      if !thrown {
        offset := offset + n;
        pos := pos + n;
      }
    }

    /** Go back in a block or a string: the bytes passed over are there to read again. */
    method RewindInBlock(n: nat) returns (thrown: bool)
      requires Valid() && inner == null
      modifies this
      ensures Valid() && (thrown <==> n > old(offset))
      ensures if thrown then Left() == old(Left()) else Left() == data[old(offset) - n..old(offset)] + old(Left())
    {
      thrown := n > offset;
      if !thrown {
        assert data[offset - n..] == data[offset - n..offset] + data[offset..];
        offset := offset - n;
        pos := pos - n;
      }
    }

    /** Read what is available, up to `count` bytes. */
    method BasicRead(count: nat) returns (piece: seq<Byte>)
      requires Valid()
      modifies repr
      ensures Valid() && Piece(old(Left()), count, piece) && Drew(old(Levels()), Levels(), |piece|)
      decreases repr, 1
    {
      ghost var levels := Levels();
      if inner == null {
        piece := SourceRead(count);
        DrewSource(levels[0], |piece|);
      } else {
        piece := DrawBelow(count);
      }
    }

    /** Draw from below what the limit allows. */
    method DrawBelow(count: nat) returns (piece: seq<Byte>)
      requires Valid() && inner != null
      modifies repr
      ensures Valid() && Piece(old(Left()), count, piece) && Drew(old(Levels()), Levels(), |piece|)
      decreases repr, 0
    {
      ghost var below := inner.Levels();
      piece := inner.BasicRead(Min(count, left));
      DrewOnTop(below, inner.Levels(), left, offset, count, piece);
      left := left - |piece|;
      offset := offset + |piece|;
    }

    /** A limited reader with nothing of its limit left. */
    ghost predicate Exhausted()
      reads this
    {
      inner != null && left == 0
    }

    /** Read exactly `count` bytes; at the end if there is nothing to read at all. */
    method TryRead(count: nat) returns (r: Got<seq<Byte>>)
      requires Valid()
      modifies repr
      ensures Valid() && r == Exact(old(Left()), old(Exhausted()), count)
      ensures Drew(old(Levels()), Levels(), Min(count, |old(Left())|))
    {
      ghost var before := Levels();
      if inner != null && left == 0 {
        ExhaustedRead(before, count);
        return AtEnd;
      }
      r := ReadPieces(count);
    }

    /** Piece after piece, until there are enough or no more. */
    method ReadPieces(count: nat) returns (r: Got<seq<Byte>>)
      requires Valid()
      modifies repr
      ensures Valid() && TriedRead(old(Levels()), Levels(), false, count, r)
    {
      ghost var before := Levels();
      DrewNothing(before);
      var done := [];
      while |done| < count
        invariant Valid() && |done| <= count && ReadSoFar(before, Levels(), done)
        decreases count - |done|
      {
        ghost var mid := Levels();
        var piece := BasicRead(count - |done|);
        OneMorePiece(before, mid, Levels(), done, piece);
        if piece == [] {
          ShortRead(before, Levels(), done, count);
          return if done == [] then AtEnd else Thrown("EOF");
        }
        done := done + piece;
      }
      FullRead(before, Levels(), done);
      return Got(done);
    }

    /** Read exactly `count` bytes, or throw. */
    method Read(count: nat) returns (r: Got<seq<Byte>>)
      requires Valid()
      modifies repr
      ensures Valid() && !r.AtEnd? && (r.Got? <==> count <= |old(Left())| && !old(Exhausted()))
      ensures r.Got? ==> r.value == old(Left())[..count]
      ensures Drew(old(Levels()), Levels(), Min(count, |old(Left())|))
    {
      r := TryRead(count);
      if r.AtEnd? {
        r := Thrown("EOF");
      }
    }

    /** Read to the end or a limit, in pieces of at most the buffer size. */
    method ReadToEof(limit: nat) returns (r: seq<Byte>)
      requires Valid()
      modifies repr
      ensures Valid() && r == old(Left())[..Min(limit, |old(Left())|)]
      ensures Drew(old(Levels()), Levels(), Min(limit, |old(Left())|))
    {
      ghost var before := Levels();
      DrewNothing(before);
      var most := if inner != null then Min(left, limit) else limit;
      r := [];
      while |r| < most
        invariant Valid() && |r| <= most && ReadSoFar(before, Levels(), r)
        decreases most - |r|
      {
        ghost var mid := Levels();
        var n := Min(BUFFER_SIZE, most - |r|);
        var piece := BasicRead(n);
        OneMorePiece(before, mid, Levels(), r, piece);
        if piece == [] {
          return;
        }
        r := r + piece;
      }
    }

    /** Most significant byte first, two bytes. */
    method ReadNbo16() returns (r: Got<nat>)
      requires Valid()
      modifies repr
      ensures Valid() && r == ExactInteger(old(Left()), old(Exhausted()), 2, true)
      ensures Drew(old(Levels()), Levels(), Min(2, |old(Left())|))
    {
      var got := Read(2);
      if !got.Got? {
        return Thrown("EOF");
      }
      var buf := got.value;
      Big2(buf);
      r := Got(Num(buf[0]) * 256 + Num(buf[1]));
    }

    /** Most significant byte first, three bytes. */
    method ReadNbo24() returns (r: Got<nat>)
      requires Valid()
      modifies repr
      ensures Valid() && r == ExactInteger(old(Left()), old(Exhausted()), 3, true)
      ensures Drew(old(Levels()), Levels(), Min(3, |old(Left())|))
    {
      var got := Read(3);
      if !got.Got? {
        return Thrown("EOF");
      }
      var buf := got.value;
      Big3(buf);
      r := Got(Num(buf[0]) * 0x1_0000 + Num(buf[1]) * 256 + Num(buf[2]));
    }

    /** Most significant byte first, four bytes. */
    method ReadNbo32() returns (r: Got<nat>)
      requires Valid()
      modifies repr
      ensures Valid() && r == ExactInteger(old(Left()), old(Exhausted()), 4, true)
      ensures Drew(old(Levels()), Levels(), Min(4, |old(Left())|))
    {
      var got := Read(4);
      if !got.Got? {
        return Thrown("EOF");
      }
      var buf := got.value;
      Big4(buf);
      r := Got(Num(buf[0]) * 0x100_0000 + Num(buf[1]) * 0x1_0000 + Num(buf[2]) * 256 + Num(buf[3]));
    }

    /** Least significant byte first, two bytes. */
    method ReadLe16() returns (r: Got<nat>)
      requires Valid()
      modifies repr
      ensures Valid() && r == ExactInteger(old(Left()), old(Exhausted()), 2, false)
      ensures Drew(old(Levels()), Levels(), Min(2, |old(Left())|))
    {
      var got := Read(2);
      if !got.Got? {
        return Thrown("EOF");
      }
      var buf := got.value;
      Little2(buf);
      r := Got(Num(buf[0]) + Num(buf[1]) * 256);
    }

    /** Least significant byte first, three bytes. */
    method ReadLe24() returns (r: Got<nat>)
      requires Valid()
      modifies repr
      ensures Valid() && r == ExactInteger(old(Left()), old(Exhausted()), 3, false)
      ensures Drew(old(Levels()), Levels(), Min(3, |old(Left())|))
    {
      var got := Read(3);
      if !got.Got? {
        return Thrown("EOF");
      }
      var buf := got.value;
      Little3(buf);
      r := Got(Num(buf[0]) + Num(buf[1]) * 256 + Num(buf[2]) * 0x1_0000);
    }

    /** Least significant byte first, four bytes. */
    method ReadLe32() returns (r: Got<nat>)
      requires Valid()
      modifies repr
      ensures Valid() && r == ExactInteger(old(Left()), old(Exhausted()), 4, false)
      ensures Drew(old(Levels()), Levels(), Min(4, |old(Left())|))
    {
      var got := Read(4);
      if !got.Got? {
        return Thrown("EOF");
      }
      var buf := got.value;
      Little4(buf);
      r := Got(Num(buf[0]) + Num(buf[1]) * 256 + Num(buf[2]) * 0x1_0000 + Num(buf[3]) * 0x100_0000);
    }

    /** Two four-byte integers; the second is not read if the first cannot be. */
    method ReadTwo(big: bool) returns (first: Got<nat>, second: Got<nat>)
      requires Valid()
      modifies repr
      ensures Valid() && ExactInteger(old(Left()), old(Exhausted()), 8, big) == Halves(first, second, big)
      ensures Drew(old(Levels()), Levels(), Min(8, |old(Left())|))
    {
      ghost var all, was, levels := Left(), Exhausted(), Levels();
      first := ReadInteger4(big);
      second := Thrown("EOF");
      ghost var left, later, mid := Left(), Exhausted(), Levels();
      if first.Got? {
        second := ReadInteger4(big);
        DrewTwice(levels, mid, Levels(), Min(4, |all|), Min(4, |left|));
      }
      SecondHalf(all, was, left, later, big, first, second);
    }

    method ReadInteger4(big: bool) returns (r: Got<nat>)
      requires Valid()
      modifies repr
      ensures Valid() && r == ExactInteger(old(Left()), old(Exhausted()), 4, big)
      ensures Drew(old(Levels()), Levels(), Min(4, |old(Left())|))
    {
      if big {
        r := ReadNbo32();
      } else {
        r := ReadLe32();
      }
    }

    /** Most significant byte first, eight bytes as two halves. */
    method ReadNbo64() returns (r: Got<nat>)
      requires Valid()
      modifies repr
      ensures Valid() && r == ExactInteger(old(Left()), old(Exhausted()), 8, true)
      ensures Drew(old(Levels()), Levels(), Min(8, |old(Left())|))
    {
      var high, low := ReadTwo(true);
      if high.Got? && low.Got? {
        return Got(high.value * 0x1_0000_0000 + low.value);
      }
      return Thrown("EOF");
    }

    /** Least significant byte first, eight bytes as two halves. */
    method ReadLe64() returns (r: Got<nat>)
      requires Valid()
      modifies repr
      ensures Valid() && r == ExactInteger(old(Left()), old(Exhausted()), 8, false)
      ensures Drew(old(Levels()), Levels(), Min(8, |old(Left())|))
    {
      var low, high := ReadTwo(false);
      if low.Got? && high.Got? {
        return Got(low.value + high.value * 0x1_0000_0000);
      }
      return Thrown("EOF");
    }

    /** Skip to the next multiple of the offset. */
    method AlignTo(n: Positive) returns (r: Got<seq<Byte>>)
      requires Valid()
      modifies repr
      ensures var k := ToAlign(old(offset), n);
              && Valid() && !r.AtEnd? && (r.Got? <==> k <= |old(Left())| && !old(Exhausted()))
              && Drew(old(Levels()), Levels(), Min(k, |old(Left())|))
    {
      AlignFormula(offset, n);
      r := Read(n * ((offset + n - 1) / n) - offset);
    }

    method ReadInteger(size: nat, big: bool) returns (r: Got<nat>)
      requires Valid() && size in {2, 3, 4, 8}
      modifies repr
      ensures Valid() && r == ExactInteger(old(Left()), old(Exhausted()), size, big)
      ensures Drew(old(Levels()), Levels(), Min(size, |old(Left())|))
    {
      if big {
        match size
        case 2 => r := ReadNbo16();
        case 3 => r := ReadNbo24();
        case 4 => r := ReadNbo32();
        case _ => r := ReadNbo64();
      } else {
        match size
        case 2 => r := ReadLe16();
        case 3 => r := ReadLe24();
        case 4 => r := ReadLe32();
        case _ => r := ReadLe64();
      }
    }

    method Take(n: nat) returns (taken: bool, bytes: seq<Byte>)
      requires Valid()
      modifies repr
      ensures Valid() && Took(inner != null, old(Levels()), Levels(), n, taken) && (taken ==> bytes == old(Left())[..n])
    {
      var got := Read(n);
      taken := got.Got?;
      bytes := if got.Got? then got.value else [];
    }

    method TakeInteger(size: nat, big: bool) returns (taken: bool, value: nat)
      requires Valid() && size in {2, 3, 4, 8}
      modifies repr
      ensures Valid() && Took(inner != null, old(Levels()), Levels(), size, taken)
      ensures taken ==> value == var bs := old(Left())[..size]; if big then BigValue(bs) else LittleValue(bs)
    {
      var got := ReadInteger(size, big);
      taken := got.Got?;
      value := if got.Got? then got.value else 0;
    }

    method TakeAlignment(n: Positive) returns (taken: bool)
      requires Valid()
      modifies repr
      ensures Valid() && Took(inner != null, old(Levels()), Levels(), ToAlign(old(offset), n), taken)
    {
      var got := AlignTo(n);
      taken := got.Got?;
    }

    method ReadItem(item: Item) returns (taken: bool, v: Value)
      requires Valid() && Offered(item)
      modifies repr
      ensures Valid() && TookItem(item, inner != null, old(Levels()), Levels(), taken, v)
    {
      v := Gap;
      match item
      case Integer(big, size, _) =>
        var n;
        taken, n := TakeInteger(size, big);
        v := Whole(n);
      case Fixed(_, length, _) =>
        var bytes;
        taken, bytes := Take(length);
        v := Text(bytes);
      case Skip(n) =>
        var bytes;
        taken, bytes := Take(n);
      case Align(n) =>
        taken := TakeAlignment(n);
    }

    /** Mirrored reads of a whole record, under a limit of any size or none. */
    method ReadItems(items: seq<Item>) returns (r: Got<seq<Value>>)
      requires Valid() && forall item <- items :: Offered(item)
      modifies repr
      ensures Valid() && TookItems(items, inner != null, old(Levels()), Levels(), r)
    {
      ghost var limited, before := inner != null, Levels();
      if items == [] {
        TookNoItems(limited, before);
        return Got([]);
      }
      var taken, first := ReadItem(items[0]);
      ghost var mid := Levels();
      if !taken {
        TookNone(items, limited, before, mid, first);
        return Thrown("EOF");
      }
      var others := ReadItems(items[1..]);
      r := if others.Got? then Got([first] + others.value) else Thrown("EOF");
      TookMore(items, limited, before, mid, Levels(), first, others);
    }
  }

  /** Mirrored reads of a record through a limit set on any reader. */
  method ReadItemsLimited(reader: Reader, limit: nat, items: seq<Item>) returns (r: Got<seq<Value>>, ghost after: seq<Level>)
    requires reader.Valid() && forall item <- items :: Offered(item)
    modifies reader.repr
    ensures TookItems(items, true, OnTop(old(reader.Levels()), limit, 0), after, r)
  {
    var limited := new Reader.Limited(reader, limit);
    r := limited.ReadItems(items);
    after := limited.Levels();
  }
}
