/** Lists of items of any kind, written one after another and read back by mirrored reads. */
module Records {
  import opened Sequences

  /** How an item is written from an offset on, how much a read of it takes, and what the read makes of it. */
  datatype Codec<!I, !E, V> = Codec(
    enc: (I, nat) -> seq<E>,
    needs: (I, nat) -> nat,
    dec: (I, seq<E>) -> V,
    back: I -> V)

  /** Each item on its own takes as much to read as it was written with, and reads back. */
  ghost predicate Faithful<I(!new), E, V>(c: Codec<I, E, V>) {
    && (forall item: I, offset: nat :: |c.enc(item, offset)| == c.needs(item, offset))
    && (forall item: I, offset: nat :: c.dec(item, c.enc(item, offset)) == c.back(item))
  }

  /** A record written from some offset on. */
  function Record<I, E, V>(c: Codec<I, E, V>, items: seq<I>, offset: nat): seq<E> {
    if items == [] then []
    else c.enc(items[0], offset) + Record(c, items[1..], offset + |c.enc(items[0], offset)|)
  }

  function Backs<I, E, V>(c: Codec<I, E, V>, items: seq<I>): seq<V> {
    if items == [] then [] else [c.back(items[0])] + Backs(c, items[1..])
  }

  datatype Readout<+V, +E> = Readout(values: seq<V>, left: seq<E>) | Failed

  /** An exact read from what is left.  A limited reader whose limit is used up reads nothing at all, not even
      no elements. */
  predicate CanTake<E>(left: seq<E>, limited: bool, n: nat) {
    n <= |left| && (limited ==> |left| > 0)
  }

  function Then<V, E>(v: V, r: Readout<V, E>): Readout<V, E> {
    match r
    case Failed => Failed
    case Readout(vs, rest) => Readout([v] + vs, rest)
  }

  /** Mirrored reads of a list of items. */
  function ReadRecord<I, E, V>(c: Codec<I, E, V>, items: seq<I>, left: seq<E>, limited: bool, offset: nat): (r: Readout<V, E>)
    ensures r.Readout? ==> |r.left| <= |left|
    decreases |items|
  {
    if items == [] then Readout([], left)
    else
      var n := c.needs(items[0], offset);
      if !CanTake(left, limited, n) then Failed
      else Then(c.dec(items[0], left[..n]), ReadRecord(c, items[1..], left[n..], limited, offset + n))
  }

  lemma FirstOfRecord<I, E, V>(c: Codec<I, E, V>, items: seq<I>, left: seq<E>, limited: bool, offset: nat) returns (later: Readout<V, E>)
    requires items != []
    ensures var n := c.needs(items[0], offset);
      ReadRecord(c, items, left, limited, offset) == (if CanTake(left, limited, n) then Then(c.dec(items[0], left[..n]), later) else Failed)
    ensures var n := c.needs(items[0], offset); n <= |left| ==> later == ReadRecord(c, items[1..], left[n..], limited, offset + n)
  {
    var n := c.needs(items[0], offset);
    later := if n <= |left| then ReadRecord(c, items[1..], left[n..], limited, offset + n) else Failed;
  }

  /** The last item of a record is written as nothing. */
  predicate EndsEmpty<I, E, V>(c: Codec<I, E, V>, items: seq<I>, offset: nat) {
    items != [] &&
    var n := c.needs(items[0], offset);
    if |items| == 1 then n == 0 else EndsEmpty(c, items[1..], offset + n)
  }

  lemma {:induction false} EmptyRecordEndsEmpty<I(!new), E, V>(c: Codec<I, E, V>, items: seq<I>, offset: nat)
    requires Faithful(c) && items != [] && |Record(c, items, offset)| == 0
    ensures EndsEmpty(c, items, offset)
    decreases |items|
  {
    if |items| > 1 {
      EmptyRecordEndsEmpty(c, items[1..], offset + |c.enc(items[0], offset)|);
    }
  }

  /** Something is left to read at the first item of a record that is followed by something or does not end empty. */
  lemma SomethingLeft<I(!new), E, V>(c: Codec<I, E, V>, items: seq<I>, offset: nat)
    requires Faithful(c) && items != [] && !EndsEmpty(c, items, offset)
    ensures var n := |c.enc(items[0], offset)|; n + |Record(c, items[1..], offset + n)| > 0
    ensures var n := |c.enc(items[0], offset)|; |items| > 1 ==> !EndsEmpty(c, items[1..], offset + n)
  {
    var n := |c.enc(items[0], offset)|;
    if |items| > 1 && |Record(c, items[1..], offset + n)| == 0 {
      EmptyRecordEndsEmpty(c, items[1..], offset + n);
    }
  }

  lemma {:induction false} RecordBack<I(!new), E, V>(c: Codec<I, E, V>, items: seq<I>, rest: seq<E>, limited: bool, offset: nat)
    requires Faithful(c) && (limited ==> |rest| > 0 || !EndsEmpty(c, items, offset))
    ensures ReadRecord(c, items, Record(c, items, offset) + rest, limited, offset) == Readout(Backs(c, items), rest)
    decreases |items|
  {
    if items == [] {
      EmptyLeft(rest);
    } else {
      var first := c.enc(items[0], offset);
      var later := Record(c, items[1..], offset + |first|);
      if limited && |rest| == 0 {
        SomethingLeft(c, items, offset);
      }
      RecordBack(c, items[1..], rest, limited, offset + |first|);
      Assoc(first, later, rest);
    }
  }

  lemma {:induction false} EmptyEndFails<I(!new), E, V>(c: Codec<I, E, V>, items: seq<I>, offset: nat)
    requires Faithful(c) && EndsEmpty(c, items, offset)
    ensures ReadRecord(c, items, Record(c, items, offset), true, offset) == Failed
    decreases |items|
  {
    var first := c.enc(items[0], offset);
    var later := Record(c, items[1..], offset + |first|);
    if |items| > 1 {
      EmptyEndFails(c, items[1..], offset + |first|);
    }
  }

  /** A record that is cut short cannot be read. */
  lemma {:induction false} CutRecordFails<I(!new), E, V>(c: Codec<I, E, V>, items: seq<I>, left: seq<E>, limited: bool, offset: nat)
    requires Faithful(c) && left <= Record(c, items, offset) && |left| < |Record(c, items, offset)|
    ensures ReadRecord(c, items, left, limited, offset) == Failed
    decreases |items|
  {
    var first := c.enc(items[0], offset);
    if |first| <= |left| {
      CutRecordFails(c, items[1..], left[|first|..], limited, offset + |first|);
    }
  }

  /** Mirrored reads return what was written and leave what follows, whatever the record: except that under a
      limit that ends with the record, a last item written as nothing cannot be read. */
  lemma RecordBackIff<I(!new), E, V>(c: Codec<I, E, V>, items: seq<I>, rest: seq<E>, limited: bool, offset: nat)
    requires Faithful(c)
    ensures ReadRecord(c, items, Record(c, items, offset) + rest, limited, offset) ==
            if limited && rest == [] && EndsEmpty(c, items, offset) then Failed else Readout(Backs(c, items), rest)
  {
    if limited && rest == [] && EndsEmpty(c, items, offset) {
      assert Record(c, items, offset) + rest == Record(c, items, offset);
      EmptyEndFails(c, items, offset);
    } else {
      RecordBack(c, items, rest, limited, offset);
    }
  }
}
