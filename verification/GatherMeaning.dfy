module GatherMeaning {
  // What reading, skipping, rewinding and replacing in a gather buffer come to, said on indexes into its bytes.

  import opened FlatBytes
  import opened GatherBuffers
  import opened GatherReaders
  import opened Sequences

  /** Copying takes as many bytes as are wanted and there, from the offset on. */
  lemma SliceAt(s: seq<Byte>, offset: nat, n: nat)
    ensures |Slice(s, offset, n)| == if offset >= |s| then 0 else if offset + n <= |s| then n else |s| - offset
    ensures forall i | 0 <= i < |Slice(s, offset, n)| :: Slice(s, offset, n)[i] == s[offset + i]
  {
  }

  /** Replacing changes the bytes of the range and no others. */
  lemma ReplacedAt(bytes: seq<Byte>, offset: nat, buf: seq<Byte>, n: nat, i: nat)
    requires n <= |buf| && (n > 0 ==> offset + n <= |bytes|) && i < |bytes|
    ensures |Replaced(bytes, offset, buf, n)| == |bytes|
    ensures Replaced(bytes, offset, buf, n)[i] == if offset <= i < offset + n then buf[i - offset] else bytes[i]
  {
  }

  lemma SliceWithin(s: seq<Byte>, offset: nat, n: nat)
    requires offset + n <= |s|
    ensures Slice(s, offset, n) == s[offset..offset + n]
  {
  }

  lemma TwoSteps(bytes: seq<Byte>, at: nat, first: Operation, second: Operation)
    ensures var s := FlatStep(bytes, at, first);
            FlatRun(bytes, at, [first, second]) == [s.outcome, FlatStep(bytes, s.offset, second).outcome]
  {
    var s := FlatStep(bytes, at, first);
    assert [first, second][1..] == [second];
    assert FlatRun(bytes, s.offset, [second]) == [FlatStep(bytes, s.offset, second).outcome] + FlatRun(bytes, FlatStep(bytes, s.offset, second).offset, []);
  }

  /** The reader goes on where it stopped: after a read, a skip or a rewind the next read starts that much further on, or
      back; a skip past the end and a rewind past the beginning are refused and move nothing. */
  lemma NextReadAt(bytes: seq<Byte>, at: nat, n: nat, m: nat)
    requires at <= |bytes|
    ensures at + n + m <= |bytes| ==>
              && FlatRun(bytes, at, [Read(n), Read(m)]) == [Data(bytes[at..at + n]), Data(bytes[at + n..at + n + m])]
              && FlatRun(bytes, at, [Skip(n), Read(m)]) == [Done, Data(bytes[at + n..at + n + m])]
    ensures at + n > |bytes| && at + m <= |bytes| ==> FlatRun(bytes, at, [Skip(n), Read(m)]) == [Refused, Data(bytes[at..at + m])]
    ensures n <= at && at - n + m <= |bytes| ==> FlatRun(bytes, at, [Rewind(n), Read(m)]) == [Done, Data(bytes[at - n..at - n + m])]
    ensures n > at && at + m <= |bytes| ==> FlatRun(bytes, at, [Rewind(n), Read(m)]) == [Refused, Data(bytes[at..at + m])]
  {
    TwoSteps(bytes, at, Read(n), Read(m));
    TwoSteps(bytes, at, Skip(n), Read(m));
    TwoSteps(bytes, at, Rewind(n), Read(m));
    if at + m <= |bytes| {
      SliceWithin(bytes, at, m);
    }
    if at + n + m <= |bytes| {
      SliceWithin(bytes, at, n);
      SliceWithin(bytes, at + n, m);
    }
    if n <= at && at - n + m <= |bytes| {
      SliceWithin(bytes, at - n, m);
    }
  }
}
