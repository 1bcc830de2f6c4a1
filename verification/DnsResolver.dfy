/** The resolver's parsing of a response (libs/dns/resolver.cc), step by step over a block reader. */
module DnsResolvers {
  import opened ChannelReaders
  import opened DnsMessages
  import opened FlatBytes
  import opened Formats
  import opened Options
  import opened Sequences

  /** A reader over a block of memory delivers whatever is asked for. */
  method OpenBlock(data: seq<Byte>) returns (r: Reader)
    ensures r.Valid() && r.inner == null && fresh(r) && r.repr == {r} && r.Left() == data && r.data == data && r.offset == 0
  {
    r := new Reader.Source(data, _ => |data| + 1);
  }

  method ReadByte(r: Reader) returns (got: Got<nat>)
    requires r.Valid() && r.inner == null
    modifies r.repr
    ensures r.Valid() && !got.AtEnd? && (got.Got? <==> old(r.Left()) != [])
    ensures got.Got? ==> got.value == Num(old(r.Left())[0]) && r.Left() == old(r.Left())[1..]
  {
    var b := r.Read(1);
    got := if b.Got? then Got(Num(b.value[0])) else Thrown("EOF");
  }

  /** Pass over a name, part by part, until an empty part or a pointer. */
  method PassName(r: Reader) returns (thrown: bool)
    requires r.Valid() && r.inner == null
    modifies r.repr
    ensures r.Valid() && (thrown <==> SkipName(old(r.Left())).None?)
    ensures !thrown ==> r.Left() == SkipName(old(r.Left())).value
  {
    ghost var all := r.Left();
    while true
      invariant r.Valid() && SkipName(r.Left()) == SkipName(all)
      decreases |r.Left()|
    {
      var len := ReadByte(r);
      if len.Thrown? {
        return true;
      }
      if len.value == 0 {
        return false;
      }
      if len.value >= 0xc0 {
        thrown := r.SkipInBlock(1);
        return;
      }
      thrown := r.SkipInBlock(len.value);
      if thrown {
        return;
      }
    }
  }

  method PassQuestions(r: Reader, n: nat) returns (thrown: bool)
    requires r.Valid() && r.inner == null
    modifies r.repr
    ensures r.Valid() && (thrown <==> SkipQuestions(old(r.Left()), n).None?)
    ensures !thrown ==> r.Left() == SkipQuestions(old(r.Left()), n).value
  {
    ghost var goal := SkipQuestions(r.Left(), n);
    var i := 0;
    while i < n
      invariant 0 <= i <= n && r.Valid() && SkipQuestions(r.Left(), n - i) == goal
    {
      thrown := PassQuestion(r, n - i, goal);
      if thrown {
        return;
      }
      i := i + 1;
    }
    return false;
  }

  /** A question's name, its type and its class. */
  method PassQuestion(r: Reader, ghost n: nat, ghost goal: Option<seq<Byte>>) returns (thrown: bool)
    requires r.Valid() && r.inner == null && n > 0 && goal == SkipQuestions(r.Left(), n)
    modifies r.repr
    ensures r.Valid() && if thrown then goal == None else goal == SkipQuestions(r.Left(), n - 1)
  {
    thrown := PassName(r);
    if !thrown {
      thrown := r.SkipInBlock(4);
    }
  }

  /** The fixed part of an answer after its name. */
  method ReadFixedPart(r: Reader) returns (thrown: bool, rtype: nat, length: nat)
    requires r.Valid() && r.inner == null
    modifies r.repr
    ensures r.Valid() && (thrown <==> |old(r.Left())| < 10)
    ensures !thrown ==>
              && rtype == BigValue(old(r.Left())[..2]) && length == BigValue(old(r.Left())[8..10])
              && r.Left() == old(r.Left())[10..]
  {
    ghost var all := r.Left();
    rtype, length := 0, 0;
    var first := r.ReadNbo16();
    if first.Thrown? {
      return true, 0, 0;
    }
    rtype := first.value;
    thrown, length := ReadLength(r, all);
  }

  /** Pass over the class and the time to live, and read the length of the data. */
  method ReadLength(r: Reader, ghost all: seq<Byte>) returns (thrown: bool, length: nat)
    requires r.Valid() && r.inner == null && |all| >= 2 && r.Left() == all[2..]
    modifies r.repr
    ensures r.Valid() && (thrown <==> |all| < 10)
    ensures !thrown ==> length == BigValue(all[8..10]) && r.Left() == all[10..]
  {
    length := 0;
    thrown := r.SkipInBlock(6);
    if thrown {
      return;
    }
    assert r.Left() == all[8..];
    var second := r.ReadNbo16();
    if second.Thrown? {
      return true, 0;
    }
    assert all[8..][..2] == all[8..10] && all[8..][2..] == all[10..];
    return false, second.value;
  }

  /** Check one answer: done if it is of the right type or cannot be read. */
  method ScanAnswer(r: Reader, ghost n: nat, wanted: nat, ghost goal: seq<Byte>) returns (done: bool, rdata: seq<Byte>)
    requires r.Valid() && r.inner == null && n > 0 && goal == FindAnswer(r.Left(), n, wanted)
    modifies r.repr
    ensures r.Valid() && goal == if done then rdata else FindAnswer(r.Left(), n - 1, wanted)
  {
    var thrown := PassName(r);
    if thrown {
      return true, [];
    }
    var rtype, length;
    thrown, rtype, length := ReadFixedPart(r);
    if thrown {
      return true, [];
    }
    if rtype == wanted {
      var got := r.Read(length);
      return true, if got.Got? then got.value else [];
    }
    thrown := r.SkipInBlock(length);
    return thrown, [];
  }

  /** Check each answer for the right type. */
  method ScanAnswers(r: Reader, n: nat, wanted: nat) returns (rdata: seq<Byte>)
    requires r.Valid() && r.inner == null
    modifies r.repr
    ensures rdata == FindAnswer(old(r.Left()), n, wanted)
  {
    ghost var goal := FindAnswer(r.Left(), n, wanted);
    var left: nat := n;
    rdata := [];
    while left > 0
      invariant r.Valid() && FindAnswer(r.Left(), left, wanted) == goal
    {
      var done;
      done, rdata := ScanAnswer(r, left, wanted, goal);
      if done {
        return;
      }
      left := left - 1;
    }
    return [];
  }

  /** The identifier is passed over; the low four bits of the flags must be zero. */
  method ReadFlags(r: Reader) returns (ok: bool)
    requires r.Valid() && r.inner == null
    modifies r.repr
    ensures r.Valid()
    ensures ok <==> |old(r.Left())| >= 4 && BigValue(old(r.Left())[2..][..2]) % 16 == 0
    ensures ok ==> r.Left() == old(r.Left())[2..][2..]
  {
    var thrown := r.SkipInBlock(2);
    if thrown {
      return false;
    }
    var flags := r.ReadNbo16();
    ok := flags.Got? && flags.value % 16 == 0;
  }

  method ReadCounts(r: Reader) returns (ok: bool, questions: nat, answers: nat)
    requires r.Valid() && r.inner == null
    modifies r.repr
    ensures r.Valid() && (ok <==> |old(r.Left())| >= 8)
    ensures ok ==> var s := old(r.Left());
                   questions == BigValue(s[..2]) && answers == BigValue(s[2..][..2]) && r.Left() == s[2..][2..][4..]
  {
    ok, questions, answers := false, 0, 0;
    var qd := r.ReadNbo16();
    if qd.Thrown? {
      return;
    }
    var an := r.ReadNbo16();
    if an.Thrown? {
      return;
    }
    var thrown := r.SkipInBlock(4);
    if thrown {
      return;
    }
    return true, qd.value, an.value;
  }

  /** The fields of a header, by their places in it. */
  lemma HeaderPlaces(s: seq<Byte>)
    ensures |s| >= 4 ==> s[2..][..2] == s[2..4] && s[2..][2..] == s[4..]
    ensures |s| >= 12 ==> s[4..][..2] == s[4..6] && s[4..][2..][..2] == s[6..8] && s[4..][2..][2..][4..] == s[12..]
  {
  }

  method ReadHeader(r: Reader) returns (ok: bool, questions: nat, answers: nat)
    requires r.Valid() && r.inner == null
    modifies r.repr
    ensures r.Valid()
    ensures var s := old(r.Left());
            && (ok <==> |s| >= 12 && BigValue(s[2..4]) % 16 == 0)
            && (ok ==> questions == BigValue(s[4..6]) && answers == BigValue(s[6..8]) && r.Left() == s[12..])
  {
    ghost var s := r.Left();
    questions, answers := 0, 0;
    ok := ReadFlags(r);
    HeaderPlaces(s);
    if ok {
      ok, questions, answers := ReadCounts(r);
    }
  }

  /** The data of the first answer of a type in a response.  Whatever the bytes, reading ends and stays inside them. */
  method Query(response: seq<Byte>, wanted: nat) returns (rdata: seq<Byte>)
    ensures rdata == Answer(response, wanted)
  {
    var r := OpenBlock(response);
    rdata := ReadResponse(r, wanted);
  }

  method ReadResponse(r: Reader, wanted: nat) returns (rdata: seq<Byte>)
    requires r.Valid() && r.inner == null
    modifies r.repr
    ensures rdata == Answer(old(r.Left()), wanted)
  {
    var ok, questions, answers := ReadHeader(r);
    if !ok {
      return [];
    }
    var thrown := PassQuestions(r, questions);
    if thrown {
      return [];
    }
    rdata := ScanAnswers(r, answers, wanted);
  }

  /** Read one string after its length byte, and end it with a newline. */
  method ReadLine(r: Reader, text: seq<Byte>, ghost goal: Option<seq<Byte>>) returns (thrown: bool, more: seq<Byte>)
    requires r.Valid() && r.inner == null && r.Left() != [] && goal == Onto(text, Repacked(r.Left()))
    modifies r.repr
    ensures r.Valid() && |r.Left()| < |old(r.Left())|
    ensures goal == if thrown then None else Onto(more, Repacked(r.Left()))
  {
    var len := ReadByte(r);
    var got := r.Read(len.value);
    if got.Thrown? {
      return true, [];
    }
    OntoOnto(text, got.value + [NEWLINE], Repacked(r.Left()));
    Assoc(text, got.value, [NEWLINE]);
    return false, text + got.value + [NEWLINE];
  }

  /** The strings of the first TXT answer, one to a line. */
  method QueryTxt(response: seq<Byte>) returns (text: seq<Byte>)
    ensures text == match Repacked(Answer(response, TYPE_TXT))
                    case None => []
                    case Some(lines) => lines
  {
    var rdata := Query(response, TYPE_TXT);
    text := Repack(rdata);
  }

  method Repack(rdata: seq<Byte>) returns (text: seq<Byte>)
    ensures text == match Repacked(rdata)
                    case None => []
                    case Some(lines) => lines
  {
    var r := OpenBlock(rdata);
    var thrown;
    thrown, text := ReadLines(r, Repacked(rdata));
    if thrown {
      return [];
    }
  }

  /** Read strings until the data are used up. */
  method ReadLines(r: Reader, ghost goal: Option<seq<Byte>>) returns (thrown: bool, text: seq<Byte>)
    requires r.Valid() && r.inner == null && goal == Repacked(r.Left())
    modifies r.repr
    ensures goal == if thrown then None else Some(text)
  {
    thrown, text := false, [];
    OntoOnto([], [], goal);
    while r.offset < |r.data|
      invariant r.Valid() && goal == Onto(text, Repacked(r.Left()))
      decreases |r.Left()|
    {
      thrown, text := ReadLine(r, text, goal);
      if thrown {
        return;
      }
    }
    assert text + [] == text;
  }

  /** The certificate of the first CERT answer. */
  method QueryCert(response: seq<Byte>) returns (der: seq<Byte>)
    ensures der == Certificate(Answer(response, TYPE_CERT))
  {
    var rdata := Query(response, TYPE_CERT);
    der := ReadCertificate(rdata);
  }

  method ReadCertificate(rdata: seq<Byte>) returns (der: seq<Byte>)
    ensures der == Certificate(rdata)
  {
    var r := OpenBlock(rdata);
    der := ReadPkix(r, rdata);
  }

  method ReadPkix(r: Reader, ghost rdata: seq<Byte>) returns (der: seq<Byte>)
    requires r.Valid() && r.inner == null && r.data == rdata == r.Left()
    modifies r.repr
    ensures der == Certificate(rdata)
  {
    var kind := r.ReadNbo16();
    if kind.Thrown? || kind.value != 1 {
      return [];
    }
    der := ReadRest(r, rdata);
  }

  /** Pass over the key tag and the algorithm, and read the rest. */
  method ReadRest(r: Reader, ghost rdata: seq<Byte>) returns (der: seq<Byte>)
    requires r.Valid() && r.inner == null && r.data == rdata && |rdata| >= 2 && r.Left() == rdata[2..]
    modifies r.repr
    ensures der == if |rdata| < 5 then [] else rdata[5..]
  {
    var thrown := r.SkipInBlock(3);
    if thrown {
      return [];
    }
    assert r.Left() == rdata[2..][3..] == rdata[5..];
    var got := r.Read(|r.data| - r.offset);
    return got.value;
  }
}
