/** What the resolver reads out of a response (libs/dns/resolver.cc): the messages of section 4.1 of RFC 1035. */
module DnsMessages {
  import opened FlatBytes
  import opened Formats
  import opened Positional
  import opened Options
  import opened Sequences

  const TYPE_TXT := 16
  const TYPE_CERT := 37

  // ---------- Reading ----------

  /** Pass over a name: labels up to an empty one, or up to a pointer. */
  function SkipName(s: seq<Byte>): (r: Option<seq<Byte>>)
    ensures r.Some? ==> |r.value| < |s|
    decreases |s|
  {
    if |s| == 0 then None
    else
      var len := Num(s[0]);
      if len == 0 then Some(s[1..])
      else if len >= 0xc0 then (if |s| < 2 then None else Some(s[2..]))
      else if |s| < 1 + len then None
      else SkipName(s[1 + len..])
  }

  /** Pass over reflected questions. */
  function SkipQuestions(s: seq<Byte>, n: nat): (r: Option<seq<Byte>>)
    ensures r.Some? ==> |r.value| <= |s|
    decreases n
  {
    if n == 0 then Some(s)
    else
      match SkipName(s)
      case None => None
      case Some(t) => if |t| < 4 then None else SkipQuestions(t[4..], n - 1)
  }

  /** The data of the first answer of a type, or nothing. */
  function FindAnswer(s: seq<Byte>, n: nat, rtype: nat): seq<Byte>
    decreases n
  {
    if n == 0 then []
    else
      match SkipName(s)
      case None => []
      case Some(t) =>
        if |t| < 10 then []
        else
          var length, rest := BigValue(t[8..10]), t[10..];
          if |rest| < length then []
          else if BigValue(t[..2]) == rtype then rest[..length]
          else FindAnswer(rest[length..], n - 1, rtype)
  }

  /** The answer in a response; nothing if it reports an error, cannot be read or holds no such answer. */
  function Answer(s: seq<Byte>, rtype: nat): seq<Byte> {
    if |s| < 12 || BigValue(s[2..4]) % 16 != 0 then []
    else
      match SkipQuestions(s[12..], BigValue(s[4..6]))
      case None => []
      case Some(t) => FindAnswer(t, BigValue(s[6..8]), rtype)
  }

  const NEWLINE := Byte(10)

  /** Strings with their lengths in front, each followed by a newline instead; none if the lengths do not fit. */
  function Repacked(rdata: seq<Byte>): Option<seq<Byte>>
    decreases |rdata|
  {
    if |rdata| == 0 then Some([])
    else
      var len, rest := Num(rdata[0]), rdata[1..];
      if |rest| < len then None
      else
        Onto(rest[..len] + [NEWLINE], Repacked(rest[len..]))
  }

  /** Bytes in front of what follows, if anything does. */
  function Onto(done: seq<Byte>, more: Option<seq<Byte>>): Option<seq<Byte>> {
    match more
    case None => None
    case Some(s) => Some(done + s)
  }

  lemma OntoOnto(done: seq<Byte>, s: seq<Byte>, more: Option<seq<Byte>>)
    ensures Onto(done, Onto(s, more)) == Onto(done + s, more) && Onto([], more) == more
  {
    if more.Some? {
      Assoc(done, s, more.value);
      EmptyLeft(more.value);
    }
  }

  /** The certificate in the data of a CERT record: only of type PKIX, after its key tag and algorithm. */
  function Certificate(rdata: seq<Byte>): seq<Byte> {
    if |rdata| < 5 || BigValue(rdata[..2]) != 1 then [] else rdata[5..]
  }

  // ---------- Writing ----------

  datatype Ending = Root | Pointer(high: Byte, low: Byte)

  /** A name: labels, then the root or a pointer to the rest. */
  datatype Name = Name(labels: seq<seq<Byte>>, ending: Ending)

  datatype Question = Question(name: Name, typeAndClass: seq<Byte>)

  datatype Resource = Resource(name: Name, rtype: nat, classAndTtl: seq<Byte>, rdata: seq<Byte>)

  datatype Message = Message(
    id: seq<Byte>, flags: nat, questions: seq<Question>, answers: seq<Resource>, otherCounts: seq<Byte>, others: seq<Byte>)

  /** Labels as long as the resolver takes them; section 2.3.4 of RFC 1035 stops at 63. */
  predicate NameOk(n: Name) {
    && (forall part <- n.labels :: 0 < |part| < 0xc0)
    && (n.ending.Pointer? ==> Num(n.ending.high) >= 0xc0)
  }

  predicate MessageOk(m: Message) {
    && |m.id| == 2 && m.flags < 0x1_0000 && |m.otherCounts| == 4
    && |m.questions| < 0x1_0000 && |m.answers| < 0x1_0000
    && (forall q <- m.questions :: NameOk(q.name) && |q.typeAndClass| == 4)
    && (forall r <- m.answers :: ResourceOk(r))
  }

  predicate ResourceOk(r: Resource) {
    NameOk(r.name) && r.rtype < 0x1_0000 && |r.classAndTtl| == 6 && |r.rdata| < 0x1_0000
  }

  function LabelBytes(labels: seq<seq<Byte>>): seq<Byte> {
    if labels == [] then [] else [AsByte(|labels[0]|)] + (labels[0] + LabelBytes(labels[1..]))
  }

  function EndingBytes(e: Ending): seq<Byte> {
    match e
    case Root => [AsByte(0)]
    case Pointer(high, low) => [high, low]
  }

  function NameBytes(n: Name): seq<Byte> {
    LabelBytes(n.labels) + EndingBytes(n.ending)
  }

  function QuestionBytes(qs: seq<Question>): seq<Byte> {
    if qs == [] then [] else NameBytes(qs[0].name) + (qs[0].typeAndClass + QuestionBytes(qs[1..]))
  }

  function ResourceBytes(r: Resource): seq<Byte> {
    NameBytes(r.name) + (BigEndian(2, r.rtype) + r.classAndTtl + BigEndian(2, |r.rdata|) + r.rdata)
  }

  function AnswerBytes(rs: seq<Resource>): seq<Byte> {
    if rs == [] then [] else ResourceBytes(rs[0]) + AnswerBytes(rs[1..])
  }

  function Header(m: Message): (h: seq<Byte>)
    requires MessageOk(m)
    ensures |h| == 12
  {
    m.id + BigEndian(2, m.flags) + BigEndian(2, |m.questions|) + BigEndian(2, |m.answers|) + m.otherCounts
  }

  function MessageBytes(m: Message): seq<Byte>
    requires MessageOk(m)
  {
    Header(m) + (QuestionBytes(m.questions) + (AnswerBytes(m.answers) + m.others))
  }

  /** The data of the first answer of a type in a list, or nothing. */
  function FirstOf(rs: seq<Resource>, rtype: nat): seq<Byte> {
    if rs == [] then [] else if rs[0].rtype == rtype then rs[0].rdata else FirstOf(rs[1..], rtype)
  }

  // ---------- What is written is read ----------

  lemma {:induction false} LabelsSkipped(labels: seq<seq<Byte>>, rest: seq<Byte>)
    requires forall part <- labels :: 0 < |part| < 0xc0
    ensures SkipName(LabelBytes(labels) + rest) == SkipName(rest)
    decreases |labels|
  {
    if labels == [] {
      EmptyLeft(rest);
    } else {
      var part, more := labels[0], LabelBytes(labels[1..]);
      var s := LabelBytes(labels) + rest;
      DigitBack(|part|);
      Assoc([AsByte(|part|)], part + more, rest);
      Assoc(part, more, rest);
      assert s[1..] == part + (more + rest);
      DropLeft(part, more + rest);
      assert s[1 + |part|..] == more + rest;
      LabelsSkipped(labels[1..], rest);
    }
  }

  lemma NameSkipped(n: Name, rest: seq<Byte>)
    requires NameOk(n)
    ensures SkipName(NameBytes(n) + rest) == Some(rest)
  {
    Assoc(LabelBytes(n.labels), EndingBytes(n.ending), rest);
    LabelsSkipped(n.labels, EndingBytes(n.ending) + rest);
    DigitBack(0);
    DropLeft(EndingBytes(n.ending), rest);
  }

  lemma {:induction false} QuestionsSkipped(qs: seq<Question>, rest: seq<Byte>)
    requires forall q <- qs :: NameOk(q.name) && |q.typeAndClass| == 4
    ensures SkipQuestions(QuestionBytes(qs) + rest, |qs|) == Some(rest)
    decreases |qs|
  {
    if qs == [] {
      EmptyLeft(rest);
    } else {
      var more := QuestionBytes(qs[1..]);
      Assoc(NameBytes(qs[0].name), qs[0].typeAndClass + more, rest);
      Assoc(qs[0].typeAndClass, more, rest);
      NameSkipped(qs[0].name, qs[0].typeAndClass + (more + rest));
      DropLeft(qs[0].typeAndClass, more + rest);
      QuestionsSkipped(qs[1..], rest);
    }
  }

  lemma TwoBytesBack(v: nat)
    requires v < 0x1_0000
    ensures BigValue(BigEndian(2, v)) == v
  {
    IntegerBack(2, v);
    assert Power(256, 2) == 0x1_0000;
  }

  /** The fixed part of an answer and its data, as positions in what follows the name. */
  lemma ResourceParts(r: Resource, rest: seq<Byte>)
    requires ResourceOk(r)
    ensures var t := BigEndian(2, r.rtype) + r.classAndTtl + BigEndian(2, |r.rdata|) + r.rdata + rest;
            && |t| == 10 + |r.rdata| + |rest| && BigValue(t[..2]) == r.rtype && BigValue(t[8..10]) == |r.rdata|
            && t[10..][..|r.rdata|] == r.rdata && t[10..][|r.rdata|..] == rest
  {
    TwoBytesBack(r.rtype);
    TwoBytesBack(|r.rdata|);
    var head := BigEndian(2, r.rtype) + r.classAndTtl + BigEndian(2, |r.rdata|);
    var t := head + r.rdata + rest;
    Assoc(head, r.rdata, rest);
    DropLeft(head, r.rdata + rest);
    DropLeft(r.rdata, rest);
    assert t[..2] == BigEndian(2, r.rtype) && t[8..10] == BigEndian(2, |r.rdata|);
  }

  lemma {:induction false} AnswerFound(rs: seq<Resource>, rest: seq<Byte>, rtype: nat)
    requires forall r <- rs :: ResourceOk(r)
    ensures FindAnswer(AnswerBytes(rs) + rest, |rs|, rtype) == FirstOf(rs, rtype)
    decreases |rs|
  {
    if rs != [] {
      var r, more := rs[0], AnswerBytes(rs[1..]);
      assert ResourceOk(r);
      var body := BigEndian(2, r.rtype) + r.classAndTtl + BigEndian(2, |r.rdata|) + r.rdata;
      Assoc(NameBytes(r.name) + body, more, rest);
      Assoc(NameBytes(r.name), body, more + rest);
      NameSkipped(r.name, body + (more + rest));
      ResourceParts(r, more + rest);
      AnswerFound(rs[1..], rest, rtype);
    }
  }

  lemma HeaderParts(m: Message, rest: seq<Byte>)
    requires MessageOk(m)
    ensures var s := Header(m) + rest;
            && |s| >= 12 && s[12..] == rest && BigValue(s[2..4]) == m.flags
            && BigValue(s[4..6]) == |m.questions| && BigValue(s[6..8]) == |m.answers|
  {
    TwoBytesBack(m.flags);
    TwoBytesBack(|m.questions|);
    TwoBytesBack(|m.answers|);
    var s := Header(m) + rest;
    DropLeft(Header(m), rest);
    assert s[2..4] == BigEndian(2, m.flags);
    assert s[4..6] == BigEndian(2, |m.questions|);
    assert s[6..8] == BigEndian(2, |m.answers|);
  }

  /** For every well-formed message the resolver returns the data of the first answer of the type asked for, or
      nothing if there is none or the message reports an error, whatever names and records surround it. */
  lemma MessageAnswered(m: Message, rtype: nat)
    requires MessageOk(m)
    ensures Answer(MessageBytes(m), rtype) == if m.flags % 16 == 0 then FirstOf(m.answers, rtype) else []
  {
    var rest := AnswerBytes(m.answers) + m.others;
    HeaderParts(m, QuestionBytes(m.questions) + rest);
    QuestionsSkipped(m.questions, rest);
    AnswerFound(m.answers, m.others, rtype);
  }

  function PascalStrings(strings: seq<seq<Byte>>): seq<Byte> {
    if strings == [] then [] else [AsByte(|strings[0]|)] + (strings[0] + PascalStrings(strings[1..]))
  }

  function Lines(strings: seq<seq<Byte>>): seq<Byte> {
    if strings == [] then [] else strings[0] + [NEWLINE] + Lines(strings[1..])
  }

  /** The strings of a TXT record come out in order, each ended by a newline. */
  lemma {:induction false} StringsRepacked(strings: seq<seq<Byte>>)
    requires forall s <- strings :: |s| < 256
    ensures Repacked(PascalStrings(strings)) == Some(Lines(strings))
    decreases |strings|
  {
    if strings != [] {
      var s, more := strings[0], PascalStrings(strings[1..]);
      DigitBack(|s|);
      DropLeft([AsByte(|s|)], s + more);
      DropLeft(s, more);
      assert (s + more)[..|s|] == s;
      StringsRepacked(strings[1..]);
    }
  }

  /** The data of a TXT record is refused exactly when it is not a list of strings with their lengths. */
  lemma {:induction false} RepackedIff(rdata: seq<Byte>)
    ensures Repacked(rdata).Some? <==> exists strings :: (forall s <- strings :: |s| < 256) && PascalStrings(strings) == rdata
    decreases |rdata|
  {
    if Repacked(rdata).Some? {
      var strings := Unpacked(rdata);
      assert PascalStrings(strings) == rdata;
    }
    if strings :| (forall s <- strings :: |s| < 256) && PascalStrings(strings) == rdata {
      StringsRepacked(strings);
    }
  }

  lemma InPieces(s: seq<Byte>, n: nat)
    requires |s| > 0 && n <= |s| - 1
    ensures s == [s[0]] + (s[1..][..n] + s[1..][n..])
  {
  }

  lemma {:induction false} Unpacked(rdata: seq<Byte>) returns (strings: seq<seq<Byte>>)
    requires Repacked(rdata).Some?
    ensures (forall s <- strings :: |s| < 256) && PascalStrings(strings) == rdata
    decreases |rdata|
  {
    if |rdata| == 0 {
      strings := [];
    } else {
      var len := Num(rdata[0]);
      var first, left := rdata[1..][..len], rdata[1..][len..];
      var more := Unpacked(left);
      strings := [first] + more;
      InPieces(rdata, len);
    }
  }

  /** A PKIX certificate record gives its certificate, any other type nothing. */
  lemma CertificateBack(kind: nat, tagAndAlgorithm: seq<Byte>, der: seq<Byte>)
    requires kind < 0x1_0000 && |tagAndAlgorithm| == 3
    ensures Certificate(BigEndian(2, kind) + tagAndAlgorithm + der) == if kind == 1 then der else []
  {
    TwoBytesBack(kind);
    var head := BigEndian(2, kind) + tagAndAlgorithm;
    DropLeft(head, der);
    assert (head + der)[..2] == BigEndian(2, kind);
  }
}
