module DnsAnswers {
  // What the resolver makes of a whole response, with the numbers of RFC 1035 (section 3.2.2) and RFC 4398 (section
  // 2).

  import opened DnsMessages
  import opened FlatBytes
  import opened Formats
  import opened Options
  import opened Sequences

  /** The first answer with this number for its type. */
  predicate FirstWith(m: Message, number: nat, i: nat) {
    i < |m.answers| && m.answers[i].rtype == number && forall j | 0 <= j < i :: m.answers[j].rtype != number
  }

  lemma {:induction false} FirstIs(rs: seq<Resource>, number: nat, i: nat)
    requires i < |rs| && rs[i].rtype == number && forall j | 0 <= j < i :: rs[j].rtype != number
    ensures FirstOf(rs, number) == rs[i].rdata
  {
    if i > 0 {
      assert rs[0].rtype != number;
      FirstIs(rs[1..], number, i - 1);
    }
  }

  lemma {:induction false} NoneIs(rs: seq<Resource>, number: nat)
    requires forall r <- rs :: r.rtype != number
    ensures FirstOf(rs, number) == []
  {
    if rs != [] {
      assert rs[0] in rs && forall r <- rs[1..] :: r in rs;
      NoneIs(rs[1..], number);
    }
  }

  /** Some strings, each with a line feed after it. */
  function Ended(strings: seq<seq<Byte>>): seq<Byte> {
    if strings == [] then [] else strings[0] + [Byte(10)] + Ended(strings[1..])
  }

  lemma {:induction false} LinesAreEnded(strings: seq<seq<Byte>>)
    ensures Lines(strings) == Ended(strings)
  {
    if strings != [] {
      LinesAreEnded(strings[1..]);
    }
  }

  /** A message whose first answer of type 16 holds some strings gives these strings, each ended by byte 10. */
  lemma TxtAnswered(m: Message, i: nat, strings: seq<seq<Byte>>)
    requires MessageOk(m) && m.flags % 16 == 0 && FirstWith(m, 16, i)
    requires (forall s <- strings :: |s| < 256) && m.answers[i].rdata == PascalStrings(strings)
    ensures Repacked(Answer(MessageBytes(m), TYPE_TXT)) == Some(Ended(strings))
  {
    MessageAnswered(m, 16);
    FirstIs(m.answers, 16, i);
    StringsRepacked(strings);
    LinesAreEnded(strings);
  }

  /** A message whose first answer of type 37 is a PKIX certificate (kind 1) gives what follows its key tag and algorithm. */
  lemma CertAnswered(m: Message, i: nat, tagAndAlgorithm: seq<Byte>, der: seq<Byte>)
    requires MessageOk(m) && m.flags % 16 == 0 && FirstWith(m, 37, i)
    requires |tagAndAlgorithm| == 3 && m.answers[i].rdata == [Byte(0), Byte(1)] + tagAndAlgorithm + der
    ensures Certificate(Answer(MessageBytes(m), TYPE_CERT)) == der
  {
    MessageAnswered(m, 37);
    FirstIs(m.answers, 37, i);
    Bytes2(1);
    CertificateBack(1, tagAndAlgorithm, der);
  }

  /** Without an answer of the type, or with an error, there is nothing. */
  lemma NothingAnswered(m: Message)
    requires MessageOk(m)
    ensures m.flags % 16 != 0 || (forall r <- m.answers :: r.rtype != 16) ==>
              Repacked(Answer(MessageBytes(m), TYPE_TXT)) == Some([])
    ensures m.flags % 16 != 0 || (forall r <- m.answers :: r.rtype != 37) ==>
              Certificate(Answer(MessageBytes(m), TYPE_CERT)) == []
  {
    MessageAnswered(m, 16);
    MessageAnswered(m, 37);
    if forall r <- m.answers :: r.rtype != 16 {
      NoneIs(m.answers, 16);
    }
    if forall r <- m.answers :: r.rtype != 37 {
      NoneIs(m.answers, 37);
    }
  }
}
