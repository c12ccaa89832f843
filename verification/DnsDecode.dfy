/** Reading a query back, and what that says about the builder. */
module DnsDecode {
  import opened Common
  import opened DnsQuery

  /** A message with one question and nothing after it. */
  datatype Message = Message(id: seq<Byte>, flags: int, labels: seq<seq<Byte>>, qtype: int, qclass: int)

  function Read16(s: seq<Byte>, i: nat): int
    requires i + 2 <= |s|
  {
    (s[i] as int) * 0x100 + s[i + 1] as int
  }

  /** A name at the front of s: its labels and what follows it. Lengths above 63 are not labels. */
  function DecodeName(s: seq<Byte>): Option<(seq<seq<Byte>>, seq<Byte>)>
    decreases |s|
  {
    if s == [] then None
    else if s[0] == 0 then Some(([], s[1..]))
    else if s[0] > MAX_LABEL || 1 + s[0] > |s| then None
    else
      match DecodeName(s[1 + s[0]..])
      case None => None
      case Some((labels, rest)) => Some(([s[1..1 + s[0]]] + labels, rest))
  }

  function Decode(s: seq<Byte>): Option<Message> {
    if |s| < HEADER_SIZE || Read16(s, 4) != 1 || Read16(s, 6) != 0 || Read16(s, 8) != 0 || Read16(s, 10) != 0 then None
    else
      match DecodeName(s[HEADER_SIZE..])
      case None => None
      case Some((labels, rest)) =>
        if |rest| != 4 then None
        else Some(Message(s[..2], Read16(s, 2), labels, Read16(rest, 0), Read16(rest, 2)))
  }

  lemma AllLabelsCons(part: seq<Byte>, rest: seq<seq<Byte>>)
    ensures AllLabels([part] + rest) <==> IsLabel(part) && AllLabels(rest)
  {
    assert ([part] + rest)[1..] == rest;
  }

  lemma {:induction false} DecodedLabels(s: seq<Byte>)
    ensures DecodeName(s).Some? ==> AllLabels(DecodeName(s).value.0)
    decreases |s|
  {
    if s != [] && 0 < s[0] <= MAX_LABEL && 1 + s[0] <= |s| {
      var d := DecodeName(s[1 + s[0]..]);
      DecodedLabels(s[1 + s[0]..]);
      if d.Some? {
        AllLabelsCons(s[1..1 + s[0]], d.value.0);
      }
    }
  }

  // ----- the round trip

  lemma {:induction false} DecodeLabel(part: seq<Byte>, s: seq<Byte>)
    requires IsLabel(part)
    ensures DecodeName([|part|] + part + s)
         == match DecodeName(s) { case None => None case Some((labels, rest)) => Some(([part] + labels, rest)) }
  {
    var all := [|part|] + part + s;
    assert all[1..1 + |part|] == part && all[1 + |part|..] == s;
  }

  lemma EncodedFront(part: seq<Byte>, rest: seq<seq<Byte>>, after: seq<Byte>)
    requires IsLabel(part)
    ensures Encoded([part] + rest) + [0] + after == [|part|] + part + (Encoded(rest) + [0] + after)
  {
    EncodedCons(part, rest);
    Assoc([|part|] + part, Encoded(rest), [0]);
    Assoc([|part|] + part, Encoded(rest) + [0], after);
  }

  lemma DecodeCons(part: seq<Byte>, rest: seq<seq<Byte>>, after: seq<Byte>)
    requires IsLabel(part) && DecodeName(Encoded(rest) + [0] + after) == Some((rest, after))
    ensures DecodeName(Encoded([part] + rest) + [0] + after) == Some(([part] + rest, after))
  {
    EncodedFront(part, rest, after);
    DecodeLabel(part, Encoded(rest) + [0] + after);
  }

  lemma DecodeRoot(after: seq<Byte>)
    ensures DecodeName([0] + after) == Some(([], after))
  {
    assert ([0] + after)[1..] == after;
  }

  lemma {:induction false} DecodeEncoded(labels: seq<seq<Byte>>, after: seq<Byte>)
    requires AllLabels(labels)
    ensures DecodeName(Encoded(labels) + [0] + after) == Some((labels, after))
    decreases |labels|
  {
    if labels == [] {
      DecodeRoot(after);
      assert Encoded(labels) + [0] + after == [0] + after;
    } else {
      DecodeEncoded(labels[1..], after);
      DecodeCons(labels[0], labels[1..], after);
      assert [labels[0]] + labels[1..] == labels;
    }
  }

  /** The name on the wire: the encoded labels and a zero byte, for the root too. */
  lemma {:induction false} QNameOfLabels(name: seq<Byte>)
    ensures QName(name) == Encoded(Labels(name)) + [0]
  {
    if name == [DOT] {
      assert NextDot(name, 0) == 0;
      assert LabelsFrom(name, 1) == [];
      assert LabelsFrom(name, 0) == [[]];
      var empty: seq<Byte> := [];
      EncodedCons(empty, []);
      assert [empty] + [] == [empty];
    }
  }

  lemma HeaderFields(id: seq<Byte>, rest: seq<Byte>)
    requires |id| == 2
    ensures var s := Header(id) + rest;
            && |Header(id)| == HEADER_SIZE && s[..2] == id && Read16(s, 2) == 0x0100
            && Read16(s, 4) == 1 && Read16(s, 6) == 0 && Read16(s, 8) == 0 && Read16(s, 10) == 0
  {
  }

  lemma TailFields(qtype: int)
    ensures var tail := Big16(qtype) + Big16(1);
            |tail| == 4 && Read16(tail, 0) == qtype % 0x1_0000 && Read16(tail, 2) == 1
  {
  }

  lemma {:induction false} DecodeParts(id: seq<Byte>, question: seq<Byte>, labels: seq<seq<Byte>>, tail: seq<Byte>)
    requires |id| == 2 && |tail| == 4 && DecodeName(question) == Some((labels, tail))
    ensures Decode(Header(id) + question) == Some(Message(id, 0x0100, labels, Read16(tail, 0), Read16(tail, 2)))
  {
    HeaderFields(id, question);
    assert (Header(id) + question)[HEADER_SIZE..] == question;
  }

  /** A query is the header followed by the question. */
  lemma {:induction false} QueryParts(id: seq<Byte>, name: seq<Byte>, qtype: int)
    ensures Query(id, name, qtype) == Header(id) + (Encoded(Labels(name)) + [0] + (Big16(qtype) + Big16(1)))
  {
    QNameOfLabels(name);
    Assoc(Header(id), QName(name), Big16(qtype) + Big16(1));
    Assoc(Header(id) + QName(name), Big16(qtype), Big16(1));
  }

  /** The bytes of a query: id, recursion desired, one question, the name, the type and the class IN, high bytes first. */
  lemma QueryOnTheWire(id: seq<Byte>, name: seq<Byte>, qtype: int)
    ensures Query(id, name, qtype)
         == (id + [1, 0, 0, 1, 0, 0, 0, 0, 0, 0]) + (Encoded(Labels(name)) + [0] + [qtype / 256 % 256, qtype % 256, 0, 1])
  {
    QueryParts(id, name, qtype);
    assert Header(id) == id + [1, 0, 0, 1, 0, 0, 0, 0, 0, 0];
    assert Big16(qtype) + Big16(1) == [qtype / 256 % 256, qtype % 256, 0, 1];
  }

  /** Each label on the wire: its length, then its bytes. */
  lemma {:induction false} LabelOnTheWire(labels: seq<seq<Byte>>, part: seq<Byte>)
    requires |part| < 256
    ensures Encoded([]) == [] && Encoded([part] + labels) == [|part|] + part + Encoded(labels)
  {
    EncodedCons(part, labels);
  }

  /** Decoding the built query recovers the labels, the type, the class IN and the recursion flag. */
  lemma {:induction false} QueryRoundTrip(id: seq<Byte>, name: seq<Byte>, qtype: int)
    requires |id| == 2 && AllLabels(Labels(name))
    ensures Decode(Query(id, name, qtype)) == Some(Message(id, 0x0100, Labels(name), qtype % 0x1_0000, 1))
  {
    var tail := Big16(qtype) + Big16(1);
    QueryParts(id, name, qtype);
    TailFields(qtype);
    DecodeEncoded(Labels(name), tail);
    DecodeParts(id, Encoded(Labels(name)) + [0] + tail, Labels(name), tail);
  }

  /** Labels are proper exactly when each has between 1 and 63 bytes. */
  lemma {:induction false} ProperLabels(labels: seq<seq<Byte>>)
    ensures AllLabels(labels) <==> forall i :: 0 <= i < |labels| ==> 1 <= |labels[i]| <= 63
    decreases |labels|
  {
    if labels != [] {
      var rest := labels[1..];
      assert forall i :: 0 <= i < |rest| ==> rest[i] == labels[i + 1];
      ProperLabels(rest);
      if 1 <= |labels[0]| <= 63 && AllLabels(rest) {
        forall i | 0 <= i < |labels|
          ensures 1 <= |labels[i]| <= 63
        {
          if i > 0 {
            assert labels[i] == rest[i - 1];
          }
        }
      }
    }
  }

  /** The query denotes the name exactly when every label has between 1 and 63 bytes. */
  lemma QueryDenotesNameIff(id: seq<Byte>, name: seq<Byte>, qtype: int)
    requires |id| == 2
    ensures Decode(Query(id, name, qtype)) == Some(Message(id, 0x0100, Labels(name), qtype % 0x1_0000, 1))
       <==> forall i :: 0 <= i < |Labels(name)| ==> 1 <= |Labels(name)[i]| <= 63
  {
    var s := Query(id, name, qtype);
    ProperLabels(Labels(name));
    if AllLabels(Labels(name)) {
      QueryRoundTrip(id, name, qtype);
    } else if |s| >= HEADER_SIZE {
      DecodedLabels(s[HEADER_SIZE..]);
    }
  }

  /** The name "a..b": its empty label ends the encoded name early, and the query no longer decodes. */
  lemma EmptyLabelBreaksQuery(id: seq<Byte>, qtype: int)
    requires |id| == 2
    ensures Labels([0x61, 0x2e, 0x2e, 0x62]) == [[0x61], [], [0x62]]
    ensures Decode(Query(id, [0x61, 0x2e, 0x2e, 0x62], qtype)) == None
  {
    var name: seq<Byte> := [0x61, 0x2e, 0x2e, 0x62];
    EmptyLabel(name);
    QueryParts(id, name, qtype);
    var tail := Big16(qtype) + Big16(1);
    var rest := [1, 0x62, 0] + tail;
    assert Encoded([[0x61], [], [0x62]]) == [1, 0x61, 0, 1, 0x62] by { EncodeEmptyLabel(); }
    assert Encoded(Labels(name)) + [0] + tail == Encoded([[0x61]]) + [0] + rest;
    DecodeEncoded([[0x61]], rest);
    HeaderFields(id, Encoded([[0x61]]) + [0] + rest);
    assert Query(id, name, qtype)[HEADER_SIZE..] == Encoded([[0x61]]) + [0] + rest;
  }

  lemma EmptyLabel(name: seq<Byte>)
    requires name == [0x61, 0x2e, 0x2e, 0x62]
    ensures Labels(name) == [[0x61], [], [0x62]]
  {
    assert NextDot(name, 1) == 1 && NextDot(name, 0) == 1;
    assert NextDot(name, 4) == 4 && NextDot(name, 3) == 4;
    assert LabelsFrom(name, 4) == [];
    assert name[3..4] == [0x62] && name[2..2] == [] && name[0..1] == [0x61];
    assert LabelsFrom(name, 3) == [[0x62]] + LabelsFrom(name, 4) == [[0x62]];
    assert LabelsFrom(name, 2) == [[]] + LabelsFrom(name, 3) == [[], [0x62]];
    assert LabelsFrom(name, 0) == [[0x61]] + LabelsFrom(name, 2);
  }

  lemma EncodeEmptyLabel()
    ensures Encoded([[0x61]]) == [1, 0x61]
    ensures Encoded([[0x61], [], [0x62]]) == [1, 0x61, 0, 1, 0x62]
  {
    var empty: seq<Byte> := [];
    EncodedCons([0x62], []);
    EncodedCons([0x61], []);
    EncodedCons(empty, [[0x62]]);
    EncodedCons([0x61], [empty, [0x62]]);
    assert [[0x62]] + [] == [[0x62]] && [[0x61]] + [] == [[0x61]];
    assert [empty] + [[0x62]] == [empty, [0x62]];
    assert [[0x61]] + [empty, [0x62]] == [[0x61], empty, [0x62]];
  }

  // ----- length, and names that encode alike

  /** A name without one trailing dot. */
  function Stem(name: seq<Byte>): seq<Byte> {
    if name != [] && name[|name| - 1] == DOT then name[..|name| - 1] else name
  }

  function Join(labels: seq<seq<Byte>>): seq<Byte>
    decreases |labels|
  {
    if labels == [] then []
    else if |labels| == 1 then labels[0]
    else labels[0] + [DOT] + Join(labels[1..])
  }

  lemma StemAfterDot(part: seq<Byte>, rest: seq<Byte>)
    requires rest != []
    ensures Stem(part + [DOT] + rest) == part + [DOT] + Stem(rest)
  {
    var s := part + [DOT] + rest;
    assert s[|s| - 1] == rest[|rest| - 1];
  }

  lemma {:induction false} JoinCons(part: seq<Byte>, rest: seq<seq<Byte>>)
    requires rest != []
    ensures Join([part] + rest) == part + [DOT] + Join(rest)
  {
    assert ([part] + rest)[1..] == rest;
  }

  lemma {:induction false} JoinStep(part: seq<Byte>, rest: seq<seq<Byte>>, tail: seq<Byte>)
    requires rest != [] && tail != [] && Join(rest) == Stem(tail)
    ensures Join([part] + rest) == Stem(part + [DOT] + tail)
  {
    JoinCons(part, rest);
    StemAfterDot(part, tail);
  }

  lemma CutAt(name: seq<Byte>, i: nat, e: nat)
    requires i <= e < |name|
    ensures name[i..] == name[i..e] + [name[e]] + name[e + 1..]
  {
  }

  lemma LabelsStep(name: seq<Byte>, i: nat)
    requires i < |name| && NextDot(name, i) < |name| - 1
    ensures LabelsFrom(name, i) == [name[i..NextDot(name, i)]] + LabelsFrom(name, NextDot(name, i) + 1)
    ensures LabelsFrom(name, NextDot(name, i) + 1) != []
  {
  }

  /** A label, the dot after it, and the labels after that. */
  lemma LabelsAt(name: seq<Byte>, i: nat)
    requires i < |name| && NextDot(name, i) < |name| - 1
    ensures var e := NextDot(name, i);
            && LabelsFrom(name, i) == [name[i..e]] + LabelsFrom(name, e + 1)
            && LabelsFrom(name, e + 1) != []
            && name[i..] == name[i..e] + [DOT] + name[e + 1..]
  {
    NextDotIsFirst(name, i);
    LabelsStep(name, i);
    CutAt(name, i, NextDot(name, i));
  }

  lemma {:induction false} JoinLabelsFrom(name: seq<Byte>, i: nat)
    requires i <= |name| && AllLabels(LabelsFrom(name, i))
    ensures Join(LabelsFrom(name, i)) == Stem(name[i..])
    decreases |name| - i
  {
    if i < |name| {
      var e := NextDot(name, i);
      var part := name[i..e];
      NextDotIsFirst(name, i);
      if e < |name| - 1 {
        LabelsAt(name, i);
        AllLabelsCons(part, LabelsFrom(name, e + 1));
        JoinLabelsFrom(name, e + 1);
        JoinStep(part, LabelsFrom(name, e + 1), name[e + 1..]);
      } else {
        LastLabel(name, i);
      }
    }
  }

  lemma {:induction false} LastLabel(name: seq<Byte>, i: nat)
    requires i < |name| && NextDot(name, i) >= |name| - 1
    ensures Join(LabelsFrom(name, i)) == Stem(name[i..])
  {
    var e := NextDot(name, i);
    var part := name[i..e];
    NextDotIsFirst(name, i);
    assert LabelsFrom(name, |name|) == [];
    assert LabelsFrom(name, i) == [part];
    assert name[i..] == if e == |name| then part else part + [DOT];
  }

  /** The labels of a name spell it, up to one trailing dot. */
  lemma JoinLabels(name: seq<Byte>)
    requires AllLabels(Labels(name))
    ensures Join(Labels(name)) == Stem(name)
  {
    if name != [DOT] {
      JoinLabelsFrom(name, 0);
      assert name[0..] == name;
    }
  }

  lemma {:induction false} NextDotAppend(t: seq<Byte>, i: nat)
    requires i <= |t|
    ensures NextDot(t + [DOT], i) == NextDot(t, i)
    decreases |t| - i
  {
    if i < |t| && t[i] != DOT {
      NextDotAppend(t, i + 1);
    }
  }

  /** A trailing dot adds no label. */
  lemma {:induction false} TrailingDot(t: seq<Byte>, i: nat)
    requires i <= |t| && AllLabels(LabelsFrom(t + [DOT], i))
    ensures LabelsFrom(t + [DOT], i) == LabelsFrom(t, i)
    decreases |t| - i
  {
    var name := t + [DOT];
    var e := NextDot(t, i);
    NextDotAppend(t, i);
    var part, rest := name[i..e], LabelsFrom(name, e + 1);
    assert LabelsFrom(name, i) == [part] + rest;
    AllLabelsCons(part, rest);
    assert part == t[i..e];
    if e < |t| {
      TrailingDot(t, e + 1);
      assert LabelsFrom(t, i) == [part] + LabelsFrom(t, e + 1);
    } else {
      assert rest == [];
      assert LabelsFrom(t, i) == [part] + [];
    }
  }

  lemma LabelsByStem(name: seq<Byte>)
    requires AllLabels(Labels(name))
    ensures Labels(name) == LabelsFrom(Stem(name), 0)
  {
    if name != [] && name != [DOT] && name[|name| - 1] == DOT {
      assert Stem(name) + [DOT] == name;
      TrailingDot(Stem(name), 0);
    }
  }

  lemma {:induction false} EncodedInjective(a: seq<seq<Byte>>, b: seq<seq<Byte>>)
    requires AllLabels(a) && AllLabels(b) && Encoded(a) + [0] == Encoded(b) + [0]
    ensures a == b
  {
    DecodeEncoded(a, []);
    DecodeEncoded(b, []);
  }

  /** Two proper names encode alike exactly when they are equal up to one trailing dot. */
  lemma NamesEncodeAlike(a: seq<Byte>, b: seq<Byte>)
    requires AllLabels(Labels(a)) && AllLabels(Labels(b))
    ensures QName(a) == QName(b) <==> Stem(a) == Stem(b)
  {
    QNameOfLabels(a);
    QNameOfLabels(b);
    if QName(a) == QName(b) {
      EncodedInjective(Labels(a), Labels(b));
      JoinLabels(a);
      JoinLabels(b);
    }
    if Stem(a) == Stem(b) {
      LabelsByStem(a);
      LabelsByStem(b);
    }
  }

  lemma {:induction false} EncodedLength(labels: seq<seq<Byte>>)
    ensures |Encoded(labels)| == if labels == [] then 0 else |Join(labels)| + 1
    decreases |labels|
  {
    if labels != [] {
      EncodedLength(labels[1..]);
    }
  }

  /** The length returned for a proper name; the root takes one byte however it is written. */
  lemma QueryLength(id: seq<Byte>, name: seq<Byte>, qtype: int)
    requires |id| == 2 && AllLabels(Labels(name))
    ensures |Query(id, name, qtype)| == HEADER_SIZE + |QName(name)| + 4
    ensures |QName(name)| == if Stem(name) == [] then 1 else |Stem(name)| + 2
  {
    QNameOfLabels(name);
    JoinLabels(name);
    EncodedLength(Labels(name));
    if Labels(name) != [] {
      assert Labels(name)[0] != [];
    }
  }
}
