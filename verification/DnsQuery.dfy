/**
 Building a DNS query: a fixed header, the name as length-prefixed labels, the
 type and the class. The decoder follows sections 3.1, 4.1.1 and 4.1.2 of
 RFC 1035.
 */
module DnsQuery {
  import opened Common

  type Byte = b: int | 0 <= b < 0x100

  const DOT: Byte := 0x2e
  const HEADER_SIZE := 12
  const MAX_LABEL := 63           // section 2.3.4 of RFC 1035

  // ----- names

  /** The offset of the first dot at or after i; the end if there is none. */
  function NextDot(name: seq<Byte>, i: nat): (e: nat)
    requires i <= |name|
    ensures i <= e <= |name|
    decreases |name| - i
  {
    if i == |name| || name[i] == DOT then i else NextDot(name, i + 1)
  }

  lemma {:induction false} NextDotIsFirst(name: seq<Byte>, i: nat)
    requires i <= |name|
    ensures var e := NextDot(name, i);
            && (forall k :: i <= k < e ==> name[k] != DOT)
            && (e < |name| ==> name[e] == DOT)
    decreases |name| - i
  {
    if i < |name| && name[i] != DOT {
      NextDotIsFirst(name, i + 1);
    }
  }

  /** The labels from offset i on, as the builder's loop meets them: a dot at the very end starts no further label. */
  function LabelsFrom(name: seq<Byte>, i: nat): seq<seq<Byte>>
    requires i <= |name|
    decreases |name| - i
  {
    if i == |name| then []
    else
      var e := NextDot(name, i);
      [name[i..e]] + LabelsFrom(name, if e < |name| then e + 1 else e)
  }

  /** The labels a name denotes; the root, written "." or "", has none. */
  function Labels(name: seq<Byte>): seq<seq<Byte>> {
    if name == [DOT] then [] else LabelsFrom(name, 0)
  }

  predicate IsLabel(part: seq<Byte>) {
    0 < |part| <= MAX_LABEL
  }

  predicate AllLabels(labels: seq<seq<Byte>>)
    decreases |labels|
  {
    labels == [] || (IsLabel(labels[0]) && AllLabels(labels[1..]))
  }

  // ----- the message

  function Big16(n: int): seq<Byte> {
    [n / 0x100 % 0x100, n % 0x100]
  }

  /** Labels as written by the loop: the length as one byte, then the text. */
  function Encoded(labels: seq<seq<Byte>>): seq<Byte>
    decreases |labels|
  {
    if labels == [] then [] else [|labels[0]| % 0x100] + labels[0] + Encoded(labels[1..])
  }

  function QName(name: seq<Byte>): seq<Byte> {
    Encoded(LabelsFrom(name, 0)) + if name == [DOT] then [] else [0]
  }

  function Header(id: seq<Byte>): seq<Byte> {
    id + Big16(0x0100) + Big16(1) + Big16(0) + Big16(0) + Big16(0)
  }

  function Query(id: seq<Byte>, name: seq<Byte>, qtype: int): seq<Byte> {
    Header(id) + QName(name) + Big16(qtype) + Big16(1)
  }

  // ----- building it in place

  method Put(buf: array<Byte>, p: nat, bytes: seq<Byte>) returns (next: nat)
    requires p + |bytes| <= buf.Length
    modifies buf
    ensures next == p + |bytes|
    ensures buf[..next] == old(buf[..p]) + bytes
  {
    var i := 0;
    while i < |bytes|
      invariant 0 <= i <= |bytes|
      invariant buf[..p + i] == old(buf[..p]) + bytes[..i]
    {
      buf[p + i] := bytes[i];
      assert buf[..p + i + 1] == buf[..p + i] + [bytes[i]];
      i := i + 1;
    }
    next := p + i;
    assert bytes[..i] == bytes;
  }

  lemma {:induction false} EncodedSize(name: seq<Byte>, i: nat)
    requires i <= |name|
    ensures |Encoded(LabelsFrom(name, i))| <= |name| - i + 1
    decreases |name| - i
  {
    if i < |name| {
      var e := NextDot(name, i);
      var next := if e < |name| then e + 1 else e;
      EncodedSize(name, next);
      EncodedCons(name[i..e], LabelsFrom(name, next));
    }
  }

  lemma {:induction false} EncodedCons(part: seq<Byte>, labels: seq<seq<Byte>>)
    ensures Encoded([part] + labels) == [|part| % 0x100] + part + Encoded(labels)
  {
    assert ([part] + labels)[1..] == labels;
  }

  /** A label of the name as the loop writes it. */
  function Piece(name: seq<Byte>, s: nat, e: nat): seq<Byte>
    requires s <= e <= |name|
  {
    [(e - s) % 0x100] + name[s..e]
  }

  lemma {:induction false} EncodedPiece(name: seq<Byte>, s: nat)
    requires s < |name|
    ensures var e := NextDot(name, s);
            Encoded(LabelsFrom(name, s))
            == Piece(name, s, e) + Encoded(LabelsFrom(name, if e < |name| then e + 1 else e))
  {
    var e := NextDot(name, s);
    EncodedCons(name[s..e], LabelsFrom(name, if e < |name| then e + 1 else e));
  }

  method PutPiece(buf: array<Byte>, p: nat, name: seq<Byte>, s: nat, e: nat) returns (next: nat)
    requires s <= e <= |name| && p + 1 + (e - s) <= buf.Length
    modifies buf
    ensures next == p + 1 + (e - s)
    ensures buf[..next] == old(buf[..p]) + Piece(name, s, e)
  {
    ghost var before := buf[..p];
    next := Put(buf, p, [(e - s) % 0x100]);
    next := Put(buf, next, name[s..e]);
    Assoc(before, [(e - s) % 0x100], name[s..e]);
  }

  lemma NextPiece(target: seq<Byte>, written: seq<Byte>, name: seq<Byte>, s: nat)
    requires s < |name| && target == written + Encoded(LabelsFrom(name, s))
    ensures var e := NextDot(name, s);
            && target == (written + Piece(name, s, e)) + Encoded(LabelsFrom(name, if e < |name| then e + 1 else e))
            && |written| + 1 + (e - s) <= |target|
  {
    var e := NextDot(name, s);
    EncodedPiece(name, s);
    Assoc(written, Piece(name, s, e), Encoded(LabelsFrom(name, if e < |name| then e + 1 else e)));
  }

  /** The loop over the name, writing from offset `start`. */
  method PutLabels(buf: array<Byte>, start: nat, name: seq<Byte>) returns (p: nat)
    requires start + |name| + 1 <= buf.Length
    modifies buf
    ensures p <= start + |name| + 1
    ensures buf[..p] == old(buf[..start]) + Encoded(LabelsFrom(name, 0))
  {
    p := start;
    var s := 0;
    ghost var target := buf[..start] + Encoded(LabelsFrom(name, 0));
    EncodedSize(name, 0);
    while s < |name|
      invariant s <= |name| && p <= |target| <= buf.Length
      invariant target == buf[..p] + Encoded(LabelsFrom(name, s))
      decreases |name| - s
    {
      NextPiece(target, buf[..p], name, s);
      var e := NextDot(name, s);
      p := PutPiece(buf, p, name, s, e);
      s := if e < |name| then e + 1 else e;
    }
  }

  /** The whole QNAME: the labels, and a zero byte unless the name is a single dot. */
  method PutName(buf: array<Byte>, start: nat, name: seq<Byte>) returns (p: nat)
    requires start + |name| + 2 <= buf.Length
    modifies buf
    ensures p <= start + |name| + 2
    ensures buf[..p] == old(buf[..start]) + QName(name)
  {
    ghost var before, labels := buf[..start], Encoded(LabelsFrom(name, 0));
    p := PutLabels(buf, start, name);
    if name != [DOT] {
      p := Put(buf, p, [0]);
      Assoc(before, labels, [0]);
    } else {
      Assoc(before, labels, []);
    }
  }

  /** The builder. The buffer must hold the header, the name with two more bytes, the type and the class. */
  method MakeQuery(buf: array<Byte>, id: seq<Byte>, name: seq<Byte>, qtype: int) returns (len: nat)
    requires |id| == 2
    requires buf.Length >= HEADER_SIZE + |name| + 2 + 4
    modifies buf
    ensures len <= buf.Length && buf[..len] == Query(id, name, qtype)
  {
    var p := Put(buf, 0, Header(id));
    p := PutName(buf, p, name);
    p := Put(buf, p, Big16(qtype));
    p := Put(buf, p, Big16(1));
    len := p;
  }
}
