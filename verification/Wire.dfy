/** The DNS wire format: the query writer, the host-name decoder and the reply parser
    (sections 3.1 and 4.1 of RFC 1035, section 2.2 of RFC 3596). */
module Wire {
  import opened Common

  const DOT: byte := 46
  const PACKET := 512

  // ---------- big-endian numbers ----------

  function U16(x: uint16): (s: seq<byte>)
    ensures |s| == 2
  {
    [(x / 0x100) as byte, (x % 0x100) as byte]
  }

  function Get16(m: seq<byte>, p: nat): uint16
    requires p + 2 <= |m|
  {
    (m[p] as int) * 0x100 + m[p + 1] as int
  }

  function Get32(m: seq<byte>, p: nat): uint32
    requires p + 4 <= |m|
  {
    (m[p] as int) * 0x100_0000 + (m[p + 1] as int) * 0x1_0000 + (m[p + 2] as int) * 0x100 + m[p + 3] as int
  }

  // ---------- a byte string at a position ----------

  ghost predicate HasAt(m: seq<byte>, p: nat, w: seq<byte>) {
    p + |w| <= |m| && m[p..p + |w|] == w
  }

  lemma HasAtSplit(m: seq<byte>, p: nat, x: seq<byte>, y: seq<byte>)
    ensures HasAt(m, p, x + y) <==> HasAt(m, p, x) && HasAt(m, p + |x|, y)
  {
    if p + |x| + |y| <= |m| {
      var w := m[p..p + |x + y|];
      assert w[..|x|] == m[p..p + |x|] && w[|x|..] == m[p + |x|..p + |x| + |y|];
      assert (x + y)[..|x|] == x && (x + y)[|x|..] == y;
      assert w == w[..|x|] + w[|x|..];
    }
  }

  lemma HasAt16(m: seq<byte>, p: nat, x: uint16)
    requires HasAt(m, p, U16(x))
    ensures Get16(m, p) == x
  {
    assert m[p..p + 2][0] == m[p] && m[p..p + 2][1] == m[p + 1];
  }

  lemma Read16(m: seq<byte>, p: nat)
    requires p + 2 <= |m|
    ensures m[p..p + 2] == U16(Get16(m, p))
  {
  }

  // ---------- labels of a host name ----------

  /** The next dot at or after a position, or the end of the name. */
  function LabelEnd(name: Name, from: nat): (e: nat)
    requires from <= |name|
    ensures from <= e <= |name|
    decreases |name| - from
  {
    if from == |name| || name[from] == DOT then from else LabelEnd(name, from + 1)
  }

  lemma {:induction false} LabelEndFacts(name: Name, from: nat)
    requires from <= |name|
    ensures var e := LabelEnd(name, from);
            (forall i :: from <= i < e ==> name[i] != DOT) && (e < |name| ==> name[e] == DOT)
    decreases |name| - from
  {
    if from == |name| || name[from] == DOT {
    } else {
      LabelEndFacts(name, from + 1);
    }
  }

  datatype LabelList = Nil | Cons(head: seq<byte>, tail: LabelList)

  /** What the writer has left to do after its first label. */
  function Rest(name: Name): Name
    requires name != []
  {
    var e := LabelEnd(name, 0);
    if e == |name| then [] else name[e + 1..]
  }

  /** The labels the query writer emits; a trailing dot adds no label. */
  function Labels(name: Name): LabelList
    decreases |name|
  {
    if name == [] then Nil else Cons(name[..LabelEnd(name, 0)], Labels(Rest(name)))
  }

  /** The length of a label, truncated to a byte. */
  function LengthByte(l: seq<byte>): byte {
    (|l| % 0x100) as byte
  }

  function WireLabels(ls: LabelList): seq<byte> {
    match ls
    case Nil => []
    case Cons(l, t) => [LengthByte(l)] + l + WireLabels(t)
  }

  function EncodeName(name: Name): (s: seq<byte>)
    ensures |s| > 0
  {
    WireLabels(Labels(name)) + [0]
  }

  function Question(name: Name, rtype: uint16): seq<byte> {
    EncodeName(name) + U16(rtype) + U16(1)
  }

  function Query(id: uint16, name: Name, rtype: uint16): seq<byte> {
    U16(id) + U16(0x100) + U16(1) + U16(0) + U16(0) + U16(0) + Question(name, rtype)
  }

  /** Not empty and without an empty label: no leading, trailing or doubled dot. */
  predicate WellFormed(name: Name) {
    && name != []
    && var e := LabelEnd(name, 0);
       0 < e && (e < |name| ==> WellFormed(name[e + 1..]))
  }

  /** Said without recursion. */
  lemma {:induction false} WellFormedExactly(name: Name)
    ensures WellFormed(name) <==>
            && name != [] && name[0] != DOT && name[|name| - 1] != DOT
            && forall i :: 0 <= i < |name| - 1 && name[i] == DOT ==> name[i + 1] != DOT
    decreases |name|
  {
    if name == [] {
    } else {
      var e := LabelEnd(name, 0);
      LabelEndFacts(name, 0);
      if 0 < e < |name| {
        var t := name[e + 1..];
        WellFormedExactly(t);
        assert t != [] ==> t[|t| - 1] == name[|name| - 1] && t[0] == name[e + 1];
        assert forall i :: 0 <= i < |t| ==> t[i] == name[e + 1 + i];
        if WellFormed(t) {
          forall i | 0 <= i < |name| - 1 && name[i] == DOT
            ensures name[i + 1] != DOT
          {
            if i > e {
              assert t[i - (e + 1)] == DOT;
            }
          }
        }
      }
    }
  }

  /** The writer's length assertion holds exactly for non-empty names that do not end in a dot. */
  lemma {:induction false} EncodedLength(name: Name)
    ensures |EncodeName(name)| == |name| + 2 <==> name != [] && name[|name| - 1] != DOT
    ensures |EncodeName(name)| <= |name| + 2
    decreases |name|
  {
    if name == [] {
    } else {
      LabelEndFacts(name, 0);
      EncodedLength(Rest(name));
      if LabelEnd(name, 0) < |name| && Rest(name) != [] {
        assert Rest(name)[|Rest(name)| - 1] == name[|name| - 1];
      }
    }
  }

  // ---------- the host-name decoder ----------

  /** The labels found from p on, and where reading stopped. */
  datatype Read = Read(ok: bool, labels: LabelList, p: nat)

  predicate Proper(ls: LabelList) {
    ls.Cons? ==> 0 < |ls.head| < 0x100 && Proper(ls.tail)
  }

  function ReadLabels(m: seq<byte>, p: nat, end: nat): (r: Read)
    requires p <= end <= |m|
    ensures p <= r.p <= end
    decreases end - p
  {
    if p == end then Read(false, Nil, p)
    else
      var len := m[p] as int;
      if len == 0 then Read(true, Nil, p + 1)
      else if end - (p + 1) < len then Read(false, Nil, p + 1)
      else
        var rest := ReadLabels(m, p + 1 + len, end);
        Read(rest.ok, Cons(m[p + 1..p + 1 + len], rest.labels), rest.p)
  }

  function Append(host: Name, l: seq<byte>): Name {
    if host == [] then l else host + [DOT] + l
  }

  function Join(host: Name, ls: LabelList): Name
    decreases ls
  {
    match ls
    case Nil => host
    case Cons(l, t) => Join(Append(host, l), t)
  }

  /** What ParseHostNameFromDNSPacket leaves behind: the host (empty on failure) and the cursor. */
  datatype Decoded = Decoded(ok: bool, host: Name, p: nat)

  /** The host and cursor that decoding ends with, from a cursor and the host read so far. */
  function DecodeOn(m: seq<byte>, p: nat, end: nat, host: Name): Decoded
    requires p <= end <= |m|
  {
    var r := ReadLabels(m, p, end);
    Decoded(r.ok, if r.ok then Join(host, r.labels) else [], r.p)
  }

  function Decode(m: seq<byte>, p: nat, end: nat): Decoded
    requires p <= end <= |m|
  {
    DecodeOn(m, p, end, [])
  }

  lemma AppendIs(host: Name, l: seq<byte>)
    ensures Append(host, l) == (if |host| != 0 then host + [DOT] else host) + l
  {
  }

  lemma DecodeTurn(m: seq<byte>, p: nat, end: nat, host: Name)
    requires p <= end <= |m|
    ensures DecodeOn(m, p, end, host) ==
            if p == end then Decoded(false, [], p)
            else if m[p] == 0 then Decoded(true, host, p + 1)
            else if end - (p + 1) < m[p] as int then Decoded(false, [], p + 1)
            else DecodeOn(m, p + 1 + m[p] as int, end, Append(host, m[p + 1..p + 1 + m[p] as int]))
  {
  }

  method ParseHostName(m: seq<byte>, start: nat, end: nat) returns (d: Decoded)
    requires start <= end <= |m|
    ensures d == Decode(m, start, end)
  {
    hide DecodeOn, Append;
    var host: Name := [];
    var p := start;
    while true
      invariant start <= p <= end
      invariant DecodeOn(m, p, end, host) == Decode(m, start, end)
      decreases end - p
    {
      DecodeTurn(m, p, end, host);
      if p == end {
        return Decoded(false, [], p);
      }
      var len := m[p] as int;
      p := p + 1;
      if len == 0 {
        return Decoded(true, host, p);
      }
      ghost var host0 := host;
      if |host| != 0 {
        host := host + [DOT];
      }
      if end - p < len {
        return Decoded(false, [], p);
      }
      host := host + m[p..p + len];
      AppendIs(host0, m[p..p + len]);
      p := p + len;
    }
  }

  lemma Slice3(m: seq<byte>, p: nat, q: nat, r: nat)
    requires p < q <= r <= |m|
    ensures m[p..r] == [m[p]] + m[p + 1..q] + m[q..r]
  {
  }

  /** On arbitrary bytes: a successful run consumes exactly the wire form of the labels it read. */
  lemma {:induction false} ReadConsumes(m: seq<byte>, p: nat, end: nat)
    requires p <= end <= |m|
    ensures var r := ReadLabels(m, p, end);
            Proper(r.labels) && (r.ok ==> m[p..r.p] == WireLabels(r.labels) + [0])
    decreases end - p
  {
    if p == end || m[p] == 0 || end - (p + 1) < m[p] as int {
    } else {
      var q := p + 1 + m[p] as int;
      ReadConsumes(m, q, end);
      Slice3(m, p, q, ReadLabels(m, q, end).p);
    }
  }

  /** Where decoding stops when it fails: at the end of the bytes, or just past a length byte that reaches beyond it;
      what precedes is the wire form of labels, and no host is reported. */
  lemma {:induction false} ReadStops(m: seq<byte>, p: nat, end: nat)
    requires p <= end <= |m| && !ReadLabels(m, p, end).ok
    ensures var r := ReadLabels(m, p, end); var q := p + |WireLabels(r.labels)|;
            && q <= end && m[p..q] == WireLabels(r.labels) && Proper(r.labels)
            && (if q == end then r.p == q else m[q] != 0 && q + 1 + m[q] as int > end && r.p == q + 1)
    ensures Decode(m, p, end).host == []
    decreases end - p
  {
    if p == end || end - (p + 1) < m[p] as int {
    } else {
      var q := p + 1 + m[p] as int;
      ReadStops(m, q, end);
      var r := ReadLabels(m, q, end);
      Slice3(m, p, q, q + |WireLabels(r.labels)|);
    }
  }

  /** The labels before the first empty one. */
  function UpToEmpty(ls: LabelList): LabelList {
    if ls.Nil? || ls.head == [] then Nil else Cons(ls.head, UpToEmpty(ls.tail))
  }

  predicate Short(ls: LabelList) {
    ls.Cons? ==> |ls.head| < 0x100 && Short(ls.tail)
  }

  lemma ReadFirst(m: seq<byte>, p: nat, l: seq<byte>, rest: seq<byte>)
    requires |l| < 0x100 && HasAt(m, p, [|l| as byte] + l + rest)
    ensures m[p] as int == |l| && m[p + 1..p + 1 + |l|] == l && HasAt(m, p + 1 + |l|, rest)
  {
    HasAtSplit(m, p, [|l| as byte] + l, rest);
    HasAtSplit(m, p, [|l| as byte], l);
    assert m[p] == m[p..p + 1][0];
  }

  lemma Assoc(x: seq<byte>, y: seq<byte>, z: seq<byte>)
    ensures x + y + z == x + (y + z)
  {
  }

  /** Reading written labels stops at the first empty one. */
  lemma {:induction false} ReadWritten(m: seq<byte>, p: nat, end: nat, ls: LabelList)
    requires Short(ls)
    requires HasAt(m, p, WireLabels(ls) + [0]) && p + |WireLabels(ls)| < end <= |m|
    ensures var r := ReadLabels(m, p, end);
            && r.ok && r.labels == UpToEmpty(ls)
            && (r.p == p + |WireLabels(ls)| + 1 <==> Proper(ls))
            && r.p <= p + |WireLabels(ls)| + 1
    decreases ls
  {
    hide HasAt, WireLabels;
    if ls.Nil? {
      EndAt(m, p);
    } else {
      WireStep(ls);
      ReadFirst(m, p, ls.head, WireLabels(ls.tail) + [0]);
      if ls.head != [] {
        ReadWritten(m, p + 1 + |ls.head|, end, ls.tail);
      }
    }
  }

  lemma EndAt(m: seq<byte>, p: nat)
    requires HasAt(m, p, WireLabels(Nil) + [0])
    ensures p < |m| && m[p] == 0 && WireLabels(Nil) == []
  {
    assert m[p] == m[p..p + 1][0];
  }

  lemma AppendTwo(host: Name, l: seq<byte>, t: seq<byte>)
    ensures l != [] ==> |Append(host, l)| > 0 && Append(Append(host, l), t) == Append(host, l + [DOT] + t)
  {
    if host != [] {
      Assoc(host + [DOT], l + [DOT], t);
      Assoc(host + [DOT], l, [DOT]);
    }
  }

  lemma WholeLabel(name: Name)
    requires name != []
    ensures LabelEnd(name, 0) == |name| ==> name[..LabelEnd(name, 0)] == name
    ensures LabelEnd(name, 0) < |name| ==> name[..LabelEnd(name, 0)] + [DOT] + Rest(name) == name
  {
    hide LabelEnd;
    LabelEndFacts(name, 0);
    if LabelEnd(name, 0) < |name| {
      CutAt(name, LabelEnd(name, 0));
    }
  }

  lemma CutAt(s: seq<byte>, e: nat)
    requires e < |s|
    ensures s[..e] + [s[e]] + s[e + 1..] == s
  {
  }

  lemma {:induction false} JoinLabels(name: Name, host: Name)
    requires |name| < 0x100
    ensures Short(Labels(name))
    ensures var whole := if name == [] then host else Append(host, name);
            var back := Join(host, UpToEmpty(Labels(name)));
            && (name == [] || WellFormed(name) ==> back == whole && Proper(Labels(name)))
            && (name != [] && !WellFormed(name) ==> |back| < |whole|)
    decreases |name|
  {
    hide LabelEnd;
    if name == [] {
    } else {
      var l, t := name[..LabelEnd(name, 0)], Rest(name);
      JoinLabels(t, Append(host, l));
      WholeLabel(name);
      AppendTwo(host, l, t);
      assert Labels(name) == Cons(l, Labels(t));
      assert WellFormed(name) && LabelEnd(name, 0) < |name| ==> WellFormed(t);
      assert l != [] ==> UpToEmpty(Labels(name)) == Cons(l, UpToEmpty(Labels(t)));
    }
  }

  /** Decoding a written name wherever it stands gives the name back, with the cursor
      just past the zero byte, exactly when the name is empty or well formed. */
  lemma NameRoundTrip(m: seq<byte>, p: nat, end: nat, name: Name)
    requires |name| <= MAX_NAME
    requires HasAt(m, p, EncodeName(name)) && p + |EncodeName(name)| <= end <= |m|
    ensures Decode(m, p, end) == Decoded(true, name, p + |EncodeName(name)|)
            <==> name == [] || WellFormed(name)
  {
    JoinLabels(name, []);
    ReadWritten(m, p, end, Labels(name));
  }

  predicate DotFree(ls: LabelList) {
    ls.Cons? ==> DOT !in ls.head && DotFree(ls.tail)
  }

  lemma {:induction false} JoinOnto(host: Name, ls: LabelList)
    requires Proper(ls) && ls.Cons?
    ensures Join([], ls) != [] && Join(host, ls) == Append(host, Join([], ls))
    decreases ls
  {
    var l, t := ls.head, ls.tail;
    if t.Nil? {
    } else {
      JoinOnto(Append(host, l), t);
      JoinOnto(l, t);
      AppendTwo(host, l, Join([], t));
    }
  }

  lemma EncodeStep(name: Name)
    requires name != [] && LabelEnd(name, 0) < 0x100
    ensures EncodeName(name) == [LabelEnd(name, 0) as byte] + name[..LabelEnd(name, 0)] + EncodeName(Rest(name))
  {
    hide LabelEnd, Labels, WireLabels, Rest;
    LabelsStep(name);
    WireStep(Labels(name));
  }

  lemma LabelsStep(name: Name)
    requires name != []
    ensures Labels(name) == Cons(name[..LabelEnd(name, 0)], Labels(Rest(name)))
  {
  }

  lemma SamePrefix(x: seq<byte>, y: seq<byte>, z: seq<byte>)
    ensures x + y == x + z <==> y == z
  {
    assert (x + y)[|x|..] == y && (x + z)[|x|..] == z;
  }

  /** Writing a name that starts with the bytes of l gives l as first label iff l has no dot. */
  lemma FirstLabel(n: Name, l: seq<byte>, tail: Name, w: seq<byte>)
    requires 0 < |l| < 0x100
    requires n == if tail == [] then l else l + [DOT] + tail
    ensures EncodeName(n) == [|l| as byte] + l + w <==> DOT !in l && EncodeName(tail) == w
  {
    var e := LabelEnd(n, 0);
    LabelEndFacts(n, 0);
    assert forall i :: 0 <= i < |l| ==> n[i] == l[i];
    assert tail != [] ==> n[|l|] == DOT;
    EncodeStep(n);
    if e < |l| {
      assert l[e] == DOT;
      assert EncodeName(n)[0] == e as byte;
      assert ([|l| as byte] + l + w)[0] == |l| as byte;
    } else {
      assert n[..e] == l && Rest(n) == tail;
      SamePrefix([e as byte] + l, EncodeName(tail), w);
    }
  }

  lemma WireStep(ls: LabelList)
    requires ls.Cons? && |ls.head| < 0x100
    ensures WireLabels(ls) + [0] == [|ls.head| as byte] + ls.head + (WireLabels(ls.tail) + [0])
  {
    Assoc([|ls.head| as byte] + ls.head, WireLabels(ls.tail), [0]);
  }

  lemma {:induction false} ReEncode(ls: LabelList)
    requires Proper(ls)
    ensures EncodeName(Join([], ls)) == WireLabels(ls) + [0] <==> DotFree(ls)
    decreases ls
  {
    match ls
    case Nil =>
    case Cons(l, t) =>
      ReEncode(t);
      if t.Cons? {
        JoinOnto(l, t);
      }
      assert Join([], ls) == Join(l, t);
      WireStep(ls);
      FirstLabel(Join([], ls), l, Join([], t), WireLabels(t) + [0]);
  }

  /** Writing a decoded name again gives the bytes that were consumed, exactly when
      no label holds a dot. */
  lemma BytesRoundTrip(m: seq<byte>, p: nat, end: nat)
    requires p <= end <= |m| && Decode(m, p, end).ok
    ensures var d := Decode(m, p, end);
            EncodeName(d.host) == m[p..d.p] <==> DotFree(ReadLabels(m, p, end).labels)
  {
    ReadConsumes(m, p, end);
    ReEncode(ReadLabels(m, p, end).labels);
  }

  // ---------- the query writer ----------

  method Put16(buf: array<byte>, p: nat, x: uint16)
    requires p + 2 <= buf.Length
    modifies buf
    ensures buf[..] == old(buf[..p]) + U16(x) + old(buf[p + 2..])
  {
    buf[p] := (x / 0x100) as byte;
    buf[p + 1] := (x % 0x100) as byte;
  }

  function Unwritten(name: Name, dotPos: nat): Name {
    if dotPos < |name| then name[dotPos..] else []
  }

  lemma LabelEndFrom(name: Name, dotPos: nat)
    requires dotPos < |name|
    ensures LabelEnd(name[dotPos..], 0) == LabelEnd(name, dotPos) - dotPos
  {
    hide LabelEnd;
    var n, e := name[dotPos..], LabelEnd(name, dotPos);
    var k := LabelEnd(n, 0);
    LabelEndFacts(name, dotPos);
    LabelEndFacts(n, 0);
    assert k < |n| ==> name[dotPos + k] == n[k];
    assert e < |name| ==> n[e - dotPos] == name[e];
  }

  lemma LabelFrom(name: Name, dotPos: nat)
    requires dotPos < |name|
    ensures var e := LabelEnd(name, dotPos); name[dotPos..][..e - dotPos] == name[dotPos..e]
  {
    hide LabelEnd;
    SliceSlice(name, dotPos, LabelEnd(name, dotPos) - dotPos);
  }

  lemma RestIs(n: Name, k: nat)
    requires n != [] && k == LabelEnd(n, 0)
    ensures Rest(n) == if k == |n| then [] else n[k + 1..]
  {
    hide LabelEnd;
  }

  lemma RestFrom(name: Name, dotPos: nat)
    requires dotPos < |name|
    ensures Rest(name[dotPos..]) == Unwritten(name, LabelEnd(name, dotPos) + 1)
  {
    hide LabelEnd, Rest;
    LabelEndFrom(name, dotPos);
    var e := LabelEnd(name, dotPos);
    RestIs(name[dotPos..], e - dotPos);
    if e < |name| {
      SliceSlice(name, dotPos, e + 1 - dotPos);
      NothingAfter(name, e + 1);
    }
  }

  lemma NothingAfter(name: Name, p: nat)
    requires p <= |name|
    ensures Unwritten(name, p) == name[p..]
  {
  }

  lemma SliceSlice(s: seq<byte>, a: nat, b: nat)
    requires a + b <= |s|
    ensures s[a..][..b] == s[a..a + b] && s[a..][b..] == s[a + b..]
  {
  }

  lemma UnwrittenStep(name: Name, dotPos: nat)
    requires dotPos < |name| < 0x100
    ensures var e := LabelEnd(name, dotPos);
            EncodeName(Unwritten(name, dotPos))
            == [(e - dotPos) as byte] + name[dotPos..e] + EncodeName(Unwritten(name, e + 1))
  {
    hide EncodeName, LabelEnd, Rest;
    LabelEndFrom(name, dotPos);
    LabelFrom(name, dotPos);
    RestFrom(name, dotPos);
    EncodeStep(name[dotPos..]);
  }

  /** One turn of the label loop: find the dot, save the length, copy the label. */
  method WriteLabel(buf: array<byte>, p: nat, name: Name, dotPos: nat)
    returns (q: nat, next: nat, ghost step: seq<byte>)
    requires dotPos < |name| < 0x100 && p + |EncodeName(Unwritten(name, dotPos))| <= buf.Length
    modifies buf
    ensures dotPos < next && q == p + |step| && q + |EncodeName(Unwritten(name, next))| <= buf.Length
    ensures EncodeName(Unwritten(name, dotPos)) == step + EncodeName(Unwritten(name, next))
    ensures buf[..q] == old(buf[..p]) + step
  {
    hide EncodeName, LabelEnd, Unwritten;
    var e := LabelEnd(name, dotPos);
    var labelLength := e - dotPos;
    step := [labelLength as byte] + name[dotPos..e];
    UnwrittenStep(name, dotPos);
    buf[p] := labelLength as byte;
    forall i | 0 <= i < labelLength {
      buf[p + 1 + i] := name[dotPos + i];
    }
    q, next := p + 1 + labelLength, e + 1;
  }

  lemma EncodeEnds(name: Name, dotPos: nat)
    ensures dotPos == 0 ==> EncodeName(Unwritten(name, dotPos)) == EncodeName(name)
    ensures dotPos >= |name| ==> EncodeName(Unwritten(name, dotPos)) == [0]
  {
    assert EncodeName([]) == [0];
    assert dotPos == 0 ==> Unwritten(name, dotPos) == name;
  }

  /** The label loop of the query writer. */
  method WriteName(buf: array<byte>, start: nat, name: Name) returns (p: nat)
    requires |name| <= MAX_NAME && start + |name| + 2 <= buf.Length
    modifies buf
    ensures p == start + |EncodeName(name)| <= buf.Length
    ensures buf[..p] == old(buf[..start]) + EncodeName(name)
  {
    hide EncodeName, Unwritten;
    EncodedLength(name);
    EncodeEnds(name, 0);
    ghost var prefix, written: seq<byte> := buf[..start], [];
    p := start;
    var dotPos := 0;
    while dotPos < |name|
      invariant 0 <= dotPos && p == start + |written| && p + |EncodeName(Unwritten(name, dotPos))| <= buf.Length
      invariant buf[..p] == prefix + written
      invariant written + EncodeName(Unwritten(name, dotPos)) == EncodeName(name)
    {
      ghost var step;
      ghost var left := dotPos;
      p, dotPos, step := WriteLabel(buf, p, name, dotPos);
      Assoc(prefix, written, step);
      Assoc(written, step, EncodeName(Unwritten(name, dotPos)));
      written := written + step;
    }
    EncodeEnds(name, dotPos);
    Assoc(prefix, written, [0]);
    buf[p] := 0;
    p := p + 1;
  }

  method PutHeader(buf: array<byte>, id: uint16)
    requires buf.Length == PACKET
    modifies buf
    ensures buf[..12] == U16(id) + U16(0x100) + U16(1) + U16(0) + U16(0) + U16(0)
  {
    hide U16;
    Put16(buf, 0, id);
    Put16(buf, 2, 0x100);
    assert buf[..4] == U16(id) + U16(0x100);
    Put16(buf, 4, 1);
    Put16(buf, 6, 0);
    assert buf[..8] == U16(id) + U16(0x100) + U16(1) + U16(0);
    Put16(buf, 8, 0);
    Put16(buf, 10, 0);
  }

  /** SendRequestToDNS up to the send: the buffer holds the query; the final size assertion of the
      source holds exactly for non-empty names that do not end in a dot. */
  method FillQuery(id: uint16, name: Name, rtype: uint16) returns (buf: array<byte>, n: nat)
    requires |name| <= MAX_NAME
    ensures fresh(buf) && buf.Length == PACKET && n <= 271
    ensures buf[..n] == Query(id, name, rtype)
    ensures n == 18 + |name| <==> name != [] && name[|name| - 1] != DOT
  {
    hide U16, EncodeName;
    EncodedLength(name);
    buf := new byte[PACKET];
    PutHeader(buf, id);
    var p := WriteName(buf, 12, name);
    Put16(buf, p, rtype);
    Put16(buf, p + 2, 1);
    n := p + 4;
  }

  // ---------- the reply parser ----------

  /** ReadsPastEnd: the source goes on to read bytes that were never received. */
  datatype Parsed = Done(result: DnsResult, ip: Ip) | ReadsPastEnd

  const FAILED := Done(DnsError, NO_IP)

  /** The first zero byte from p on, or the end. */
  function ZeroAt(m: seq<byte>, p: nat): (z: nat)
    requires p <= |m|
    ensures p <= z <= |m| && (z < |m| ==> m[z] == 0) && forall i :: p <= i < z ==> m[i] != 0
    decreases |m| - p
  {
    if p == |m| || m[p] == 0 then p else ZeroAt(m, p + 1)
  }

  /** The cursor after an answer's owner name; it can land one past the end. */
  function SkipOwner(m: seq<byte>, p: nat): (o: Option<nat>)
    requires p < |m|
    ensures o.Some? ==> p < o.value
  {
    if m[p] >= 64 then Some(p + 2)
    else if ZeroAt(m, p) == |m| then None
    else Some(ZeroAt(m, p) + 1)
  }

  /** The results the parser can report. */
  predicate Reportable(result: DnsResult) {
    result == Ok || result == NotFound || result == DnsError
  }

  /** What the answers can say. */
  predicate Answerable(result: DnsResult) {
    result == Ok || result == DnsError
  }

  function Address(m: seq<byte>, p: nat, len: nat, rtype: uint16): (o: Parsed)
    requires p + len <= |m|
    requires rtype == TYPE_A || rtype == TYPE_AAAA
    ensures o.Done? ==> Answerable(o.result)
  {
    if rtype == TYPE_A then
      if len < 4 then FAILED else Done(Ok, V4(Get32(m, p)))
    else if len < 16 then FAILED
    else Done(Ok, Ip(Get32(m, p), Get32(m, p + 4), Get32(m, p + 8), Get32(m, p + 12)))
  }

  /** One turn of the answer loop: stop with a result, or go on from a later cursor. */
  datatype Turn = Stop(o: Parsed) | Go(p: nat)

  function AnswerAt(m: seq<byte>, p: nat, rtype: uint16): (t: Turn)
    requires p <= |m|
    requires rtype == TYPE_A || rtype == TYPE_AAAA
    ensures t.Go? ==> p + 11 <= t.p <= |m|
    ensures t.Stop? && t.o.Done? ==> Answerable(t.o.result)
  {
    if p == |m| || SkipOwner(m, p).None? || |m| < SkipOwner(m, p).value + 10 then Stop(FAILED)
    else
      var q := SkipOwner(m, p).value;
      var len := Get16(m, q + 8);
      if |m| < q + 10 + len then Stop(FAILED)
      else if Get16(m, q) == rtype then Stop(Address(m, q + 10, len, rtype))
      else Go(q + 10 + len)
  }

  function Answers(m: seq<byte>, p: nat, n: nat, rtype: uint16): (o: Parsed)
    requires p <= |m|
    requires rtype == TYPE_A || rtype == TYPE_AAAA
    ensures o.Done? ==> Answerable(o.result)
    decreases n
  {
    if n == 0 then FAILED
    else
      match AnswerAt(m, p, rtype)
      case Stop(o) => o
      case Go(q) => Answers(m, q, n - 1, rtype)
  }

  function ParseReply(m: seq<byte>, name: Name, rtype: uint16): (o: Parsed)
    requires rtype == TYPE_A || rtype == TYPE_AAAA
    ensures o.Done? ==> Reportable(o.result)
  {
    if |m| < 12 || m[2] < 0x80 then FAILED
    else if m[3] % 16 == 3 then Done(NotFound, NO_IP)
    else if m[3] % 16 != 0 || Get16(m, 4) != 1 then FAILED
    else if Get16(m, 6) == 0 then Done(NotFound, NO_IP)
    else
      var d := Decode(m, 12, |m|);
      if d.host != name then FAILED
      else if |m| < d.p + 2 then ReadsPastEnd
      else if Get16(m, d.p) != rtype then FAILED
      else if |m| < d.p + 4 then ReadsPastEnd
      else if Get16(m, d.p + 2) != 1 then FAILED
      else Answers(m, d.p + 4, Get16(m, 6), rtype)
  }

  /** The body of the answer loop. */
  method ParseAnswer(m: seq<byte>, start: nat, rtype: uint16) returns (t: Turn)
    requires start <= |m|
    requires rtype == TYPE_A || rtype == TYPE_AAAA
    ensures t == AnswerAt(m, start, rtype)
  {
    var p: nat := start;
    if p == |m| {
      return Stop(FAILED);
    }
    if m[p] < 64 {
      ghost var z := ZeroAt(m, p);
      while p != |m| && m[p] != 0
        invariant p <= z
        decreases |m| - p
      {
        p := p + 1;
      }
      if p == |m| {
        return Stop(FAILED);
      }
      p := p + 1;
    } else {
      p := p + 2;
    }
    assert SkipOwner(m, start) == Some(p);
    if |m| < p + 2 {
      return Stop(FAILED);
    }
    var kind := Get16(m, p);
    p := p + 2;
    if |m| < p + 2 {
      return Stop(FAILED);
    }
    p := p + 2;
    if |m| < p + 4 {
      return Stop(FAILED);
    }
    p := p + 4;
    if |m| < p + 2 {
      return Stop(FAILED);
    }
    var dataLen := Get16(m, p);
    p := p + 2;
    if |m| < p + dataLen {
      return Stop(FAILED);
    }
    if kind == rtype {
      return Stop(Address(m, p, dataLen, rtype));
    }
    return Go(p + dataLen);
  }

  /** The answer loop. */
  method ParseAnswers(m: seq<byte>, start: nat, numAnswers: nat, rtype: uint16) returns (o: Parsed)
    requires start <= |m|
    requires rtype == TYPE_A || rtype == TYPE_AAAA
    ensures o == Answers(m, start, numAnswers, rtype)
  {
    var p, n := start, 0;
    while n != numAnswers
      invariant 0 <= p <= |m| && 0 <= n <= numAnswers
      invariant Answers(m, p, numAnswers - n, rtype) == Answers(m, start, numAnswers, rtype)
      decreases numAnswers - n
    {
      var t := ParseAnswer(m, p, rtype);
      if t.Stop? {
        return t.o;
      }
      p, n := t.p, n + 1;
    }
    return FAILED;
  }

  method ParseReplyFromDNS(m: seq<byte>, name: Name, rtype: uint16) returns (o: Parsed)
    requires rtype == TYPE_A || rtype == TYPE_AAAA
    ensures o == ParseReply(m, name, rtype)
  {
    if |m| < 12 {
      return FAILED;
    }
    if m[2] < 0x80 {
      return FAILED;
    }
    if m[3] % 16 != 0 {
      if m[3] % 16 == 3 {
        return Done(NotFound, NO_IP);
      }
      return FAILED;
    }
    if Get16(m, 4) != 1 {
      return FAILED;
    }
    var numAnswers := Get16(m, 6);
    if numAnswers == 0 {
      return Done(NotFound, NO_IP);
    }
    var d := ParseHostName(m, 12, |m|);
    if d.host != name {
      return FAILED;
    }
    var p := d.p;
    if |m| < p + 2 {
      return ReadsPastEnd;
    }
    if Get16(m, p) != rtype {
      return FAILED;
    }
    p := p + 2;
    if |m| < p + 2 {
      return ReadsPastEnd;
    }
    if Get16(m, p) != 1 {
      return FAILED;
    }
    o := ParseAnswers(m, p + 2, numAnswers, rtype);
  }

  // ---------- the reference printer ----------

  /** An answer's owner: two bytes of a pointer, or name bytes without an inner zero. */
  datatype Owner = Pointer(hi: byte, lo: byte) | Text(bytes: seq<byte>)

  datatype Record = Record(owner: Owner, rtype: uint16, cls: uint16, ttl: seq<byte>, data: seq<byte>)

  datatype Records = NoMore | More(head: Record, tail: Records)

  predicate ValidOwner(o: Owner) {
    match o
    case Pointer(hi, _) => hi >= 64
    case Text(b) => 0 !in b && (b != [] ==> b[0] < 64)
  }

  predicate Printable(rs: Records) {
    rs.More? ==>
      && ValidOwner(rs.head.owner)
      && |rs.head.ttl| == 4 && |rs.head.data| < 0x1_0000
      && Printable(rs.tail)
  }

  function OwnerBytes(o: Owner): seq<byte> {
    match o
    case Pointer(hi, lo) => [hi, lo]
    case Text(b) => b + [0]
  }

  function Fixed(r: Record): (s: seq<byte>)
    requires |r.data| < 0x1_0000
    ensures |s| == 6 + |r.ttl|
  {
    U16(r.rtype) + (U16(r.cls) + (r.ttl + U16(|r.data|)))
  }

  function Print(rs: Records): seq<byte>
    requires Printable(rs)
  {
    match rs
    case NoMore => []
    case More(r, t) => OwnerBytes(r.owner) + (Fixed(r) + (r.data + Print(t)))
  }

  function Count(rs: Records): (n: nat)
    ensures n == 0 <==> rs.NoMore?
  {
    match rs
    case NoMore => 0
    case More(_, t) => 1 + Count(t)
  }

  /** The address of the first answer of the requested type. */
  function FirstMatch(rs: Records, rtype: uint16): (o: Parsed)
    requires rtype == TYPE_A || rtype == TYPE_AAAA
    ensures o.Done? && Answerable(o.result)
  {
    match rs
    case NoMore => FAILED
    case More(r, t) => if r.rtype == rtype then Address(r.data, 0, |r.data|, rtype) else FirstMatch(t, rtype)
  }

  lemma AddressAt(m: seq<byte>, p: nat, len: nat, rtype: uint16)
    requires p + len <= |m|
    requires rtype == TYPE_A || rtype == TYPE_AAAA
    ensures Address(m, p, len, rtype) == Address(m[p..p + len], 0, len, rtype)
  {
    var w := m[p..p + len];
    assert forall i :: 0 <= i < len ==> w[i] == m[p + i];
  }

  lemma OwnerAt(m: seq<byte>, p: nat, rs: Records)
    requires Printable(rs) && rs.More? && HasAt(m, p, OwnerBytes(rs.head.owner))
    ensures p < |m| && SkipOwner(m, p) == Some(p + |OwnerBytes(rs.head.owner)|)
  {
    var w := OwnerBytes(rs.head.owner);
    assert forall i :: 0 <= i < |w| ==> m[p + i] == m[p..p + |w|][i] == w[i];
    if rs.head.owner.Text? {
      var z := ZeroAt(m, p);
      assert m[p + |w| - 1] == 0;
      assert z >= p + |w| - 1;
    }
  }

  lemma FixedAt(m: seq<byte>, q: nat, r: Record)
    requires |r.data| < 0x1_0000 && |r.ttl| == 4 && HasAt(m, q, Fixed(r))
    ensures |Fixed(r)| == 10 && Get16(m, q) == r.rtype && Get16(m, q + 8) == |r.data|
  {
    var a, b, c, d := U16(r.rtype), U16(r.cls), r.ttl, U16(|r.data|);
    HasAtSplit(m, q, a, b + (c + d));
    HasAtSplit(m, q + 2, b, c + d);
    HasAtSplit(m, q + 4, c, d);
    HasAt16(m, q, r.rtype);
    HasAt16(m, q + 8, |r.data|);
  }

  lemma RecordAt(m: seq<byte>, p: nat, rs: Records)
    requires Printable(rs) && rs.More? && p <= |m|
    ensures var q := p + |OwnerBytes(rs.head.owner)|;
            HasAt(m, p, Print(rs)) <==>
            && HasAt(m, p, OwnerBytes(rs.head.owner))
            && HasAt(m, q, Fixed(rs.head))
            && HasAt(m, q + 10, rs.head.data)
            && HasAt(m, q + 10 + |rs.head.data|, Print(rs.tail))
  {
    hide Fixed, OwnerBytes, HasAt;
    var r, o, t := rs.head, OwnerBytes(rs.head.owner), Print(rs.tail);
    HasAtSplit(m, p, o, Fixed(r) + (r.data + t));
    HasAtSplit(m, p + |o|, Fixed(r), r.data + t);
    HasAtSplit(m, p + |o| + 10, r.data, t);
  }

  lemma TurnPrinted(m: seq<byte>, p: nat, rs: Records, rtype: uint16)
    requires rtype == TYPE_A || rtype == TYPE_AAAA
    requires Printable(rs) && rs.More? && HasAt(m, p, Print(rs))
    ensures var r, q := rs.head, p + |OwnerBytes(rs.head.owner)| + 10 + |rs.head.data|;
            && q <= |m| && HasAt(m, q, Print(rs.tail))
            && AnswerAt(m, p, rtype) ==
               if r.rtype == rtype then Stop(Address(r.data, 0, |r.data|, rtype)) else Go(q)
  {
    hide OwnerBytes, Print, Fixed, Get16, Get32, Address, SkipOwner;
    var r, q := rs.head, p + |OwnerBytes(rs.head.owner)|;
    RecordAt(m, p, rs);
    OwnerAt(m, p, rs);
    FixedAt(m, q, r);
    AddressAt(m, q + 10, |r.data|, rtype);
  }

  predicate HasType(rs: Records, rtype: uint16) {
    rs.More? && (rs.head.rtype == rtype || HasType(rs.tail, rtype))
  }

  /** When one of the printed answers has the type, it does not matter how many more are announced. */
  lemma {:induction false} ParsePrefix(m: seq<byte>, p: nat, rs: Records, n: nat, rtype: uint16)
    requires rtype == TYPE_A || rtype == TYPE_AAAA
    requires Printable(rs) && HasAt(m, p, Print(rs)) && Count(rs) <= n && HasType(rs, rtype)
    ensures Answers(m, p, n, rtype) == FirstMatch(rs, rtype)
    decreases rs
  {
    hide AnswerAt, OwnerBytes, HasAt, Address, Print;
    TurnPrinted(m, p, rs, rtype);
    if rs.head.rtype == rtype {
    } else {
      ParsePrefix(m, p + |OwnerBytes(rs.head.owner)| + 10 + |rs.head.data|, rs.tail, n - 1, rtype);
    }
  }

  /** Parsing printed answers finds the first match, whatever follows them. */
  lemma {:induction false} ParsePrinted(m: seq<byte>, p: nat, rs: Records, rtype: uint16)
    requires rtype == TYPE_A || rtype == TYPE_AAAA
    requires Printable(rs) && HasAt(m, p, Print(rs))
    ensures Answers(m, p, Count(rs), rtype) == FirstMatch(rs, rtype)
    decreases rs
  {
    hide AnswerAt, OwnerBytes, HasAt, Address, Print;
    if rs.NoMore? {
    } else {
      TurnPrinted(m, p, rs, rtype);
      ParsePrinted(m, p + |OwnerBytes(rs.head.owner)| + 10 + |rs.head.data|, rs.tail, rtype);
    }
  }

  /** The record the parser's cursor stands on. */
  lemma RecordRead(m: seq<byte>, p: nat) returns (r: Record)
    requires p < |m| && SkipOwner(m, p).Some?
    requires var q := SkipOwner(m, p).value; q + 10 <= |m| && q + 10 + Get16(m, q + 8) <= |m|
    ensures Printable(More(r, NoMore))
    ensures var q := SkipOwner(m, p).value;
            && q == p + |OwnerBytes(r.owner)| && HasAt(m, p, OwnerBytes(r.owner))
            && HasAt(m, q, Fixed(r)) && r.rtype == Get16(m, q)
            && |r.data| == Get16(m, q + 8) && r.data == m[q + 10..q + 10 + |r.data|]
  {
    hide SkipOwner, Get16, OwnerBytes, ValidOwner, Fixed;
    var q := SkipOwner(m, p).value;
    var len := Get16(m, q + 8);
    var owner := OwnerRead(m, p);
    r := Record(owner, Get16(m, q), Get16(m, q + 2), m[q + 4..q + 8], m[q + 10..q + 10 + len]);
    FixedRead(m, q, r);
  }

  lemma OwnerRead(m: seq<byte>, p: nat) returns (o: Owner)
    requires p < |m| && SkipOwner(m, p).Some? && SkipOwner(m, p).value <= |m|
    ensures ValidOwner(o) && OwnerBytes(o) == m[p..SkipOwner(m, p).value]
  {
    o := if m[p] >= 64 then Pointer(m[p], m[p + 1]) else Text(m[p..SkipOwner(m, p).value - 1]);
  }

  lemma FixedRead(m: seq<byte>, q: nat, r: Record)
    requires q + 10 <= |m| && |r.data| == Get16(m, q + 8)
    requires r.rtype == Get16(m, q) && r.cls == Get16(m, q + 2) && r.ttl == m[q + 4..q + 8]
    ensures HasAt(m, q, Fixed(r))
  {
    hide U16, Get16;
    Read16(m, q);
    Read16(m, q + 2);
    Read16(m, q + 8);
    var a, b, c, d := U16(r.rtype), U16(r.cls), r.ttl, U16(|r.data|);
    HasAtSplit(m, q + 4, c, d);
    HasAtSplit(m, q + 2, b, c + d);
    HasAtSplit(m, q, a, b + (c + d));
  }

  lemma NothingAt(m: seq<byte>, p: nat)
    requires p <= |m|
    ensures HasAt(m, p, Print(NoMore))
  {
  }

  lemma TurnRead(m: seq<byte>, p: nat, rtype: uint16) returns (r: Record)
    requires rtype == TYPE_A || rtype == TYPE_AAAA
    requires p <= |m|
    requires var t := AnswerAt(m, p, rtype); t.Go? || (t.o.Done? && t.o.result == Ok)
    ensures Printable(More(r, NoMore))
    ensures var q := p + |OwnerBytes(r.owner)|;
            && HasAt(m, p, OwnerBytes(r.owner)) && HasAt(m, q, Fixed(r)) && HasAt(m, q + 10, r.data)
            && q + 10 + |r.data| <= |m|
            && AnswerAt(m, p, rtype) ==
               if r.rtype == rtype then Stop(Address(r.data, 0, |r.data|, rtype)) else Go(q + 10 + |r.data|)
  {
    hide OwnerBytes, Fixed, Get16, Get32, Address, SkipOwner;
    r := RecordRead(m, p);
    AddressAt(m, SkipOwner(m, p).value + 10, |r.data|, rtype);
  }

  /** Conversely, whenever the parser reports an address, the bytes it read are a printed list of
      answers, no longer than announced, whose first match is that address. */
  lemma {:induction false} ParsedIsPrinted(m: seq<byte>, p: nat, n: nat, rtype: uint16) returns (rs: Records)
    requires rtype == TYPE_A || rtype == TYPE_AAAA
    requires p <= |m| && Answers(m, p, n, rtype).Done? && Answers(m, p, n, rtype).result == Ok
    ensures Printable(rs) && HasAt(m, p, Print(rs)) && 0 < Count(rs) <= n
    ensures FirstMatch(rs, rtype) == Answers(m, p, n, rtype)
    decreases n
  {
    hide AnswerAt, OwnerBytes, Fixed, HasAt, Address, Print;
    var r := TurnRead(m, p, rtype);
    var t := NoMore;
    NothingAt(m, p + |OwnerBytes(r.owner)| + 10 + |r.data|);
    if r.rtype == rtype {
    } else {
      t := ParsedIsPrinted(m, p + |OwnerBytes(r.owner)| + 10 + |r.data|, n - 1, rtype);
    }
    rs := More(r, t);
    RecordAt(m, p, rs);
  }

  // ---------- whole messages ----------

  function Header(id: uint16, hi: byte, lo: byte, answers: uint16, counts: seq<byte>): seq<byte> {
    U16(id) + [hi, lo] + U16(1) + U16(answers) + counts
  }

  lemma HeaderAt(m: seq<byte>, id: uint16, hi: byte, lo: byte, answers: uint16, counts: seq<byte>)
    requires |counts| == 4 && HasAt(m, 0, Header(id, hi, lo, answers, counts))
    ensures |m| >= 12 == |Header(id, hi, lo, answers, counts)| && Get16(m, 0) == id && m[2] == hi && m[3] == lo
    ensures Get16(m, 4) == 1 && Get16(m, 6) == answers
  {
    var h := Header(id, hi, lo, answers, counts);
    assert forall i :: 0 <= i < 12 ==> m[i] == m[0..12][i] == h[i];
  }

  lemma QuestionAt(m: seq<byte>, id: uint16, name: Name, rtype: uint16)
    requires HasAt(m, 12, Query(id, name, rtype)[12..])
    ensures var q := 12 + |EncodeName(name)|;
            && |Query(id, name, rtype)| == q + 4
            && HasAt(m, 12, EncodeName(name)) && q + 4 <= |m|
            && Get16(m, q) == rtype && Get16(m, q + 2) == 1
  {
    hide EncodeName, U16, Get16;
    var e, t, c := EncodeName(name), U16(rtype), U16(1);
    assert Query(id, name, rtype)[12..] == e + t + c;
    HasAtSplit(m, 12, e + t, c);
    HasAtSplit(m, 12, e, t);
    HasAt16(m, 12 + |e|, rtype);
    HasAt16(m, 12 + |e + t|, 1);
  }

  /** What happens to the name of a request when a response echoes its question: it is recognised iff the name is
      empty or well formed. A name that ends in a dot is accepted by resolve, but no echo of its query is ever taken
      for it. */
  lemma EchoRecognised(m: seq<byte>, name: Name)
    requires |name| <= MAX_NAME && HasAt(m, 12, EncodeName(name))
    ensures Decode(m, 12, |m|).host == name <==> name == [] || WellFormed(name)
  {
    hide WellFormed, Labels;
    EncodedFits(m, name);
    JoinLabels(name, []);
    ReadWritten(m, 12, |m|, Labels(name));
  }

  /** A response without an error that echoes the question of the emitted query, with these answers. */
  ghost predicate Responds(m: seq<byte>, id: uint16, name: Name, rtype: uint16, hi: byte, lo: byte, counts: seq<byte>,
                           rs: Records)
  {
    && hi >= 0x80 && lo % 16 == 0 && |counts| == 4
    && Printable(rs) && Count(rs) < 0x1_0000
    && HasAt(m, 0, Header(id, hi, lo, Count(rs), counts))
    && HasAt(m, 12, Query(id, name, rtype)[12..])
    && HasAt(m, |Query(id, name, rtype)|, Print(rs))
  }

  /** The result such a response stands for: the address of its first answer of the requested type. */
  function Reply(rs: Records, rtype: uint16): (o: Parsed)
    requires rtype == TYPE_A || rtype == TYPE_AAAA
    ensures o.Done? && Reportable(o.result)
  {
    if rs.NoMore? then Done(NotFound, NO_IP) else FirstMatch(rs, rtype)
  }

  /** End to end: a response that echoes the question of the emitted query and carries any printable
      answers parses to the first answer of the requested type, whatever follows. */
  lemma EndToEnd(m: seq<byte>, id: uint16, name: Name, rtype: uint16, hi: byte, lo: byte,
                 counts: seq<byte>, rs: Records)
    requires rtype == TYPE_A || rtype == TYPE_AAAA
    requires (name == [] || WellFormed(name)) && |name| <= MAX_NAME
    requires Responds(m, id, name, rtype, hi, lo, counts, rs)
    ensures Decode(m, 12, |m|).host == name && Get16(m, 0) == id && |m| >= 17
    ensures ParseReply(m, name, rtype) == Reply(rs, rtype)
  {
    hide Get16, EncodeName, Print, HasAt, Answers, Decode, Count, FirstMatch, WellFormed, Header, Query;
    HeaderAt(m, id, hi, lo, Count(rs), counts);
    QuestionAt(m, id, name, rtype);
    NameRoundTrip(m, 12, |m|, name);
    ParsePrinted(m, |Query(id, name, rtype)|, rs, rtype);
  }

  lemma HasAtWithin(buf: seq<byte>, n: nat, p: nat, w: seq<byte>)
    requires n <= |buf| && HasAt(buf[..n], p, w)
    ensures HasAt(buf, p, w)
  {
    assert buf[..n][p..p + |w|] == buf[p..p + |w|];
  }

  lemma RespondsWithin(buf: seq<byte>, n: nat, id: uint16, name: Name, rtype: uint16, hi: byte, lo: byte,
                       counts: seq<byte>, rs: Records)
    requires n <= |buf| && Responds(buf[..n], id, name, rtype, hi, lo, counts, rs)
    ensures Responds(buf, id, name, rtype, hi, lo, counts, rs)
  {
    hide HasAt, Header, Print, Count, EncodeName, U16;
    HasAtWithin(buf, n, 0, Header(id, hi, lo, Count(rs), counts));
    HasAtWithin(buf, n, 12, Query(id, name, rtype)[12..]);
    HasAtWithin(buf, n, |Query(id, name, rtype)|, Print(rs));
  }

  /** What the bytes after a decoded name say, and the bytes of the name if it decoded. */
  ghost predicate Asks(m: seq<byte>, ls: LabelList, rs: Records, name: Name, rtype: uint16)
    requires |m| >= 12
  {
    && Printable(rs) && 0 < Count(rs)
    && HasAt(m, Decode(m, 12, |m|).p, U16(rtype) + U16(1) + Print(rs))
    && (Decode(m, 12, |m|).ok ==>
          && Proper(ls) && Join([], ls) == name
          && HasAt(m, 12, WireLabels(ls) + [0] + U16(rtype) + U16(1) + Print(rs))
          && (DotFree(ls) ==> HasAt(m, 12, Question(name, rtype))))
  }

  /** Soundness on arbitrary bytes, for every name: whenever an address is reported, the datagram is a response to one
      question, which asks for the type in class 1 and is followed by printed answers whose first match is the reported
      address. The question spells the name if its own name decodes, which every non-empty name guarantees. */
  lemma AcceptedReply(m: seq<byte>, name: Name, rtype: uint16) returns (ls: LabelList, rs: Records)
    requires rtype == TYPE_A || rtype == TYPE_AAAA
    requires ParseReply(m, name, rtype).Done? && ParseReply(m, name, rtype).result == Ok
    ensures |m| >= 12 && m[2] >= 0x80 && m[3] % 16 == 0 && Get16(m, 4) == 1
    ensures Asks(m, ls, rs, name, rtype) && Count(rs) <= Get16(m, 6)
    ensures FirstMatch(rs, rtype) == ParseReply(m, name, rtype)
    ensures name != [] ==> Decode(m, 12, |m|).ok
  {
    hide U16, Get16, EncodeName, Print, Answers, WireLabels, ReadLabels, Count, FirstMatch, DotFree, Proper, Join;
    var r := ReadLabels(m, 12, |m|);
    ls := r.labels;
    ReadConsumes(m, 12, |m|);
    rs := ParsedIsPrinted(m, r.p + 4, Get16(m, 6), rtype);
    var w := WireLabels(ls) + [0];
    Read16(m, r.p);
    Read16(m, r.p + 2);
    HasAtSplit(m, r.p, U16(rtype), U16(1));
    HasAtSplit(m, r.p, U16(rtype) + U16(1), Print(rs));
    if r.ok {
      HasAtSplit(m, 12, w, U16(rtype));
      HasAtSplit(m, 12, w + U16(rtype), U16(1));
      HasAtSplit(m, 12, w + U16(rtype) + U16(1), Print(rs));
      ReEncode(ls);
    }
  }

  ghost predicate Spells(m: seq<byte>, ls: LabelList, name: Name) {
    Proper(ls) && Join([], ls) == name && HasAt(m, 12, WireLabels(ls) + [0])
  }

  lemma {:induction false} ProperIsShort(ls: LabelList)
    requires Proper(ls)
    ensures Short(ls) && UpToEmpty(ls) == ls
    decreases ls
  {
    if ls.Nil? {
    } else {
      ProperIsShort(ls.tail);
    }
  }

  /** A datagram that is taken for a name spells that name iff its own name decodes. */
  lemma SpelledExactly(m: seq<byte>, name: Name)
    requires |m| >= 12 && Decode(m, 12, |m|).host == name
    ensures (exists ls :: Spells(m, ls, name)) <==> Decode(m, 12, |m|).ok
  {
    hide Join, WireLabels;
    var r := ReadLabels(m, 12, |m|);
    if r.ok {
      ReadConsumes(m, 12, |m|);
      assert Spells(m, r.labels, name);
    } else if ls :| Spells(m, ls, name) {
      ProperIsShort(ls);
      ReadWritten(m, 12, |m|, ls);
    }
  }

  /** And for the empty name it need not: a label of 255 bytes and a length byte that reaches past the end are taken for
      the empty name, and the question's type, class and answers are read right there. */
  lemma AcceptedUnspelled(m: seq<byte>, id: uint16, hi: byte, lo: byte, counts: seq<byte>, rs: Records, rtype: uint16)
    requires rtype == TYPE_A || rtype == TYPE_AAAA
    requires hi >= 0x80 && lo % 16 == 0 && |counts| == 4 && Printable(rs) && 0 < Count(rs) < 0x1_0000
    requires 269 <= |m| < 524 && HasAt(m, 0, Header(id, hi, lo, Count(rs), counts)) && m[12] == 255 && m[268] == 255
    requires HasAt(m, 269, U16(rtype) + U16(1) + Print(rs))
    ensures Decode(m, 12, |m|) == Decoded(false, [], 269)
    ensures ParseReply(m, [], rtype) == FirstMatch(rs, rtype)
  {
    hide Get16, HasAt, U16, Print, Header, Count, FirstMatch, Answers;
    HeaderAt(m, id, hi, lo, Count(rs), counts);
    HasAtSplit(m, 269, U16(rtype) + U16(1), Print(rs));
    HasAtSplit(m, 269, U16(rtype), U16(1));
    HasAt16(m, 269, rtype);
    HasAt16(m, 271, 1);
    Fits(m, 273, Print(rs));
    assert ReadLabels(m, 268, |m|) == Read(false, Nil, 269);
    ParsePrinted(m, 273, rs, rtype);
  }

  lemma Fits(m: seq<byte>, p: nat, w: seq<byte>)
    requires HasAt(m, p, w)
    ensures p + |w| <= |m|
  {
  }

  // ---------- what is reported, in bytes ----------

  /** A 32-bit number, most significant byte first. */
  function U32(h: uint32): (s: seq<byte>)
    ensures |s| == 4
  {
    [(h / 0x100_0000) as byte, (h / 0x1_0000 % 0x100) as byte, (h / 0x100 % 0x100) as byte, (h % 0x100) as byte]
  }

  /** The data of an answer that holds this address: 4 bytes for type A, 16 for type AAAA. */
  function AddressData(ip: Ip, rtype: uint16): (s: seq<byte>) {
    if rtype == 1 then U32(ip.q3) else U32(ip.q0) + U32(ip.q1) + U32(ip.q2) + U32(ip.q3)
  }

  /** The data starts with that address; type A answers hold IPv4 addresses. */
  predicate Carries(data: seq<byte>, ip: Ip, rtype: uint16) {
    AddressData(ip, rtype) <= data && (rtype == 1 ==> ip == V4(ip.q3))
  }

  lemma Get32Exactly(m: seq<byte>, p: nat, h: uint32)
    requires p + 4 <= |m|
    ensures Get32(m, p) == h <==> m[p..p + 4] == U32(h)
  {
    var w := m[p..p + 4];
    var a, b, c, d := w[0] as int, w[1] as int, w[2] as int, w[3] as int;
    assert Get32(m, p) == a * 0x100_0000 + b * 0x1_0000 + c * 0x100 + d;
    BytesOf(h, a, b, c, d);
    assert w == U32(h) <==> w[0] == U32(h)[0] && w[1] == U32(h)[1] && w[2] == U32(h)[2] && w[3] == U32(h)[3];
  }

  lemma BytesOf(h: uint32, a: nat, b: nat, c: nat, d: nat)
    requires a < 256 && b < 256 && c < 256 && d < 256
    ensures h == a * 0x100_0000 + b * 0x1_0000 + c * 0x100 + d <==>
            a == h / 0x100_0000 && b == h / 0x1_0000 % 0x100 && c == h / 0x100 % 0x100 && d == h % 0x100
  {
    Nested(h);
  }

  lemma Nested(h: uint32)
    ensures h / 0x1_0000 == h / 0x100 / 0x100 && h / 0x100_0000 == h / 0x1_0000 / 0x100
  {
  }

  lemma FourWords(data: seq<byte>, a: seq<byte>, b: seq<byte>, c: seq<byte>, d: seq<byte>)
    requires |a| == |b| == |c| == |d| == 4
    ensures a + b + c + d <= data <==>
            |data| >= 16 && data[0..4] == a && data[4..8] == b && data[8..12] == c && data[12..16] == d
  {
    var w := a + b + c + d;
    assert w[0..4] == a && w[4..8] == b && w[8..12] == c && w[12..16] == d;
    if |data| >= 16 {
      assert data[..16] == data[0..4] + data[4..8] + data[8..12] + data[12..16];
      if w <= data {
        assert data[..16] == w;
        assert data[0..4] == w[0..4] && data[4..8] == w[4..8] && data[8..12] == w[8..12] && data[12..16] == w[12..16];
      }
    }
  }

  /** The address taken from an answer's data is the one its first 4 or 16 bytes spell, whatever follows them; shorter
      data is an error. */
  lemma AddressExactly(data: seq<byte>, rtype: uint16, ip: Ip)
    requires rtype == 1 || rtype == 28
    ensures Address(data, 0, |data|, rtype) == Done(Ok, ip) <==> Carries(data, ip, rtype)
    ensures Address(data, 0, |data|, rtype) == Done(DnsError, NO_IP) <==> |data| < if rtype == 1 then 4 else 16
  {
    hide Get32, U32;
    if rtype == 1 {
      if |data| >= 4 {
        Get32Exactly(data, 0, ip.q3);
        assert U32(ip.q3) <= data <==> data[0..4] == U32(ip.q3);
      }
    } else {
      FourWords(data, U32(ip.q0), U32(ip.q1), U32(ip.q2), U32(ip.q3));
      if |data| >= 16 {
        Get32Exactly(data, 0, ip.q0);
        Get32Exactly(data, 4, ip.q1);
        Get32Exactly(data, 8, ip.q2);
        Get32Exactly(data, 12, ip.q3);
      }
    }
  }

  lemma FourParts(a: seq<byte>, b: seq<byte>, c: seq<byte>, d: seq<byte>)
    ensures var m := a + b + c + d;
            HasAt(m, 0, a) && HasAt(m, |a|, b) && HasAt(m, |a| + |b|, c)
    ensures forall i :: 0 <= i < |b| ==> (a + b + c + d)[|a| + i] == b[i]
  {
  }

  /** For every IPv6 address there is a datagram of 512 bytes that reports it to a request for the empty name without
      spelling any name. */
  lemma UnspelledExists(ip: Ip) returns (m: seq<byte>)
    ensures |m| == 512 && !Decode(m, 12, |m|).ok
    ensures ParseReply(m, [], 28) == Done(Ok, ip)
  {
    hide Header, Decode, ParseReply, AddressData, HasAt, Address, U16;
    var rs := OneAnswer(ip);
    var head, body := Header(0x102, 0x80, 0, 1, [0, 0, 0, 0]), U16(28) + U16(1) + Print(rs);
    var long := seq(257, i => 255 as byte);
    HeaderSize(0x102, 0x80, 0, 1, [0, 0, 0, 0]);
    var pad := seq(211, i => 0 as byte);
    m := head + long + body + pad;
    FourParts(head, long, body, pad);
    assert m[12 + 0] == long[0] && m[12 + 256] == long[256];
    AcceptedUnspelled(m, 0x102, 0x80, 0, [0, 0, 0, 0], rs, 28);
  }

  lemma HeaderSize(id: uint16, hi: byte, lo: byte, answers: uint16, counts: seq<byte>)
    requires |counts| == 4
    ensures |Header(id, hi, lo, answers, counts)| == 12
  {
  }

  lemma OneAnswer(ip: Ip) returns (rs: Records)
    ensures Printable(rs) && Count(rs) == 1 && |Print(rs)| == 28 && FirstMatch(rs, 28) == Done(Ok, ip)
  {
    hide U32;
    rs := More(Record(Pointer(0xc0, 12), 28, 1, [0, 0, 0, 0], AddressData(ip, 28)), NoMore);
    AddressExactly(AddressData(ip, 28), 28, ip);
    assert Print(NoMore) == [];
  }

  /** The first answer of the requested type. */
  function FirstOf(rs: Records, rtype: uint16): Option<Record> {
    if rs.NoMore? then None else if rs.head.rtype == rtype then Some(rs.head) else FirstOf(rs.tail, rtype)
  }

  lemma {:induction false} FirstMatchIs(rs: Records, rtype: uint16)
    requires rtype == TYPE_A || rtype == TYPE_AAAA
    ensures HasType(rs, rtype) <==> FirstOf(rs, rtype).Some?
    ensures FirstMatch(rs, rtype) ==
            match FirstOf(rs, rtype)
            case None => FAILED
            case Some(r) => Address(r.data, 0, |r.data|, rtype)
    decreases rs
  {
    if rs.NoMore? {
    } else {
      FirstMatchIs(rs.tail, rtype);
    }
  }

  /** What a response stands for, in terms of the bytes of its answers: the address its first answer of the requested
      type carries; an error if that answer is too short or there is none; not_found if there are no answers. */
  lemma ReplyExactly(rs: Records, rtype: uint16, ip: Ip)
    requires rtype == 1 || rtype == 28
    ensures Reply(rs, rtype) == Done(Ok, ip) <==>
            FirstOf(rs, rtype).Some? && Carries(FirstOf(rs, rtype).value.data, ip, rtype)
    ensures Reply(rs, rtype) == Done(DnsError, NO_IP) <==>
            rs.More? && (FirstOf(rs, rtype).Some? ==>
                           |FirstOf(rs, rtype).value.data| < if rtype == 1 then 4 else 16)
    ensures Reply(rs, rtype) == Done(NotFound, NO_IP) <==> rs.NoMore?
  {
    hide Address, Carries;
    FirstMatchIs(rs, rtype);
    if FirstOf(rs, rtype).Some? {
      AddressExactly(FirstOf(rs, rtype).value.data, rtype, ip);
    }
  }

  /** The datagram asks one question, for the type in class 1, after a name that decodes to the given one, and holds
      these answers, with no fewer announced; the first of the type carries the address. */
  ghost predicate Delivers(m: seq<byte>, name: Name, rtype: uint16, ip: Ip, rs: Records) {
    && |m| >= 12 && m[2] >= 128 && m[3] % 16 == 0 && m[4..6] == [0, 1]
    && Decode(m, 12, |m|).host == name
    && Printable(rs) && Count(rs) <= m[6] as int * 256 + m[7] as int
    && HasAt(m, Decode(m, 12, |m|).p, U16(rtype) + U16(1) + Print(rs))
    && FirstOf(rs, rtype).Some? && Carries(FirstOf(rs, rtype).value.data, ip, rtype)
  }

  /** On arbitrary bytes: an address is reported iff the datagram delivers it. */
  lemma ReportedExactly(m: seq<byte>, name: Name, rtype: uint16, ip: Ip)
    requires rtype == 1 || rtype == 28
    ensures ParseReply(m, name, rtype) == Done(Ok, ip) <==> exists rs :: Delivers(m, name, rtype, ip, rs)
  {
    hide Decode, Print, U16, Answers, Carries, FirstOf, Count, HasAt, Printable;
    if ParseReply(m, name, rtype) == Done(Ok, ip) {
      var _, rs := AcceptedReply(m, name, rtype);
      FirstMatchIs(rs, rtype);
      AddressExactly(FirstOf(rs, rtype).value.data, rtype, ip);
      Counted(m);
      assert Delivers(m, name, rtype, ip, rs);
    }
    if rs :| Delivers(m, name, rtype, ip, rs) {
      Counted(m);
      DeliveredParsed(m, name, rtype, ip, rs);
    }
  }

  lemma Counted(m: seq<byte>)
    requires |m| >= 12
    ensures Get16(m, 4) == 1 <==> m[4..6] == [0, 1]
    ensures Get16(m, 6) == m[6] as int * 256 + m[7] as int
    ensures Get16(m, 6) == 0 <==> m[6..8] == [0, 0]
  {
    assert m[4..6][0] == m[4] && m[4..6][1] == m[5] && m[6..8][0] == m[6] && m[6..8][1] == m[7];
  }

  lemma DeliveredParsed(m: seq<byte>, name: Name, rtype: uint16, ip: Ip, rs: Records)
    requires rtype == 1 || rtype == 28
    requires Delivers(m, name, rtype, ip, rs) && Get16(m, 4) == 1 && Count(rs) <= Get16(m, 6)
    ensures ParseReply(m, name, rtype) == Done(Ok, ip)
  {
    hide Decode, Print, U16, Answers, Carries, HasAt, Get16;
    var q := Decode(m, 12, |m|).p;
    HasAtSplit(m, q, U16(rtype) + U16(1), Print(rs));
    HasAtSplit(m, q, U16(rtype), U16(1));
    HasAt16(m, q, rtype);
    HasAt16(m, q + 2, 1);
    Fits(m, q + 4, Print(rs));
    FirstMatchIs(rs, rtype);
    AddressExactly(FirstOf(rs, rtype).value.data, rtype, ip);
    ParsePrefix(m, q + 4, rs, Get16(m, 6), rtype);
  }

  /** On arbitrary bytes: not_found is reported iff the datagram is a response with response code 3, or one without an
      error to one question that announces no answer. */
  lemma NotFoundExactly(m: seq<byte>, name: Name, rtype: uint16)
    requires rtype == 1 || rtype == 28
    ensures ParseReply(m, name, rtype) == Done(NotFound, NO_IP) <==>
            |m| >= 12 && m[2] >= 128 && (m[3] % 16 == 3 || (m[3] % 16 == 0 && m[4..8] == [0, 1, 0, 0]))
    ensures ParseReply(m, name, rtype).Done? && ParseReply(m, name, rtype).result == NotFound ==>
            ParseReply(m, name, rtype) == Done(NotFound, NO_IP)
  {
    hide Decode, Answers;
    if |m| >= 12 {
      Counted(m);
      assert m[4..8] == m[4..6] + m[6..8];
      assert m[4..8] == [0, 1, 0, 0] <==> m[4..6] == [0, 1] && m[6..8] == [0, 0];
    }
  }

  lemma OneLabel(l: byte)
    requires l != 46
    ensures Labels([l]) == Cons([l], Nil) && LabelEnd([l], 0) == 1
  {
    var n: Name := [l];
    assert LabelEnd(n, 1) == 1 && LabelEnd(n, 0) == 1 && Rest(n) == [] && n[..1] == n;
  }

  lemma TwoLabels(k: byte, l: byte)
    requires k != 46 && l != 46
    ensures Labels([k, 46, l]) == Cons([k], Cons([l], Nil))
  {
    var n: Name, t: Name := [k, 46, l], [l];
    OneLabel(l);
    assert n[2..] == t && n[..1] == [k];
    assert LabelEnd(n, 1) == 1 && LabelEnd(n, 0) == 1 && Rest(n) == t;
  }

  /** A query, byte by byte: an AAAA question for "a.b", with recursion desired. */
  lemma LiteralQuery()
    ensures Query(0x1234, [97, 46, 98], 28) ==
            [0x12, 0x34, 1, 0, 0, 1, 0, 0, 0, 0, 0, 0, 1, 97, 1, 98, 0, 0, 28, 0, 1]
  {
    hide Labels;
    TwoLabels(97, 98);
    assert WireLabels(Cons([98], Nil)) == [1, 98];
    assert WireLabels(Cons([97], Cons([98], Nil))) == [1, 97, 1, 98];
    assert EncodeName([97, 46, 98]) == [1, 97, 1, 98, 0];
  }

  /** A response without an error to one question, with answers announced. */
  predicate GoodHeader(m: seq<byte>) {
    |m| >= 12 && m[2] >= 0x80 && m[3] % 16 == 0 && Get16(m, 4) == 1 && Get16(m, 6) != 0
  }

  /** The unchecked question fields, for every datagram: the source reads bytes it did not receive exactly when the
      header is good, the decoded name matches, and the question's type, or its class after a matching type, is cut
      off. */
  lemma CutOffQuestion(m: seq<byte>, name: Name, rtype: uint16)
    requires rtype == TYPE_A || rtype == TYPE_AAAA
    ensures ParseReply(m, name, rtype) == ReadsPastEnd <==>
            && GoodHeader(m) && Decode(m, 12, |m|).host == name
            && var q := Decode(m, 12, |m|).p; |m| < q + 2 || (|m| < q + 4 && Get16(m, q) == rtype)
  {
    hide Get16, Answers, Decode;
    if |m| >= 12 && Decode(m, 12, |m|).p + 4 <= |m| {
      NoOverread(m, Decode(m, 12, |m|).p + 4, Get16(m, 6), rtype);
    }
  }

  /** For a reply that spells the name the way queries do. */
  lemma CutOffEcho(m: seq<byte>, id: uint16, name: Name, rtype: uint16, hi: byte, lo: byte,
                   answers: uint16, counts: seq<byte>)
    requires rtype == TYPE_A || rtype == TYPE_AAAA
    requires WellFormed(name) && |name| <= MAX_NAME
    requires hi >= 0x80 && lo % 16 == 0 && |counts| == 4 && answers > 0
    requires HasAt(m, 0, Header(id, hi, lo, answers, counts)) && HasAt(m, 12, EncodeName(name))
    ensures var q := 12 + |EncodeName(name)|;
            ParseReply(m, name, rtype) == ReadsPastEnd
            <==> |m| < q + 2 || (|m| < q + 4 && Get16(m, q) == rtype)
  {
    hide Get16, HasAt, EncodeName, ParseReply, Decode, WellFormed, Header;
    HeaderAt(m, id, hi, lo, answers, counts);
    EncodedFits(m, name);
    NameRoundTrip(m, 12, |m|, name);
    CutOffQuestion(m, name, rtype);
  }

  /** The empty name, which resolve accepts, matches whatever fails to decode, here a label cut off after its length. */
  lemma CutOffForEmptyName()
    ensures ParseReply([0, 0, 0x80, 0, 0, 1, 0, 1, 0, 0, 0, 0, 5], [], TYPE_AAAA) == ReadsPastEnd
  {
    var m: seq<byte> := [0, 0, 0x80, 0, 0, 1, 0, 1, 0, 0, 0, 0, 5];
    assert ReadLabels(m, 12, 13) == Read(false, Nil, 13);
    CutOffQuestion(m, [], TYPE_AAAA);
  }

  lemma EncodedFits(m: seq<byte>, name: Name)
    requires HasAt(m, 12, EncodeName(name))
    ensures 12 + |EncodeName(name)| <= |m|
  {
  }

  /** After a complete question the answer loop never leaves the received bytes, for arbitrary bytes
      and counts. */
  lemma {:induction false} NoOverread(m: seq<byte>, p: nat, n: nat, rtype: uint16)
    requires p <= |m|
    requires rtype == TYPE_A || rtype == TYPE_AAAA
    ensures Answers(m, p, n, rtype).Done?
    decreases n
  {
    if n == 0 || AnswerAt(m, p, rtype).Stop? {
    } else {
      NoOverread(m, AnswerAt(m, p, rtype).p, n - 1, rtype);
    }
  }

  /** Every turn advances the cursor by at least 11 bytes, so announcing more answers than fit
      changes nothing. */
  lemma {:induction false} AnswersFit(m: seq<byte>, p: nat, n: nat, k: nat, rtype: uint16)
    requires p <= |m| && |m| - p < 11 * k && |m| - p < 11 * n
    requires rtype == TYPE_A || rtype == TYPE_AAAA
    ensures Answers(m, p, n, rtype) == Answers(m, p, k, rtype)
    decreases n
  {
    hide AnswerAt;
    match AnswerAt(m, p, rtype)
    case Stop(_) =>
    case Go(q) => AnswersFit(m, q, n - 1, k - 1, rtype);
  }
}
