/** The name server's answer to a query: the loop that decodes the queried name, the reply assembled
    byte by byte, and a reference reader of DNS messages after RFC 1035. */
module DnsResolver {
  import opened CText

  type byte = b: int | 0 <= b < 256
  type Label = seq<byte>

  const DOT: byte := 46
  const MAX_REQUEST_LEN := 1000
  const MAX_DOMAIN_LEN := 1000

  // ----- names, after RFC 1035, section 3.1 -----

  predicate IsLabel(l: Label) {
    1 <= |l| <= 63
  }

  predicate AreLabels(labels: seq<Label>) {
    forall l | l in labels :: IsLabel(l)
  }

  function LengthByte(l: Label): byte {
    if |l| < 256 then |l| else 255
  }

  /** Each label after its length byte, then a zero byte. */
  function EncodeName(labels: seq<Label>): (r: seq<byte>)
    ensures r != []
  {
    if labels == [] then [0] else [LengthByte(labels[0])] + labels[0] + EncodeName(labels[1..])
  }

  lemma LabelsSplit(labels: seq<Label>)
    requires AreLabels(labels) && labels != []
    ensures IsLabel(labels[0]) && AreLabels(labels[1..])
  {
    assert labels[0] in labels;
    forall x | x in labels[1..]
      ensures IsLabel(x)
    {
      assert x in labels;
    }
  }

  lemma FirstByte(labels: seq<Label>)
    requires AreLabels(labels)
    ensures EncodeName(labels)[0] == 0 <==> labels == []
  {
    if labels != [] {
      LabelsSplit(labels);
      assert EncodeName(labels)[0] == LengthByte(labels[0]);
    }
  }

  lemma FirstLabel(labels: seq<Label>)
    requires AreLabels(labels) && labels != []
    ensures IsLabel(labels[0]) && AreLabels(labels[1..])
    ensures EncodeName(labels) == [|labels[0]|] + labels[0] + EncodeName(labels[1..])
    ensures EncodeName(labels[1..])[0] == 0 <==> labels[1..] == []
  {
    LabelsSplit(labels);
    FirstByte(labels[1..]);
  }

  /** The labels, each followed by a dot. */
  function Dotted(labels: seq<Label>): seq<byte> {
    if labels == [] then [] else labels[0] + [DOT] + Dotted(labels[1..])
  }

  /** The labels joined by dots. */
  function Join(labels: seq<Label>): seq<byte> {
    if labels == [] then []
    else if |labels| == 1 then labels[0]
    else labels[0] + [46] + Join(labels[1..])
  }

  lemma {:induction false} DottedIsJoin(labels: seq<Label>)
    requires labels != []
    ensures Dotted(labels) == Join(labels) + [DOT]
  {
    if |labels| > 1 {
      DottedIsJoin(labels[1..]);
    } else {
      assert Dotted(labels) == labels[0] + [DOT] + Dotted([]);
    }
  }

  // ----- the decoding loop -----

  /** The label at `i` is not inside the message or does not fit the name buffer, or its length is negative as a
      char. */
  predicate Leaves(msg: seq<byte>, i: nat, room: nat) {
    i >= |msg| || msg[i] >= 128 || i + 1 + msg[i] >= |msg| || msg[i] + 1 > room
  }

  /** What the loop copies when its body runs with the length byte at `i`: each label followed by a dot. None
      when it would leave the request or the name buffer, or meets a length byte that is negative as a char. */
  function DecodeFrom(msg: seq<byte>, i: nat, room: nat): Option<seq<byte>>
    decreases |msg| - i
  {
    if Leaves(msg, i, room) then None
    else
      var next := i + 1 + msg[i];
      var part := msg[i + 1..next] + [DOT];
      if msg[next] == 0 then Some(part)
      else
        var rest := DecodeFrom(msg, next, room - msg[i] - 1);
        if rest.Some? then Some(part + rest.value) else None
  }

  /** One memcpy at the running offset. */
  method Put(buf: array<byte>, tmp: nat, data: seq<byte>) returns (next: nat)
    requires tmp + |data| <= buf.Length
    modifies buf
    ensures next == tmp + |data| && buf[..next] == old(buf[..tmp]) + data
  {
    MemCpy(buf, tmp, data);
    next := tmp + |data|;
    assert buf[..next] == buf[..][..next];
  }

  /** The body of the loop: one label and a dot; None when it leaves its buffers. */
  method CopyLabel(request: array<byte>, domain: array<byte>, i: nat, t: nat) returns (next: Option<nat>)
    requires i < request.Length && t <= domain.Length && request != domain
    modifies domain
    ensures next.None? <==> Leaves(request[..], i, domain.Length - t)
    ensures next.Some? ==>
              && next.value == i + 1 + request[i]
              && domain[..t + request[i] + 1] == old(domain[..t]) + (request[..][i + 1..next.value] + [DOT])
  {
    var len := request[i];
    if len >= 128 || i + 1 + len >= request.Length || t + len + 1 > domain.Length {
      return None;
    }
    ghost var msg := request[..];
    assert request[i + 1..i + 1 + len] == msg[i + 1..i + 1 + len];
    var end := Put(domain, t, request[i + 1..i + 1 + len] + [DOT]);
    assert request[..] == msg;
    return Some(i + 1 + len);
  }

  /** The do-while loop over the question: copies labels into the name buffer until a zero length byte. */
  method DecodeName(request: array<byte>, domain: array<byte>) returns (tmp: Option<nat>)
    requires request.Length == MAX_REQUEST_LEN && domain.Length == MAX_DOMAIN_LEN && request != domain
    modifies domain
    ensures var name := DecodeFrom(request[..], 12, MAX_DOMAIN_LEN);
            && (tmp.None? <==> name.None?)
            && (tmp.Some? ==> 0 < tmp.value == |name.value| <= MAX_DOMAIN_LEN && domain[..tmp.value] == name.value)
  {
    ghost var msg := request[..];
    ghost var copied: seq<byte> := [];
    var i, t, more := 12, 0, true;
    NothingCopied(DecodeFrom(msg, 12, MAX_DOMAIN_LEN));
    while more
      invariant request[..] == msg && 0 <= i < request.Length
      invariant 0 <= t <= MAX_DOMAIN_LEN && domain[..t] == copied && (more || t > 0)
      invariant DecodeFrom(msg, 12, MAX_DOMAIN_LEN) == Prepend(copied, Rest(msg, i, MAX_DOMAIN_LEN - t, more))
      decreases request.Length - i, more
    {
      LoopRound(msg, i, MAX_DOMAIN_LEN - t, copied);
      var next := CopyLabel(request, domain, i, t);
      if next.None? {
        return None;
      }
      copied := copied + (msg[i + 1..next.value] + [DOT]);
      t := t + request[i] + 1;
      i := next.value;
      more := request[i] != 0;
    }
    assert copied + [] == copied;
    return Some(t);
  }

  /** What the loop has still to copy. */
  function Rest(msg: seq<byte>, i: nat, room: nat, more: bool): Option<seq<byte>> {
    if more then DecodeFrom(msg, i, room) else Some([])
  }

  lemma NothingCopied(name: Option<seq<byte>>)
    ensures Prepend([], name) == name
  {
    assert name.Some? ==> [] + name.value == name.value;
  }

  function Prepend(a: seq<byte>, b: Option<seq<byte>>): Option<seq<byte>> {
    if b.Some? then Some(a + b.value) else None
  }

  lemma LoopRound(msg: seq<byte>, i: nat, room: nat, copied: seq<byte>)
    ensures Leaves(msg, i, room) ==> Prepend(copied, Rest(msg, i, room, true)) == None
    ensures !Leaves(msg, i, room) ==>
              var next := i + 1 + msg[i];
              var now := copied + (msg[i + 1..next] + [DOT]);
              Prepend(copied, Rest(msg, i, room, true)) ==
              Prepend(now, Rest(msg, next, room - msg[i] - 1, msg[next] != 0))
  {
    if !Leaves(msg, i, room) {
      var next := i + 1 + msg[i];
      var part := msg[i + 1..next] + [DOT];
      PrependTwice(copied, part, Rest(msg, next, room - msg[i] - 1, msg[next] != 0));
      assert part + [] == part;
    }
  }

  lemma PrependTwice(a: seq<byte>, b: seq<byte>, c: Option<seq<byte>>)
    ensures Prepend(a, Prepend(b, c)) == Prepend(a + b, c)
  {
    if c.Some? {
      assert a + (b + c.value) == a + b + c.value;
    }
  }

  lemma LabelAt(msg: seq<byte>, i: nat, l: Label, tail: seq<byte>)
    requires i <= |msg| && |l| < 256 && msg[i..] == [|l|] + l + tail
    ensures i + 1 + |l| <= |msg| && msg[i] == |l| && msg[i + 1..i + 1 + |l|] == l && msg[i + 1 + |l|..] == tail
  {
    assert msg[i] == msg[i..][0];
    assert msg[i + 1..] == msg[i..][1..];
    assert msg[i..][1..] == l + tail;
    assert msg[i + 1..i + 1 + |l|] == msg[i + 1..][..|l|];
    assert msg[i + 1 + |l|..] == msg[i + 1..][|l|..];
  }

  /** The same on what is left of the message. */
  function DecodeTail(s: seq<byte>, room: nat): Option<seq<byte>>
    decreases |s|
  {
    if Leaves(s, 0, room) then None
    else
      var part, rest := s[1..1 + s[0]] + [DOT], s[1 + s[0]..];
      if rest[0] == 0 then Some(part) else Prepend(part, DecodeTail(rest, room - s[0] - 1))
  }

  lemma {:induction false} DecodeIsTail(msg: seq<byte>, i: nat, room: nat)
    requires i <= |msg|
    ensures DecodeFrom(msg, i, room) == DecodeTail(msg[i..], room)
    decreases |msg| - i
  {
    if !Leaves(msg, i, room) {
      var next := i + 1 + msg[i];
      assert msg[i..][1..1 + msg[i]] == msg[i + 1..next] && msg[i..][1 + msg[i]..] == msg[next..];
      DecodeIsTail(msg, next, room - msg[i] - 1);
    }
  }

  /** One round of the loop. */
  lemma DecodeRound(l: Label, tail: seq<byte>, room: nat)
    requires |l| < 128 && tail != [] && |l| < room
    ensures DecodeTail([|l|] + (l + tail), room) ==
            if tail[0] == 0 then Some(l + [DOT]) else Prepend(l + [DOT], DecodeTail(tail, room - |l| - 1))
  {
    var s := [|l|] + (l + tail);
    assert s[1..1 + |l|] == l && s[1 + |l|..] == tail;
  }

  lemma EncodedSplits(labels: seq<Label>, after: seq<byte>)
    requires AreLabels(labels) && labels != []
    ensures EncodeName(labels) + after == [|labels[0]|] + labels[0] + (EncodeName(labels[1..]) + after)
    ensures (EncodeName(labels[1..]) + after)[0] == 0 <==> labels[1..] == []
  {
    FirstLabel(labels);
  }

  lemma DottedSplits(labels: seq<Label>)
    requires labels != []
    ensures Dotted(labels) == labels[0] + [DOT] + Dotted(labels[1..])
    ensures labels[1..] == [] ==> Dotted(labels) == labels[0] + [DOT]
  {
    assert labels[0] + [DOT] + [] == labels[0] + [DOT];
  }

  /** What the loop takes for labels: up to 127 bytes each, and none after the first empty. */
  predicate Copyable(labels: seq<Label>) {
    && labels != []
    && forall i | 0 <= i < |labels| :: |labels[i]| < 128 && (i > 0 ==> labels[i] != [])
  }

  lemma CopyableTail(labels: seq<Label>)
    requires Copyable(labels)
    ensures |labels[0]| < 128 && (|labels| > 1 ==> Copyable(labels[1..]) && labels[1..][0] != [])
  {
    var rest := labels[1..];
    assert forall i | 0 <= i < |rest| :: rest[i] == labels[i + 1];
  }

  lemma FirstEncoded(labels: seq<Label>)
    requires labels != [] ==> 0 < |labels[0]| < 128
    ensures EncodeName(labels)[0] == 0 <==> labels == []
  {
    if labels != [] {
      assert EncodeName(labels)[0] == LengthByte(labels[0]);
    }
  }

  lemma Behind(n: byte, l: Label, tail: seq<byte>, after: seq<byte>)
    requires tail != []
    ensures [n] + l + tail + after == [n] + l + (tail + after) && (tail + after)[0] == tail[0]
  {
  }

  lemma CopyableSplits(labels: seq<Label>, after: seq<byte>)
    requires Copyable(labels)
    ensures |labels[0]| < 128 && (|labels| > 1 ==> Copyable(labels[1..]))
    ensures EncodeName(labels) + after == [|labels[0]|] + labels[0] + (EncodeName(labels[1..]) + after)
    ensures (EncodeName(labels[1..]) + after)[0] == 0 <==> labels[1..] == []
  {
    CopyableTail(labels);
    FirstEncoded(labels[1..]);
    Behind(|labels[0]|, labels[0], EncodeName(labels[1..]), after);
  }

  lemma {:induction false} CopyableDecodes(labels: seq<Label>, after: seq<byte>, room: nat)
    requires Copyable(labels) && |Dotted(labels)| <= room
    ensures DecodeTail(EncodeName(labels) + after, room) == Some(Dotted(labels))
    decreases |labels|
  {
    CopyableSplits(labels, after);
    DottedSplits(labels);
    if |labels| > 1 {
      CopyableDecodes(labels[1..], after, room - |labels[0]| - 1);
    }
    TailDecodes(EncodeName(labels) + after, labels[0], EncodeName(labels[1..]) + after, room, Dotted(labels),
                Dotted(labels[1..]));
  }

  lemma DottedDecodes(labels: seq<Label>, after: seq<byte>, room: nat)
    requires labels != [] && AreLabels(labels) && |Dotted(labels)| <= room
    ensures DecodeTail(EncodeName(labels) + after, room) == Some(Dotted(labels))
  {
    forall i | 0 <= i < |labels| ensures IsLabel(labels[i]) {
      assert labels[i] in labels;
    }
    CopyableDecodes(labels, after, room);
  }

  /** A label in front of what is decoded already. */
  lemma TailDecodes(s: seq<byte>, l: Label, tail: seq<byte>, room: nat, name: seq<byte>, rest: seq<byte>)
    requires |l| < 128 && |l| < room && s == [|l|] + l + tail && tail != [] && name == l + [DOT] + rest
    requires if tail[0] == 0 then rest == [] else DecodeTail(tail, room - |l| - 1) == Some(rest)
    ensures DecodeTail(s, room) == Some(name)
  {
    assert s == [|l|] + (l + tail);
    DecodeRound(l, tail, room);
    assert l + [DOT] + [] == l + [DOT];
  }

  /** The message `s` encodes these labels, which spell `name`. */
  predicate Encodes(s: seq<byte>, labels: seq<Label>, after: seq<byte>, name: seq<byte>) {
    Copyable(labels) && s != [] && |labels[0]| == s[0] && s == EncodeName(labels) + after && name == Dotted(labels)
  }

  lemma OneLabel(s: seq<byte>, l: Label, tail: seq<byte>)
    requires |l| < 128 && s == [|l|] + l + tail && tail != [] && tail[0] == 0
    ensures Encodes(s, [l], tail[1..], l + [DOT])
  {
    assert [l][1..] == [] && tail == [0] + tail[1..];
    DottedSplits([l]);
    assert EncodeName([l]) == [LengthByte(l)] + l + EncodeName([]);
  }

  lemma LabelInFront(s: seq<byte>, l: Label, tail: seq<byte>, labels: seq<Label>, after: seq<byte>, name: seq<byte>)
    requires |l| < 128 && s == [|l|] + l + tail && tail != [] && tail[0] != 0 && Encodes(tail, labels, after, name)
    ensures Encodes(s, [l] + labels, after, l + [DOT] + name)
  {
    var all := [l] + labels;
    assert all[1..] == labels && forall i | 0 < i < |all| :: all[i] == labels[i - 1];
    DottedSplits(all);
    assert EncodeName(all) == [LengthByte(l)] + l + EncodeName(labels);
  }

  /** What is decoded was encoded. */
  lemma {:induction false} DecodedLabels(s: seq<byte>, room: nat) returns (labels: seq<Label>, after: seq<byte>)
    requires DecodeTail(s, room).Some?
    ensures Encodes(s, labels, after, DecodeTail(s, room).value) && |DecodeTail(s, room).value| <= room
    decreases |s|
  {
    var l, tail := s[1..1 + s[0]], s[1 + s[0]..];
    assert s == [s[0]] + l + tail;
    if tail[0] == 0 {
      labels, after := [l], tail[1..];
      OneLabel(s, l, tail);
    } else {
      var rest;
      rest, after := DecodedLabels(tail, room - s[0] - 1);
      labels := [l] + rest;
      LabelInFront(s, l, tail, rest, after, DecodeTail(tail, room - s[0] - 1).value);
    }
  }

  ghost predicate DecodesTo(s: seq<byte>, room: nat, labels: seq<Label>) {
    Copyable(labels) && EncodeName(labels) <= s && |Dotted(labels)| <= room
  }

  /** For every message: the loop yields `name` exactly when the message goes on with the encoding of some labels, up to
      127 bytes each and none after the first empty, that spell `name` with a dot behind each and fit the buffer. */
  lemma DecodesIff(msg: seq<byte>, i: nat, room: nat, name: seq<byte>)
    requires i <= |msg|
    ensures DecodeFrom(msg, i, room) == Some(name) <==>
            exists labels :: DecodesTo(msg[i..], room, labels) && name == Dotted(labels)
  {
    var s := msg[i..];
    DecodeIsTail(msg, i, room);
    if DecodeFrom(msg, i, room) == Some(name) {
      var labels, after := DecodedLabels(s, room);
      assert DecodesTo(s, room, labels);
    }
    forall labels | DecodesTo(s, room, labels) ensures DecodeTail(s, room) == Some(Dotted(labels)) {
      DecodesOne(s, room, labels);
    }
  }

  lemma DecodesOne(s: seq<byte>, room: nat, labels: seq<Label>)
    requires DecodesTo(s, room, labels)
    ensures DecodeTail(s, room) == Some(Dotted(labels))
  {
    var n := |EncodeName(labels)|;
    assert s == EncodeName(labels) + s[n..];
    CopyableDecodes(labels, s[n..], room);
  }

  /** For every encoded name the loop stops at its final zero byte and yields the labels joined by dots (and one
      more dot, which the source overwrites), except that for the root name, which has no labels, it looks one byte
      too far: it copies a dot and stops only if the byte behind the name is zero as well. */
  lemma NameDecodes(msg: seq<byte>, i: nat, labels: seq<Label>, after: seq<byte>, room: nat)
    requires AreLabels(labels) && |Join(labels)| < room
    requires i <= |msg| && msg[i..] == EncodeName(labels) + after
    ensures DecodeFrom(msg, i, room) == Some(Join(labels) + [DOT]) <==>
            labels != [] || (after != [] && after[0] == 0)
  {
    if labels == [] {
      RootDecodes(msg, i, after, room);
    } else {
      DottedIsJoin(labels);
      DecodeIsTail(msg, i, room);
      DottedDecodes(labels, after, room);
    }
  }

  lemma RootDecodes(msg: seq<byte>, i: nat, after: seq<byte>, room: nat)
    requires 0 < room && i <= |msg| && msg[i..] == [0] + after
    ensures DecodeFrom(msg, i, room) == Some([DOT]) <==> after != [] && after[0] == 0
  {
    LabelAt(msg, i, [], after);
    assert [] + [DOT] == [DOT];
    if after != [] {
      assert msg[i + 1] == after[0];
      if after[0] != 0 {
        DecodesSomething(msg, i + 1, room - 1);
        var rest := DecodeFrom(msg, i + 1, room - 1);
        assert rest.Some? ==> |[DOT] + rest.value| > 1;
      }
    }
  }

  lemma DecodesSomething(msg: seq<byte>, i: nat, room: nat)
    ensures DecodeFrom(msg, i, room).Some? ==> DecodeFrom(msg, i, room).value != []
  {
  }

  /** What the loop reads it reads before the end of the message: bytes behind it make no difference. */
  lemma {:induction false} ReadsWithin(msg: seq<byte>, behind: seq<byte>, i: nat, room: nat)
    requires DecodeFrom(msg, i, room).Some?
    ensures DecodeFrom(msg + behind, i, room) == DecodeFrom(msg, i, room)
    decreases |msg| - i
  {
    var next := i + 1 + msg[i];
    assert (msg + behind)[i + 1..next] == msg[i + 1..next];
    if msg[next] != 0 {
      ReadsWithin(msg, behind, next, room - msg[i] - 1);
    }
  }

  // ----- re-encoding -----

  function SplitDots(s: seq<byte>): (r: seq<Label>)
    ensures r != [] && forall l | l in r :: |l| <= |s|
  {
    if s == [] then [[]]
    else
      var rest := SplitDots(s[1..]);
      if s[0] == DOT then [[]] + rest else [[s[0]] + rest[0]] + rest[1..]
  }

  predicate DotFree(labels: seq<Label>) {
    forall l | l in labels :: DOT !in l
  }

  lemma {:induction false} SplitIsDotFree(s: seq<byte>)
    ensures DotFree(SplitDots(s))
  {
    if s != [] {
      SplitIsDotFree(s[1..]);
      var rest := SplitDots(s[1..]);
      assert rest[0] in rest;
    }
  }

  lemma SplitDot(s: seq<byte>)
    ensures SplitDots([DOT] + s) == [[]] + SplitDots(s)
  {
    assert ([DOT] + s)[1..] == s;
  }

  lemma SplitByte(b: byte, s: seq<byte>)
    requires b != DOT
    ensures SplitDots([b] + s) == [[b] + SplitDots(s)[0]] + SplitDots(s)[1..]
  {
    assert ([b] + s)[1..] == s;
  }

  lemma {:induction false} SplitAlone(l: Label)
    requires DOT !in l
    ensures SplitDots(l) == [l]
  {
    if l != [] {
      SplitAlone(l[1..]);
      SplitByte(l[0], l[1..]);
      assert [l[0]] + l[1..] == l;
    }
  }

  lemma AfterFirst(a: seq<Label>, b: seq<Label>)
    requires |a| == 1
    ensures (a + b)[0] == a[0] && (a + b)[1..] == b
  {
  }

  lemma {:induction false} SplitLabel(l: Label, s: seq<byte>)
    requires DOT !in l
    ensures SplitDots(l + [DOT] + s) == [l] + SplitDots(s)
  {
    if l == [] {
      assert l + [DOT] + s == [DOT] + s;
      SplitDot(s);
    } else {
      var rest := l[1..] + [DOT] + s;
      assert l + [DOT] + s == [l[0]] + rest;
      SplitByte(l[0], rest);
      SplitLabel(l[1..], s);
      AfterFirst([l[1..]], SplitDots(s));
      assert [l[0]] + l[1..] == l;
    }
  }

  /** Splitting a decoded name at its dots gives the labels back exactly when no label contains a dot. */
  lemma {:induction false} SplitInverts(labels: seq<Label>)
    requires labels != []
    ensures SplitDots(Join(labels)) == labels <==> DotFree(labels)
  {
    SplitIsDotFree(Join(labels));
    if DotFree(labels) {
      JoinSplits(labels);
    }
  }

  lemma {:induction false} JoinSplits(labels: seq<Label>)
    requires labels != [] && DotFree(labels)
    ensures SplitDots(Join(labels)) == labels
  {
    assert labels[0] in labels;
    if |labels| > 1 {
      assert forall l | l in labels[1..] :: l in labels;
      JoinSplits(labels[1..]);
      SplitLabel(labels[0], Join(labels[1..]));
    } else {
      SplitAlone(labels[0]);
    }
  }

  lemma {:induction false} SplitFirst(s: seq<byte>, k: nat)
    requires k < |s| && s[k] == DOT && DOT !in s[..k]
    ensures SplitDots(s)[0] == s[..k]
  {
    if k > 0 {
      assert s[0] == s[..k][0];
      assert s[1..][..k - 1] == s[..k][1..];
      SplitFirst(s[1..], k - 1);
      assert [s[0]] + s[1..][..k - 1] == s[..k];
    }
  }

  function DotAt(l: seq<byte>): (k: nat)
    ensures k <= |l| && DOT !in l[..k] && (k < |l| ==> l[k] == DOT)
  {
    if l == [] || l[0] == DOT then 0
    else
      assert forall n | 0 <= n < |l| :: l[..n + 1] == [l[0]] + l[1..][..n];
      1 + DotAt(l[1..])
  }

  /** With a dot in the first label, the first length byte comes out smaller. */
  lemma DotInFirst(labels: seq<Label>, k: nat)
    requires labels != [] && AreLabels(labels)
    requires k < |labels[0]| && labels[0][k] == DOT && DOT !in labels[0][..k]
    ensures EncodeName(SplitDots(Join(labels))) != EncodeName(labels)
    ensures !DotFree(labels)
  {
    assert labels[0] in labels && labels[0][k] in labels[0];
    JoinStarts(labels, k);
    SplitFirst(Join(labels), k);
    OtherFirstByte(SplitDots(Join(labels)), labels);
  }

  lemma OtherFirstByte(a: seq<Label>, b: seq<Label>)
    requires a != [] && b != [] && |a[0]| < |b[0]| < 256
    ensures EncodeName(a) != EncodeName(b)
  {
    assert EncodeName(a)[0] == |a[0]| && EncodeName(b)[0] == |b[0]|;
  }

  lemma JoinStarts(labels: seq<Label>, k: nat)
    requires labels != [] && k < |labels[0]|
    ensures k < |Join(labels)| && Join(labels)[..k] == labels[0][..k] && Join(labels)[k] == labels[0][k]
  {
  }

  lemma SameFirst(labels: seq<Label>)
    requires |labels| > 1 && AreLabels(labels) && DOT !in labels[0]
    ensures EncodeName(SplitDots(Join(labels))) == EncodeName(labels) <==>
            EncodeName(SplitDots(Join(labels[1..]))) == EncodeName(labels[1..])
    ensures DotFree(labels) <==> DotFree(labels[1..])
  {
    var l, rest := labels[0], labels[1..];
    SplitLabel(l, Join(rest));
    EncodeAfterLabel(l, SplitDots(Join(rest)), rest);
    assert labels == [l] + rest;
  }

  /** Encoding the labels between the dots of a decoded name gives the original bytes exactly when no label
      contains a dot. */
  lemma {:induction false} Reencodes(labels: seq<Label>)
    requires labels != [] && AreLabels(labels)
    ensures EncodeName(SplitDots(Join(labels))) == EncodeName(labels) <==> DotFree(labels)
    decreases |labels|
  {
    var l, rest := labels[0], labels[1..];
    var k := DotAt(l);
    if k < |l| {
      DotInFirst(labels, k);
    } else {
      assert l[..k] == l;
      if rest != [] {
        SameFirst(labels);
        FirstLabel(labels);
        Reencodes(rest);
      } else {
        assert labels == [l] && Join(labels) == l;
        SplitAlone(l);
      }
    }
  }

  lemma EncodeAfterLabel(l: Label, a: seq<Label>, b: seq<Label>)
    ensures EncodeName([l] + a) == EncodeName([l] + b) <==> EncodeName(a) == EncodeName(b)
  {
    assert ([l] + a)[1..] == a && ([l] + b)[1..] == b;
    var head := [LengthByte(l)] + l;
    assert (head + EncodeName(a))[|head|..] == EncodeName(a);
    assert (head + EncodeName(b))[|head|..] == EncodeName(b);
  }

  // ----- the reply -----

  function Answer(addr: seq<byte>): seq<byte> {
    [0xc0, 0x0c] + [0, 1, 0, 1, 0, 0, 0, 0x3c, 0, 4] + addr
  }

  function ReplyHeader(query: seq<byte>): seq<byte>
    requires |query| >= 12
  {
    query[..2] + [0x81, 0x80] + query[4..6] + query[4..6] + [0, 0, 0, 0]
  }

  /** The reply to `query`: its identifier, the response flags, its question count twice, everything after its
      header, and the answer. */
  function Reply(query: seq<byte>, addr: seq<byte>): seq<byte>
    requires |query| >= 12
  {
    ReplyHeader(query) + query[12..] + Answer(addr)
  }

  method PutHeader(request: array<byte>, response: array<byte>, ghost query: seq<byte>) returns (tmp: nat)
    requires request.Length == response.Length == MAX_REQUEST_LEN && request != response
    requires 12 <= |query| <= MAX_REQUEST_LEN && request[..|query|] == query
    modifies response
    ensures tmp == 12 && response[..tmp] == ReplyHeader(query)
  {
    assert request[..2] == query[..2] && request[4..6] == query[4..6];
    tmp := Put(response, 0, request[..2]);
    tmp := Put(response, tmp, [0x81, 0x80]);
    tmp := Put(response, tmp, request[4..6]);
    tmp := Put(response, tmp, request[4..6]);
    tmp := Put(response, tmp, [0, 0, 0, 0]);
  }

  method PutAnswer(response: array<byte>, at: nat, addr: seq<byte>) returns (tmp: nat)
    requires |addr| == 4 && at + 16 <= response.Length
    modifies response
    ensures tmp == at + 16 && response[..tmp] == old(response[..at]) + Answer(addr)
  {
    tmp := Put(response, at, [0xc0, 0x0c]);
    tmp := Put(response, tmp, [0, 1, 0, 1, 0, 0, 0, 0x3c, 0, 4]);
    tmp := Put(response, tmp, addr);
    assert response[..tmp] == old(response[..at]) + Answer(addr);
  }

  /** The assembly of the reply, at a running offset, with the resolved address unless it is zero. */
  method BuildResponse(request: array<byte>, r: nat, found: seq<byte>, fake: seq<byte>, response: array<byte>)
      returns (tmp: nat)
    requires request.Length == response.Length == MAX_REQUEST_LEN && request != response
    requires 12 <= r && r + 16 <= MAX_REQUEST_LEN && |found| == |fake| == 4
    modifies response
    ensures tmp == r + 16
    ensures response[..tmp] == Reply(request[..r], if found != [0, 0, 0, 0] then found else fake)
  {
    ghost var query := request[..r];
    tmp := PutHeader(request, response, query);
    assert request[12..r] == query[12..];
    tmp := Put(response, tmp, request[12..r]);
    if found[0] != 0 || found[1] != 0 || found[2] != 0 || found[3] != 0 {
      tmp := PutAnswer(response, tmp, found);
    } else {
      tmp := PutAnswer(response, tmp, fake);
    }
  }

  /** What one datagram leads to. OutOfBounds is where the source copies outside its buffers. */
  datatype Outcome = Ignored | OutOfBounds | Sent(length: nat)

  /** One round of the worker on a datagram of `r` bytes: only queries with opcode 0 are answered; one too short
      to hold a question is reported but treated like any other. */
  method HandleRequest(request: array<byte>, r: nat, domain: array<byte>, found: seq<byte>, fake: seq<byte>,
                       response: array<byte>)
      returns (outcome: Outcome)
    requires request.Length == response.Length == MAX_REQUEST_LEN && domain.Length == MAX_DOMAIN_LEN
    requires request != response && request != domain && response != domain
    requires r <= MAX_REQUEST_LEN && |found| == |fake| == 4
    modifies domain, response
    ensures outcome.Ignored? <==> request[2] / 8 % 16 != 0
    ensures outcome.Sent? <==>
              && request[2] / 8 % 16 == 0 && DecodeFrom(request[..], 12, MAX_DOMAIN_LEN).Some?
              && 12 <= r && r + 16 <= MAX_REQUEST_LEN
    ensures outcome.Sent? ==> outcome.length == r + 16
    ensures outcome.Sent? ==>
              response[..outcome.length] == Reply(request[..r], if found != [0, 0, 0, 0] then found else fake)
  {
    if request[2] / 8 % 16 != 0 {
      return Ignored;
    }
    var name := DecodeName(request, domain);
    if name.None? || r < 12 || r + 16 > MAX_REQUEST_LEN {
      return OutOfBounds;
    }
    var tmp := BuildResponse(request, r, found, fake, response);
    return Sent(tmp);
  }

  // ----- a reference reader, after RFC 1035, sections 4.1.1 to 4.1.4 -----

  function U16(msg: seq<byte>, i: nat): nat
    requires i + 2 <= |msg|
  {
    (msg[i] as int) * 256 + msg[i + 1]
  }

  function U32(msg: seq<byte>, i: nat): nat
    requires i + 4 <= |msg|
  {
    U16(msg, i) * 65536 + U16(msg, i + 2)
  }

  datatype Name = Name(labels: seq<Label>, next: nat)

  /** A name at `i`: labels up to a zero byte, or up to a pointer to a place before the start of this name. */
  function ReadName(msg: seq<byte>, start: nat, i: nat): Option<Name>
    decreases start, |msg| - i
  {
    if i >= |msg| then None
    else if msg[i] == 0 then Some(Name([], i + 1))
    else if msg[i] < 64 then
      if i + 1 + msg[i] > |msg| then None
      else
        var rest := ReadName(msg, start, i + 1 + msg[i]);
        if rest.Some? then Some(Name([msg[i + 1..i + 1 + msg[i]]] + rest.value.labels, rest.value.next)) else None
    else if msg[i] >= 192 && i + 1 < |msg| then
      var target := (msg[i] as int - 192) * 256 + msg[i + 1];
      if target >= start then None
      else
        var rest := ReadName(msg, target, target);
        if rest.Some? then Some(Name(rest.value.labels, i + 2)) else None
    else None
  }

  datatype Response = Response(id: nat, flags: nat, qname: seq<Label>, qtype: nat, qclass: nat,
                               name: seq<Label>, rtype: nat, rclass: nat, ttl: nat, rdata: seq<byte>)

  /** A message of one question and one answer and nothing else. */
  function ReadResponse(msg: seq<byte>): Option<Response> {
    if |msg| < 12 || U16(msg, 4) != 1 || U16(msg, 6) != 1 || U16(msg, 8) != 0 || U16(msg, 10) != 0 then None
    else
      var q := ReadName(msg, 12, 12);
      if q.None? || q.value.next + 4 > |msg| then None
      else
        var at := q.value.next + 4;
        var a := ReadName(msg, at, at);
        if a.None? || a.value.next + 10 > |msg| then None
        else
          var e := a.value.next;
          if e + 10 + U16(msg, e + 8) != |msg| then None
          else Some(Response(U16(msg, 0), U16(msg, 2),
                             q.value.labels, U16(msg, q.value.next), U16(msg, q.value.next + 2),
                             a.value.labels, U16(msg, e), U16(msg, e + 2), U32(msg, e + 4), msg[e + 10..]))
  }

  lemma {:induction false} NameReads(msg: seq<byte>, start: nat, i: nat, labels: seq<Label>, after: seq<byte>)
    requires AreLabels(labels) && i <= |msg| && msg[i..] == EncodeName(labels) + after
    ensures ReadName(msg, start, i) == Some(Name(labels, i + |EncodeName(labels)|))
    decreases |labels|
  {
    if labels == [] {
      assert msg[i] == msg[i..][0];
    } else {
      var l := labels[0];
      FirstLabel(labels);
      FirstLabelAt(msg, i, labels, after);
      NameReads(msg, start, i + 1 + |l|, labels[1..], after);
      LabelReads(msg, start, i, labels, i + |EncodeName(labels)|);
    }
  }

  /** Where the first label lies, and what follows it. */
  lemma FirstLabelAt(msg: seq<byte>, i: nat, labels: seq<Label>, after: seq<byte>)
    requires AreLabels(labels) && labels != [] && i <= |msg| && msg[i..] == EncodeName(labels) + after
    ensures var l, next := labels[0], i + 1 + |labels[0]|;
            && next <= |msg| && msg[i] == |l| && msg[i + 1..next] == l
            && msg[next..] == EncodeName(labels[1..]) + after
            && |EncodeName(labels)| == 1 + |l| + |EncodeName(labels[1..])|
  {
    FirstLabel(labels);
    EncodedSplits(labels, after);
    LabelAt(msg, i, labels[0], EncodeName(labels[1..]) + after);
  }

  /** A label in front of what is read already. */
  lemma LabelReads(msg: seq<byte>, start: nat, i: nat, labels: seq<Label>, next: nat)
    requires labels != [] && IsLabel(labels[0]) && i + 1 + |labels[0]| <= |msg|
    requires msg[i] == |labels[0]| && msg[i + 1..i + 1 + |labels[0]|] == labels[0]
    requires ReadName(msg, start, i + 1 + |labels[0]|) == Some(Name(labels[1..], next))
    ensures ReadName(msg, start, i) == Some(Name(labels, next))
  {
    assert [labels[0]] + labels[1..] == labels;
  }

  /** A query of a 12-byte header and exactly one question. */
  function Query(header: seq<byte>, labels: seq<Label>, qtype: seq<byte>, qclass: seq<byte>): seq<byte>
    requires AreLabels(labels)
  {
    header + EncodeName(labels) + qtype + qclass
  }

  /** A well-formed query is decoded whatever the rest of the buffer holds; one for the root name only if the byte
      behind the name, the high byte of the question's type, is zero. */
  lemma QueryDecodes(request: seq<byte>, header: seq<byte>, labels: seq<Label>, qtype: seq<byte>, qclass: seq<byte>)
    requires |header| == 12 && AreLabels(labels) && qtype != []
    requires Query(header, labels, qtype, qclass) <= request && |Join(labels)| < MAX_DOMAIN_LEN
    ensures DecodeFrom(request, 12, MAX_DOMAIN_LEN) == Some(Join(labels) + [DOT]) <==> labels != [] || qtype[0] == 0
  {
    var query := Query(header, labels, qtype, qclass);
    var behind := request[|query|..];
    assert request == query + behind;
    AfterHeader(header, EncodeName(labels), qtype, qclass, behind);
    NameDecodes(request, 12, labels, qtype + qclass + behind, MAX_DOMAIN_LEN);
  }

  lemma AfterHeader(h: seq<byte>, a: seq<byte>, b: seq<byte>, c: seq<byte>, d: seq<byte>)
    ensures (h + a + b + c + d)[|h|..] == a + (b + c + d)
  {
  }

  /** A well-formed query end to end: it is answered, one for the root name provided its type is below 256; and
      whenever it is answered, the answer reads back as the same identifier and question with the resolved address,
      or the fake one when that is zero. */
  method AnswerQuery(request: array<byte>, r: nat, domain: array<byte>, found: seq<byte>, fake: seq<byte>,
                     response: array<byte>,
                     ghost header: seq<byte>, ghost labels: seq<Label>, ghost qtype: seq<byte>, ghost qclass: seq<byte>)
      returns (outcome: Outcome)
    requires request.Length == response.Length == 1000 && domain.Length == 1000
    requires request != response && request != domain && response != domain
    requires |found| == |fake| == 4 && r + 16 <= 1000
    requires |header| == 12 && |qtype| == |qclass| == 2 && AreLabels(labels)
    requires header[2] / 8 % 16 == 0 && U16(header, 4) == 1
    requires request[..r] == Query(header, labels, qtype, qclass) && |Join(labels)| < 1000
    modifies domain, response
    ensures labels != [] || qtype[0] == 0 ==> outcome.Sent?
    ensures outcome.Sent? ==>
              && outcome.length == r + 16
              && ReadResponse(response[..r + 16]) ==
                 Some(Response(U16(header, 0), 0x8180, labels, U16(qtype, 0), U16(qclass, 0), labels, 1, 1, 60,
                               if found != [0, 0, 0, 0] then found else fake))
  {
    assert request[..r][..12] == header && request[2] == request[..r][2];
    assert request[..r] == request[..][..r];
    QueryDecodes(request[..], header, labels, qtype, qclass);
    outcome := HandleRequest(request, r, domain, found, fake, response);
    ReplyReads(header, labels, qtype, qclass, if found != [0, 0, 0, 0] then found else fake);
  }

  /** The reply to a query with exactly one question reads back, after RFC 1035, as the same identifier and
      question with one address record for the queried name: its pointer resolves to the question's name, its
      lifetime is 60 seconds and its data the address. It is readable exactly when the query counted one
      question. */
  lemma ReplyReads(header: seq<byte>, labels: seq<Label>, qtype: seq<byte>, qclass: seq<byte>, addr: seq<byte>)
    requires |header| == 12 && AreLabels(labels) && |qtype| == |qclass| == 2 && |addr| == 4
    ensures var query := Query(header, labels, qtype, qclass);
            var reply := Reply(query, addr);
            && |reply| == |query| + 16
            && (ReadResponse(reply).Some? <==> U16(header, 4) == 1)
            && (U16(header, 4) == 1 ==>
                  ReadResponse(reply) ==
                  Some(Response(U16(header, 0), 0x8180, labels, U16(qtype, 0), U16(qclass, 0), labels, 1, 1, 60, addr)))
  {
    var query := Query(header, labels, qtype, qclass);
    var reply, q := Reply(query, addr), 12 + |EncodeName(labels)|;
    ReplyParts(header, labels, qtype, qclass, addr);
    NameReads(reply, 12, 12, labels, qtype + qclass + Answer(addr));
    HeaderFields(reply, header);
    AnswerFields(reply, q + 4, addr);
    PointerReads(reply, q + 4, labels);
    FieldReads(reply, q, qtype);
    FieldReads(reply, q + 2, qclass);
  }

  lemma FieldReads(msg: seq<byte>, i: nat, field: seq<byte>)
    requires i + 2 <= |msg| && |field| == 2 && msg[i..i + 2] == field
    ensures U16(msg, i) == U16(field, 0)
  {
    assert msg[i] == msg[i..i + 2][0] && msg[i + 1] == msg[i..i + 2][1];
  }

  lemma HeaderFields(msg: seq<byte>, header: seq<byte>)
    requires |header| == 12 <= |msg|
    requires msg[..12] == header[..2] + [0x81, 0x80] + header[4..6] + header[4..6] + [0, 0, 0, 0]
    ensures U16(msg, 0) == U16(header, 0) && U16(msg, 2) == 0x8180
    ensures U16(msg, 4) == U16(msg, 6) == U16(header, 4) && U16(msg, 8) == U16(msg, 10) == 0
  {
    var h := header[..2] + [0x81, 0x80] + header[4..6] + header[4..6] + [0, 0, 0, 0];
    assert forall i | 0 <= i < 12 :: msg[i] == h[i];
  }

  lemma AnswerFields(msg: seq<byte>, at: nat, addr: seq<byte>)
    requires |addr| == 4 && at + 16 == |msg| && msg[at..] == Answer(addr)
    ensures msg[at] == 0xc0 && msg[at + 1] == 0x0c
    ensures U16(msg, at + 2) == 1 && U16(msg, at + 4) == 1 && U32(msg, at + 6) == 60 && U16(msg, at + 10) == 4
    ensures msg[at + 12..] == addr
  {
    var a := Answer(addr);
    assert forall i | 0 <= i < 16 :: msg[at + i] == a[i];
    assert msg[at + 12..] == msg[at..][12..];
  }

  /** Where the parts of the reply lie. */
  lemma ReplyParts(header: seq<byte>, labels: seq<Label>, qtype: seq<byte>, qclass: seq<byte>, addr: seq<byte>)
    requires |header| == 12 && AreLabels(labels) && |qtype| == |qclass| == 2 && |addr| == 4
    ensures var reply := Reply(Query(header, labels, qtype, qclass), addr);
            var q := 12 + |EncodeName(labels)|;
            && |reply| == q + 20
            && reply[..12] == header[..2] + [0x81, 0x80] + header[4..6] + header[4..6] + [0, 0, 0, 0]
            && reply[12..] == EncodeName(labels) + (qtype + qclass + Answer(addr))
            && reply[q..q + 2] == qtype && reply[q + 2..q + 4] == qclass && reply[q + 4..] == Answer(addr)
  {
    var query, name := Query(header, labels, qtype, qclass), EncodeName(labels);
    assert query[12..] == name + qtype + qclass;
    assert query[..2] == header[..2] && query[4..6] == header[4..6];
    SplitReply(ReplyHeader(query), name, qtype, qclass, Answer(addr));
  }

  lemma SplitReply(h: seq<byte>, name: seq<byte>, a: seq<byte>, b: seq<byte>, c: seq<byte>)
    requires |h| == 12 && |a| == |b| == 2
    ensures var r := h + (name + a + b) + c;
            var q := 12 + |name|;
            && r[..12] == h && r[12..] == name + (a + b + c)
            && r[q..q + 2] == a && r[q + 2..q + 4] == b && r[q + 4..] == c
  {
  }

  /** The answer's name is a pointer to offset 12. */
  lemma PointerReads(msg: seq<byte>, at: nat, labels: seq<Label>)
    requires 12 < at && at + 2 <= |msg| && msg[at] == 0xc0 && msg[at + 1] == 0x0c
    requires ReadName(msg, 12, 12).Some? && ReadName(msg, 12, 12).value.labels == labels
    ensures ReadName(msg, at, at) == Some(Name(labels, at + 2))
  {
  }
}
