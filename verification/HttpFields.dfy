/** Header fields of an HTTP message: extracting one by name, and replacing the value of `Server: `
    in place in the relay's payload buffer. */
module HttpFields {
  import opened CText

  const MAXLINE := 10000
  const CRLF: set<char> := {'\r', '\n'}

  /** extract_http_header_field: the text from one character after the first occurrence of the name to the
      end of the line, or "N/A". (A name at the very end of the text would be read one byte past its end;
      a complete header ends in two line breaks, so that does not arise.) */
  function Field(header: string, name: string): string {
    FieldFrom(header, StrStr(header, name), |name|)
  }

  /** The field whose name, of length `n`, was found at `at`. */
  function FieldFrom(header: string, at: Option<nat>, n: nat): string {
    if at.None? then "N/A" else ValueAt(header, at.value + n + 1)
  }

  function ValueAt(s: string, start: nat): string {
    if start > |s| then "" else Line(s[start..])
  }

  /** `s` up to its first line break. */
  function Line(s: string): string {
    s[..Cspn(s, CRLF)]
  }

  /** `s` has no line break. */
  predicate OneLine(s: string) {
    forall c | c in s :: c !in CRLF
  }

  // ----- the buffer -----

  function Nuls(n: nat): (s: string)
    ensures |s| == n && forall i | 0 <= i < n :: s[i] == '\0'
  {
    seq(n, _ => '\0')
  }

  /** The buffer holds the payload `data`, which may contain NUL bytes, and is zero from its end on. */
  ghost predicate Holds(buf: seq<char>, data: string) {
    && |data| < |buf|
    && buf[..|data|] == data
    && forall i | |data| <= i < |buf| :: buf[i] == '\0'
  }

  /** The C string in the buffer is its first `n` characters. */
  ghost predicate EndsAt(buf: seq<char>, n: nat) {
    n < |buf| && buf[n] == '\0' && forall i | 0 <= i < n :: buf[i] != '\0'
  }

  lemma EndIsUnique(buf: seq<char>, m: nat, n: nat)
    requires EndsAt(buf, m) && EndsAt(buf, n)
    ensures m == n
  {
  }

  lemma HeldString(buf: seq<char>, data: string, n: nat)
    requires Holds(buf, data) && EndsAt(buf, n)
    ensures n <= |data| && buf[..n] == CString(data) && (n == |data| <==> '\0' !in data)
  {
    HeldByte(buf, data);
    assert buf[|data|] == '\0';
    assert buf[..n] == data[..n];
    CspnIs(data, {'\0'}, n);
    assert n == |data| ==> data[..n] == data;
  }

  method Strlen(buf: array<char>, at: nat) returns (n: nat)
    requires at <= buf.Length && exists i :: at <= i < buf.Length && buf[i] == '\0'
    ensures at + n < buf.Length && buf[at + n] == '\0'
    ensures forall i | at <= i < at + n :: buf[i] != '\0'
  {
    n := 0;
    while buf[at + n] != '\0'
      invariant at + n < buf.Length
      invariant forall i | at <= i < at + n :: buf[i] != '\0'
      invariant exists i :: at + n <= i < buf.Length && buf[i] == '\0'
      decreases buf.Length - n
    {
      n := n + 1;
    }
  }

  method TextLength(buf: array<char>) returns (n: nat)
    requires '\0' in buf[..]
    ensures EndsAt(buf[..], n)
  {
    assert exists i | 0 <= i < |buf[..]| :: buf[..][i] == '\0';
    n := Strlen(buf, 0);
  }

  /** bzero(ptr, strlen(ptr)): clears up to the first NUL. */
  method ClearFrom(buf: array<char>, at: nat) returns (n: nat)
    requires at <= buf.Length && exists i :: at <= i < buf.Length && buf[i] == '\0'
    modifies buf
    ensures at + n < buf.Length && old(buf[at + n]) == '\0' && forall i | at <= i < at + n :: old(buf[i]) != '\0'
    ensures buf[..] == old(buf[..at]) + Nuls(n) + old(buf[at + n..])
  {
    n := Strlen(buf, at);
    MemCpy(buf, at, Nuls(n));
  }

  // ----- replacing the value -----

  const SERVER := "Server: "

  /** The position just after the first `Server: `, and the end of its line. */
  function ValueStart(s: string): (i: nat)
    requires StrStr(s, SERVER).Some?
    ensures |SERVER| <= i <= |s|
  {
    StrStr(s, SERVER).value + |SERVER|
  }

  function ValueEnd(s: string): (i: nat)
    requires StrStr(s, SERVER).Some?
    ensures ValueStart(s) <= i <= |s|
  {
    ValueStart(s) + Cspn(s[ValueStart(s)..], CRLF)
  }

  /** `s` with the value of the first `Server: ` replaced. */
  function Spliced(s: string, value: string): string {
    if StrStr(s, SERVER).None? then s
    else s[..ValueStart(s)] + value + s[ValueEnd(s)..]
  }

  /** A byte put behind a C string becomes part of it unless it is NUL. */
  function Behind(c: char): string {
    if c != '\0' then [c] else []
  }

  /** The byte that ends up behind a rewritten payload: the source copies one byte more than it saved, namely
      `c`, which it never sets. A payload with a NUL of its own ends at that NUL. */
  function Stray(data: string, c: char): char {
    if '\0' in data then '\0' else c
  }

  /** The payload after the replacement. */
  function Manipulated(data: string, serverType: string, c: char): string {
    if StrStr(CString(data), SERVER).None? then data
    else Spliced(CString(data), serverType) + Behind(Stray(data, c))
  }

  /** `out` is `text` with what stands between its first `Server: ` and the end of that line replaced by `value`, and
      `tail` behind it. */
  predicate ServerReplaced(text: string, value: string, tail: string, out: string) {
    match StrStr(text, "Server: ")
    case None => false
    case Some(i) =>
      var start := i + 8;
      var end := start + Cspn(text[start..], {'\r', '\n'});
      out == text[..start] + value + text[end..] + tail
  }

  lemma ReplacedIsManipulated(data: string, value: string, c: char, out: string)
    requires StrStr(CString(data), "Server: ").Some?
    ensures ServerReplaced(CString(data), value, if c != '\0' && '\0' !in data then [c] else "", out) <==>
            out == Manipulated(data, value, c)
  {
    ReplacedIsSpliced(CString(data), value, Behind(Stray(data, c)), out);
  }

  lemma ReplacedIsSpliced(text: string, value: string, tail: string, out: string)
    requires StrStr(text, "Server: ").Some?
    ensures ServerReplaced(text, value, tail, out) <==> out == Spliced(text, value) + tail
  {
    var start := StrStr(text, "Server: ").value + 8;
    ValueLies(text, start);
    SplicedIs(text, value, start, start + Cspn(text[start..], {'\r', '\n'}));
  }

  lemma ValueLies(text: string, start: nat)
    requires StrStr(text, "Server: ").Some? && start == StrStr(text, "Server: ").value + 8
    ensures start <= |text| && ValueStart(text) == start
    ensures ValueEnd(text) == start + Cspn(text[start..], {'\r', '\n'})
  {
  }

  lemma SplicedIs(text: string, value: string, start: nat, end: nat)
    requires StrStr(text, SERVER).Some? && start == ValueStart(text) && end == ValueEnd(text)
    ensures Spliced(text, value) == text[..start] + value + text[end..]
  {
  }

  /** manipulate_server_payload, in place. */
  method Manipulate(buf: array<char>, len: nat, serverType: string, stray: char, ghost data: string)
      returns (len': nat)
    requires buf.Length == 2 * MAXLINE && len == |data| < MAXLINE && Holds(buf[..], data)
    requires |serverType| < 100 && '\0' !in serverType
    modifies buf
    ensures len' == |Manipulated(data, serverType, stray)| < buf.Length
    ensures buf[..len'] == Manipulated(data, serverType, stray) && buf[len'] == '\0'
    ensures StrStr(CString(data), SERVER).None? ==> buf[..] == old(buf[..]) && len' == len
  {
    assert buf[..][len] == '\0';
    var z := TextLength(buf);
    HeldString(buf[..], data, z);
    assert buf[..z] == buf[..][..z] == CString(data);
    var found := StrStr(buf[..z], SERVER);
    if found.None? {
      assert buf[..len] == buf[..][..len];
      return len;
    }
    var ptr := found.value + |SERVER|;
    assert ptr == ValueStart(CString(data)) && buf[ptr..z] == buf[..z][ptr..];
    var end := ptr + Cspn(buf[ptr..z], CRLF);
    assert end == ValueEnd(CString(data));
    len' := Rewrite(buf, len, z, ptr, end, serverType, stray, data);
  }

  method Rewrite(buf: array<char>, len: nat, z: nat, ptr: nat, end: nat, value: string, stray: char,
                 ghost data: string)
      returns (len': nat)
    requires ptr <= end <= z == |CString(data)| && len == |data| && len + |value| + 1 < buf.Length
    requires Holds(buf[..], data) && '\0' !in value
    modifies buf
    ensures var text := CString(data);
            var result := text[..ptr] + value + text[end..] + Behind(Stray(data, stray));
            len' == |result| && len' < buf.Length && buf[..len'] == result && buf[len'] == '\0'
  {
    ghost var front, rest := CString(data)[..ptr] + value, CString(data)[end..];
    var saved := buf[end..z] + Nuls(len - z) + [stray];
    assert buf[end..z] == rest by { assert buf[..][..len][..z] == CString(data); }
    Replace(buf, len, ptr, value, data);
    assert '\0' !in front && '\0' !in rest;
    len' := PutBack(buf, ptr + |value|, saved, front, rest, len - z, stray);
  }

  /** Copies the saved bytes behind `front`; the new length is that of the C string. */
  method PutBack(buf: array<char>, at: nat, saved: string, ghost front: string, ghost rest: string, ghost pad: nat,
                 ghost stray: char)
      returns (len': nat)
    requires at == |front| && saved == rest + Nuls(pad) + [stray] && at + |saved| < buf.Length
    requires buf[..at] == front && '\0' !in front && '\0' !in rest
    requires pad == 0 ==> forall i | at <= i < buf.Length :: buf[i] == '\0'
    modifies buf
    ensures var result := front + rest + Behind(if pad > 0 then '\0' else stray);
            len' == |result| && len' < buf.Length && buf[..len'] == result && buf[len'] == '\0'
  {
    MemCpy(buf, at, saved);
    SavedIsBack(buf[..], front, rest, pad, stray);
    ghost var n := |front + rest + Behind(if pad > 0 then '\0' else stray)|;
    assert buf[..][n] == '\0';
    len' := TextLength(buf);
    EndIsUnique(buf[..], len', n);
    assert buf[..len'] == buf[..][..len'];
  }

  /** Writes the new value and clears up to the next NUL, which is the end when the payload has none of its own. */
  method Replace(buf: array<char>, len: nat, ptr: nat, value: string, ghost data: string)
    requires ptr <= |CString(data)| && len == |data| && len + |value| < buf.Length && Holds(buf[..], data)
    modifies buf
    ensures buf[..ptr + |value|] == CString(data)[..ptr] + value
    ensures '\0' !in data ==> forall i | ptr + |value| <= i < buf.Length :: buf[i] == '\0'
  {
    ghost var before := buf[..];
    var at := ptr + |value|;
    MemCpy(buf, ptr, value);
    ghost var mid := buf[..];
    Overwritten(before, mid, ptr, value, data);
    assert buf[buf.Length - 1] == mid[buf.Length - 1];
    var n := ClearFrom(buf, at);
    Cleared(mid, buf[..], at, n, data);
    assert buf[..at] == buf[..][..at];
  }

  lemma Overwritten(before: seq<char>, mid: seq<char>, ptr: nat, value: string, data: string)
    requires Holds(before, data) && ptr <= |CString(data)| && |data| + |value| < |before|
    requires mid == before[..ptr] + value + before[ptr + |value|..]
    ensures mid[..ptr + |value|] == CString(data)[..ptr] + value && mid[|mid| - 1] == '\0'
    ensures forall i | ptr + |value| <= i < |mid| :: mid[i] == if i < |data| then data[i] else '\0'
  {
    HeldByte(before, data);
    assert before[..ptr] == before[..|data|][..ptr] == CString(data)[..ptr];
  }

  lemma HeldByte(buf: seq<char>, data: string)
    requires Holds(buf, data)
    ensures forall i | 0 <= i < |buf| :: buf[i] == if i < |data| then data[i] else '\0'
  {
    assert forall i | 0 <= i < |data| :: buf[i] == buf[..|data|][i];
  }

  lemma Cleared(mid: seq<char>, buf: seq<char>, at: nat, n: nat, data: string)
    requires at + n < |mid| && mid[at + n] == '\0' && buf == mid[..at] + Nuls(n) + mid[at + n..]
    requires forall i | at <= i < |mid| :: mid[i] == if i < |data| then data[i] else '\0'
    ensures '\0' !in data ==> forall i | at <= i < |buf| :: buf[i] == '\0'
  {
    if '\0' !in data {
      assert forall i | 0 <= i < |data| :: data[i] in data;
      assert at + n >= |data|;
    }
  }

  /** The text after the saved rest has been put back. */
  lemma SavedIsBack(buf: seq<char>, front: string, rest: string, pad: nat, stray: char)
    requires |front + rest| + pad + 1 < |buf| && '\0' !in front && '\0' !in rest
    requires buf[..|front|] == front
    requires buf[|front|..|front + rest| + pad + 1] == rest + Nuls(pad) + [stray]
    requires pad == 0 ==> forall i | |front + rest| < i < |buf| :: buf[i] == '\0'
    ensures var result := front + rest + Behind(if pad > 0 then '\0' else stray);
            EndsAt(buf, |result|) && buf[..|result|] == result
  {
    var n := |front + rest|;
    var back := rest + Nuls(pad) + [stray];
    assert buf[n] == back[|rest|];
    assert buf[..n + 1] == front + back[..|rest| + 1];
    assert buf[..n] == front + rest;
  }

  // ----- what the replacement means for the header fields -----

  /** The three parts around the value: everything up to it, the value, and the rest. */
  lemma Parts(s: string)
    requires StrStr(s, SERVER).Some?
    ensures s == s[..ValueStart(s)] + s[ValueStart(s)..ValueEnd(s)] + s[ValueEnd(s)..]
    ensures s[ValueStart(s) - 1] == ' '
    ensures OneLine(s[ValueStart(s)..ValueEnd(s)])
    ensures ValueEnd(s) < |s| ==> s[ValueEnd(s)] in CRLF
  {
    var i, p, e := StrStr(s, SERVER).value, ValueStart(s), ValueEnd(s);
    assert SERVER[7] == ' ' && s[i..i + 8][7] == s[p - 1];
    assert forall k | p <= k < e :: s[k] == s[p..][k - p] && s[k] !in CRLF;
    assert s[..p] + s[p..e] == s[..e];
    assert e < |s| ==> s[e] == s[p..][e - p];
  }

  /** The source's result is the meant replacement exactly when the byte copied too many is NUL or cut off by a NUL
      of the payload's own. */
  lemma ManipulatedIsSpliced(data: string, value: string, c: char)
    ensures Manipulated(data, value, c) == Spliced(CString(data), value) <==>
            if StrStr(CString(data), SERVER).Some? then c == '\0' || '\0' in data else '\0' !in data
    ensures var s := CString(data);
            |Manipulated(data, value, c)| ==
            if StrStr(s, SERVER).None? then |data|
            else |s| - (ValueEnd(s) - ValueStart(s)) + |value| + (if c == '\0' || '\0' in data then 0 else 1)
  {
    var s := CString(data);
    if StrStr(s, SERVER).Some? {
      assert Spliced(s, value) + [] == Spliced(s, value);
    }
  }

  /** The first occurrence within a prefix stays first whatever follows. */
  lemma FirstInPrefix(p: string, a: string, b: string, t: string, i: nat)
    requires StrStr(p + a, t) == Some(i) && i + |t| <= |p|
    ensures StrStr(p + b, t) == Some(i)
  {
    forall j | 0 <= j <= i ensures OccursAt(p + b, t, j) == OccursAt(p + a, t, j) {
      OccursInParts(p, a, t, j);
      OccursInParts(p, b, t, j);
    }
    StrStrIs(p + b, t, i);
  }

  lemma CspnOfParts(a: string, b: string, stop: set<char>)
    ensures Cspn(a + b, stop) == if Cspn(a, stop) < |a| then Cspn(a, stop) else |a| + Cspn(b, stop)
  {
    var n := if Cspn(a, stop) < |a| then Cspn(a, stop) else |a| + Cspn(b, stop);
    CspnIs(a + b, stop, n);
  }

  lemma OneLineIsWhole(v: string)
    ensures Line(v) == v <==> OneLine(v)
  {
    var n := Cspn(v, CRLF);
    if n == |v| {
      assert v[..n] == v;
    } else {
      assert v[n] in v;
    }
  }

  /** The line at the front of a concatenation: it may run on into the second part. */
  lemma LineOfParts(a: string, b: string)
    ensures Line(a + b) == if OneLine(a) then a + Line(b) else Line(a)
  {
    CspnOfParts(a, b, CRLF);
    OneLineIsWhole(a);
    var n := Cspn(a, CRLF);
    if n < |a| {
      assert (a + b)[..n] == a[..n];
    } else {
      assert (a + b)[..n + Cspn(b, CRLF)] == a + b[..Cspn(b, CRLF)];
    }
  }

  /** What follows a value starts with a line break or is empty, so it adds nothing to the line. */
  lemma LineBefore(v: string, q: string)
    requires q != "" ==> q[0] in CRLF
    ensures Line(v + q) == Line(v)
  {
    LineOfParts(v, q);
    OneLineIsWhole(v);
    assert Cspn(q, CRLF) == 0 && v + [] == v;
  }

  lemma ValueAcross(a: string, b: string, start: nat)
    requires start <= |a|
    ensures ValueAt(a + b, start) ==
            if OneLine(a[start..]) then a[start..] + Line(b) else ValueAt(a, start)
  {
    assert (a + b)[start..] == a[start..] + b;
    LineOfParts(a[start..], b);
  }

  /** A field whose value starts where `p` ends, one character after the name. */
  lemma FieldAfter(p: string, before: string, value: string, q: string, t: string)
    requires |p| > |t| && StrStr(p + before, t) == Some(|p| - |t| - 1)
    requires q != "" ==> q[0] in CRLF
    ensures Field(p + (value + q), t) == Line(value)
  {
    FirstInPrefix(p, before, value + q, t, |p| - |t| - 1);
    ValueAcross(p, value + q, |p|);
    LineBefore(value, q);
    assert p[|p|..] == "" && "" + Line(value) == Line(value);
  }

  /** A payload with a `Server: ` has a `Server:`, no later than there and not overlapping it. */
  lemma ServerFirst(s: string)
    requires StrStr(s, SERVER).Some?
    ensures var i, k := StrStr(s, SERVER).value, StrStr(s, "Server:");
            k.Some? && (k.value == i || k.value + |"Server:"| <= i)
  {
    var i := StrStr(s, SERVER).value;
    assert s[i..i + 7] == s[i..i + 8][..7];
    assert OccursAt(s, "Server:", i);
    assert s[i] == s[i..i + 8][0] == 'S';
    forall j: nat | j < i < j + 7 ensures !OccursAt(s, "Server:", j) {
      Differs(s, "Server:", j, i - j);
    }
  }

  /** What `Server:` yields in a text that agrees with `s` up to the value: its first occurrence, at `k`, lies in
      front of the value. */
  lemma ServerField(s: string, w: string, k: nat)
    requires StrStr(s, SERVER).Some? && StrStr(s, "Server:") == Some(k) && k + 8 <= ValueStart(s)
    ensures var p := s[..ValueStart(s)];
            && StrStr(p, "Server:") == Some(k)
            && Field(p + w, "Server:") == if OneLine(p[k + 8..]) then p[k + 8..] + Line(w) else Field(p, "Server:")
  {
    var p, rest := s[..ValueStart(s)], s[ValueStart(s)..];
    assert s == p + rest && p == p + "";
    FirstInPrefix(p, rest, w, "Server:", k);
    FirstInPrefix(p, rest, "", "Server:", k);
    FieldAcross(p, w, "Server:", k);
    FieldIs(p, "Server:", k);
  }

  /** The line that starts with the new value is that value and nothing else. */
  lemma NewLine(value: string, rest: string)
    ensures Line(value + rest) == value <==> OneLine(value) && (rest == "" || rest[0] in CRLF)
  {
    LineOfParts(value, rest);
    OneLineIsWhole(value);
    assert value + "" == value;
  }

  /** A line in which something stands before the new value is not the new value. */
  lemma NotTheValue(r: string, value: string, rest: string)
    requires r != "" && OneLine(r)
    ensures r + Line(value + rest) != value
  {
    LineOfParts(value, rest);
    if !OneLine(value) {
      LineHasNoBreak(r, value);
    }
  }

  lemma LineHasNoBreak(r: string, value: string)
    requires OneLine(r) && !OneLine(value)
    ensures r + Line(value) != value
  {
    var c :| c in value && c in CRLF;
    assert c !in r && c !in Line(value);
  }

  lemma SplicedParts(s: string, value: string, d: char)
    requires StrStr(s, SERVER).Some?
    ensures Spliced(s, value) + Behind(d) == s[..ValueStart(s)] + (value + (s[ValueEnd(s)..] + Behind(d)))
  {
  }

  /** When the new value reads back: either the first `Server:` is the one that was replaced, the new value fits on a
      line and what follows does not continue that line; or an earlier `Server:` has a line of its own that says the
      same. */
  predicate ReadsBack(data: string, value: string, c: char)
    requires StrStr(CString(data), SERVER).Some?
  {
    var s, d := CString(data), Stray(data, c);
    var p := s[..ValueStart(s)];
    if StrStr(s, "Server:") == StrStr(s, SERVER)
    then OneLine(value) && (ValueEnd(s) < |s| || d == '\0' || d in CRLF)
    else !RunsOn(p, "Server:") && Field(p, "Server:") == value
  }

  /** Extracting `Server:` after the replacement gives the new value under exactly that condition. */
  lemma ServerReadsBack(data: string, value: string, c: char)
    requires StrStr(CString(data), SERVER).Some?
    ensures Field(Manipulated(data, value, c), "Server:") == value <==> ReadsBack(data, value, c)
  {
    var s, d := CString(data), Stray(data, c);
    var p, q := s[..ValueStart(s)], s[ValueEnd(s)..] + Behind(d);
    Parts(s);
    SplicedParts(s, value, d);
    ServerFirst(s);
    var k := StrStr(s, "Server:").value;
    ServerField(s, value + q, k);
    if k + 8 == |p| {
      NewLine(value, q);
      assert p[k + 8..] == "" && "" + Line(value + q) == Line(value + q);
    } else if OneLine(p[k + 8..]) {
      NotTheValue(p[k + 8..], value, q);
    }
  }

  /** Where a pattern occurs first in `p + v + q`, when it cannot lie across the joints nor inside `v`. */
  lemma FirstOfParts(p: string, v: string, q: string, t: string)
    requires p != "" && t != "" && p[|p| - 1] !in t
    requires q != "" ==> q[0] !in t
    requires StrStr(v, t).None?
    ensures StrStr(p + v + q, t) ==
            if StrStr(p, t).Some? then StrStr(p, t)
            else if StrStr(q, t).Some? then Some(|p| + |v| + StrStr(q, t).value)
            else None
  {
    var s := p + v + q;
    forall k ensures OccursAt(s, t, k) <==> OccursAt(p, t, k) || (k >= |p + v| && OccursAt(q, t, k - |p + v|)) {
      OccursOutside(p, v, q, t, k);
    }
    if StrStr(p, t).Some? {
      StrStrIs(s, t, StrStr(p, t).value);
    } else if StrStr(q, t).Some? {
      var i := StrStr(q, t).value;
      assert OccursAt(s, t, |p + v| + i);
      StrStrIs(s, t, |p + v| + i);
    }
  }

  lemma OccursOutside(p: string, v: string, q: string, t: string, k: int)
    requires p != "" && t != "" && p[|p| - 1] !in t
    requires q != "" ==> q[0] !in t
    requires StrStr(v, t).None?
    ensures OccursAt(p + v + q, t, k) <==> OccursAt(p, t, k) || (k >= |p + v| && OccursAt(q, t, k - |p + v|))
  {
    var s := p + v + q;
    NoStraddle(s, t, k, |p| - 1);
    if q != "" {
      assert s[|p + v|] == q[0];
      NoStraddle(s, t, k, |p + v|);
    }
    if k >= |p + v| {
      OccursInParts(p + v, q, t, k - |p + v|);
      assert !OccursAt(p, t, k);
    } else if k >= |p| {
      assert s == p + (v + q);
      OccursInParts(p, v + q, t, k - |p|);
      OccursInParts(v, q, t, k - |p|);
      assert !OccursAt(v, t, k - |p|);
    } else if k >= 0 {
      assert s == p + (v + q);
      OccursInParts(p, v + q, t, k);
    }
  }

  /** Where the value of the field found in `p` starts. */
  function FieldStart(p: string, t: string): nat
    requires StrStr(p, t).Some?
  {
    StrStr(p, t).value + |t| + 1
  }

  /** The field found in `p` has its value running on past the end of `p`: no line break in between. */
  predicate RunsOn(p: string, t: string) {
    && StrStr(p, t).Some?
    && FieldStart(p, t) <= |p|
    && OneLine(p[FieldStart(p, t)..])
  }

  lemma FieldOfParts(p: string, v: string, q: string, t: string)
    requires p != "" && t != "" && p[|p| - 1] !in t
    requires q != "" ==> q[0] !in t && q[0] in CRLF
    requires StrStr(v, t).None?
    ensures Field(p + v + q, t) ==
            if RunsOn(p, t) then p[FieldStart(p, t)..] + Line(v)
            else if StrStr(p, t).Some? then Field(p, t)
            else Field(q, t)
  {
    FirstOfParts(p, v, q, t);
    if StrStr(p, t).Some? {
      FieldInFront(p, v, q, t);
    } else {
      FieldBehind(p + v, q, t);
    }
  }

  lemma FieldBehind(a: string, q: string, t: string)
    requires StrStr(a + q, t) == if StrStr(q, t).Some? then Some(|a| + StrStr(q, t).value) else None
    ensures Field(a + q, t) == Field(q, t)
  {
    if StrStr(q, t).Some? {
      FieldShifted(a, q, t, StrStr(q, t).value);
    } else {
      NoField(q, t);
      NoField(a + q, t);
    }
  }

  lemma FieldShifted(a: string, q: string, t: string, i: nat)
    requires StrStr(q, t) == Some(i) && StrStr(a + q, t) == Some(|a| + i)
    ensures Field(a + q, t) == Field(q, t)
  {
    FromShifted(a, q, i, |t|);
  }

  lemma FromShifted(a: string, q: string, i: nat, n: nat)
    ensures FieldFrom(a + q, Some(|a| + i), n) == FieldFrom(q, Some(i), n)
  {
    ValueShifted(a, q, i + n + 1);
  }

  lemma FieldInFront(p: string, v: string, q: string, t: string)
    requires p != "" && t != "" && p[|p| - 1] !in t
    requires q != "" ==> q[0] in CRLF
    requires StrStr(p, t).Some? && StrStr(p + v + q, t) == StrStr(p, t)
    ensures Field(p + v + q, t) == if RunsOn(p, t) then p[FieldStart(p, t)..] + Line(v) else Field(p, t)
  {
    var i := StrStr(p, t).value;
    assert i + |t| < |p| by {
      NoStraddle(p, t, i, |p| - 1);
    }
    FieldRunsOn(p, v, q, t, i);
  }

  lemma FieldRunsOn(p: string, v: string, q: string, t: string, i: nat)
    requires StrStr(p, t) == Some(i) && i + |t| < |p|
    requires q != "" ==> q[0] in CRLF
    ensures Field(p + v + q, t) == if RunsOn(p, t) then p[i + |t| + 1..] + Line(v) else Field(p, t)
  {
    assert p + v + q == p + (v + q);
    FieldInPrefix(p, v + q, t, i);
    LineBefore(v, q);
  }

  lemma FieldAcross(p: string, w: string, t: string, i: nat)
    requires StrStr(p + w, t) == Some(i) && i + |t| + 1 <= |p|
    ensures var rest := p[i + |t| + 1..];
            Field(p + w, t) == if OneLine(rest) then rest + Line(w) else ValueAt(p, i + |t| + 1)
  {
    assert Field(p + w, t) == FieldFrom(p + w, Some(i), |t|);
    FromAcross(p, w, i, |t|);
  }

  lemma FromAcross(p: string, w: string, i: nat, n: nat)
    requires i + n + 1 <= |p|
    ensures var rest := p[i + n + 1..];
            FieldFrom(p + w, Some(i), n) == if OneLine(rest) then rest + Line(w) else ValueAt(p, i + n + 1)
  {
    ValueAcross(p, w, i + n + 1);
  }

  lemma FieldIs(s: string, t: string, i: nat)
    requires StrStr(s, t) == Some(i)
    ensures Field(s, t) == ValueAt(s, i + |t| + 1)
  {
  }

  /** A field whose name is in `p`, when other text follows `p`. */
  lemma FieldInPrefix(p: string, w: string, t: string, i: nat)
    requires StrStr(p, t) == Some(i) && i + |t| + 1 <= |p|
    ensures Field(p + w, t) == if RunsOn(p, t) then p[i + |t| + 1..] + Line(w) else Field(p, t)
  {
    assert p + "" == p;
    FirstInPrefix(p, "", w, t, i);
    FieldAcross(p, w, t, i);
    FieldIs(p, t, i);
  }

  lemma ValueShifted(a: string, b: string, start: nat)
    ensures ValueAt(a + b, |a| + start) == ValueAt(b, start)
  {
    assert start <= |b| ==> (a + b)[|a| + start..] == b[start..];
  }

  /** Two texts that differ only in a middle part without the field's name: the extracted field is the same
      unless it runs on into the middle part, and then exactly when the middle parts have the same line. */
  lemma FieldKept(p: string, v: string, w: string, q: string, t: string)
    requires p != "" && t != "" && p[|p| - 1] !in t
    requires q != "" ==> q[0] !in t && q[0] in CRLF
    requires StrStr(v, t).None? && StrStr(w, t).None?
    ensures Field(p + w + q, t) == Field(p + v + q, t) <==>
            (RunsOn(p, t) ==> Line(w) == Line(v))
  {
    FieldOfParts(p, v, q, t);
    FieldOfParts(p, w, q, t);
    if RunsOn(p, t) {
      var r := p[FieldStart(p, t)..];
      var a, b := Line(v), Line(w);
      assert (r + a)[|r|..] == a && (r + b)[|r|..] == b;
    }
  }

  const CONTENT_LENGTH := "Content-Length:"

  /** The meant replacement leaves the extracted `Content-Length:` alone, unless that field stands on the same
      line before the replaced value; then it is unchanged exactly when the new value's line is the old value.
      Neither value may contain the field's name. */
  lemma SplicedLengthKept(s: string, value: string)
    requires StrStr(s, SERVER).Some?
    requires StrStr(s[ValueStart(s)..ValueEnd(s)], CONTENT_LENGTH).None?
    requires StrStr(value, CONTENT_LENGTH).None?
    ensures Field(Spliced(s, value), CONTENT_LENGTH) == Field(s, CONTENT_LENGTH) <==>
            (RunsOn(s[..ValueStart(s)], CONTENT_LENGTH) ==>
             Line(value) == s[ValueStart(s)..ValueEnd(s)])
  {
    Parts(s);
    var v := s[ValueStart(s)..ValueEnd(s)];
    OneLineIsWhole(v);
    FieldKept(s[..ValueStart(s)], v, value, s[ValueEnd(s)..], CONTENT_LENGTH);
  }

  /** `x` with the byte `c` behind it ends in `t`. */
  predicate Completes(x: string, c: char, t: string) {
    t != "" && |t| <= |x| + 1 && (x + [c])[|x| + 1 - |t|..] == t
  }

  /** Exactly when a byte behind `x` does not change the extracted field: it is NUL; or it does not continue the
      line of the field; or there is no such field and it does not complete the name. */
  predicate Harmless(x: string, c: char, t: string) {
    || c == '\0'
    || (if StrStr(x, t).Some? then RunsOn(x, t) ==> c in CRLF else !Completes(x, c, t))
  }

  lemma CompletedAtEnd(x: string, c: char, t: string)
    requires t != "" && StrStr(x, t).None?
    ensures StrStr(x + [c], t).Some? <==> Completes(x, c, t)
    ensures Completes(x, c, t) ==> StrStr(x + [c], t).value + |t| == |x| + 1
  {
    var y, at := x + [c], |x| + 1 - |t|;
    forall k ensures OccursAt(y, t, k) <==> Completes(x, c, t) && k == at {
      if 0 <= k && k + |t| <= |x| {
        OccursInParts(x, [c], t, k);
      }
      assert k == at && k >= 0 ==> y[k..k + |t|] == y[at..];
    }
    if Completes(x, c, t) {
      StrStrIs(y, t, at);
    }
  }

  lemma StrayKeepsField(x: string, c: char, t: string)
    requires t != ""
    ensures Field(x + Behind(c), t) == Field(x, t) <==> Harmless(x, c, t)
  {
    if c == '\0' {
      assert x + Behind(c) == x;
    } else if StrStr(x, t).None? {
      StrayWithoutField(x, c, t);
    } else {
      StrayBehindField(x, c, t, StrStr(x, t).value);
    }
  }

  lemma StrayWithoutField(x: string, c: char, t: string)
    requires t != "" && StrStr(x, t).None?
    ensures Field(x + [c], t) == Field(x, t) <==> !Completes(x, c, t)
  {
    CompletedAtEnd(x, c, t);
    NoField(x, t);
    if Completes(x, c, t) {
      FieldAtEnd(x + [c], t);
    } else {
      NoField(x + [c], t);
    }
  }

  lemma FieldAtEnd(s: string, t: string)
    requires StrStr(s, t).Some? && StrStr(s, t).value + |t| == |s|
    ensures |Field(s, t)| == 0
  {
    FieldIs(s, t, StrStr(s, t).value);
  }

  lemma NoField(s: string, t: string)
    requires StrStr(s, t).None?
    ensures Field(s, t) == "N/A" && |Field(s, t)| == 3
  {
  }

  lemma StrayBehindField(x: string, c: char, t: string, i: nat)
    requires StrStr(x, t) == Some(i)
    ensures Field(x + [c], t) == Field(x, t) <==> (RunsOn(x, t) ==> c in CRLF)
  {
    var start := i + |t| + 1;
    assert x + "" == x;
    FirstInPrefix(x, "", [c], t, i);
    FieldIs(x, t, i);
    if start <= |x| {
      FieldAcross(x, [c], t, i);
      LineOfParts(x[start..], "");
      assert x[start..] + "" == x[start..];
      assert |Line([c])| == if c in CRLF then 0 else 1;
    } else {
      FieldIs(x + [c], t, i);
    }
  }

  /** The replacement as the source does it leaves the extracted `Content-Length:` alone exactly when: a field that
      runs into the replaced value has the same line as before, the stray byte included when it ends that line;
      and otherwise the stray byte neither continues the field nor forms one. Neither value may contain the
      field's name. */
  lemma ContentLengthKept(data: string, value: string, c: char)
    requires StrStr(CString(data), SERVER).Some?
    requires var s := CString(data); StrStr(s[ValueStart(s)..ValueEnd(s)], CONTENT_LENGTH).None?
    requires StrStr(value, CONTENT_LENGTH).None?
    ensures var s, d := CString(data), Stray(data, c);
            var p := s[..ValueStart(s)];
            Field(Manipulated(data, value, c), CONTENT_LENGTH) == Field(s, CONTENT_LENGTH) <==>
            if RunsOn(p, CONTENT_LENGTH)
            then Line(value + if ValueEnd(s) < |s| then "" else Behind(d)) == s[ValueStart(s)..ValueEnd(s)]
            else Harmless(Spliced(s, value), d, CONTENT_LENGTH)
  {
    var s, d := CString(data), Stray(data, c);
    var p, v, q := s[..ValueStart(s)], s[ValueStart(s)..ValueEnd(s)], s[ValueEnd(s)..];
    Parts(s);
    SplicedParts(s, value, d);
    assert s == p + (v + q);
    if RunsOn(p, CONTENT_LENGTH) {
      FieldBefore(p, v, q, value, d, CONTENT_LENGTH);
    } else {
      SplicedLengthKept(s, value);
      StrayKeepsField(Spliced(s, value), d, CONTENT_LENGTH);
    }
  }

  /** The field runs into the value. */
  lemma FieldBefore(p: string, v: string, q: string, value: string, d: char, t: string)
    requires RunsOn(p, t) && OneLine(v) && (q != "" ==> q[0] in CRLF)
    ensures Field(p + (value + (q + Behind(d))), t) == Field(p + (v + q), t) <==>
            Line(value + if q != "" then "" else Behind(d)) == v
  {
    var i := StrStr(p, t).value;
    FieldInPrefix(p, v + q, t, i);
    FieldInPrefix(p, value + (q + Behind(d)), t, i);
    LineBefore(v, q);
    OneLineIsWhole(v);
    LineUpToRest(value, q, d);
    var r, a, b := p[i + |t| + 1..], Line(value + (q + Behind(d))), v;
    assert (r + a)[|r|..] == a && (r + b)[|r|..] == b;
  }

  lemma LineUpToRest(value: string, q: string, d: char)
    requires q != "" ==> q[0] in CRLF
    ensures Line(value + (q + Behind(d))) == Line(value + if q != "" then "" else Behind(d))
  {
    if q != "" {
      LineBefore(value, q + Behind(d));
      assert value + "" == value;
    } else {
      assert q + Behind(d) == Behind(d);
    }
  }

  // ----- inputs on which the replacement goes wrong -----

  lemma Differs(s: string, t: string, j: nat, d: nat)
    requires d < |t| && j + d < |s| && s[j + d] != t[d]
    ensures !OccursAt(s, t, j)
  {
    assert j + |t| <= |s| ==> s[j..j + |t|][d] == s[j + d];
  }

  lemma FirstAt(s: string, t: string, i: nat)
    requires t != "" && OccursAt(s, t, i) && forall j | 0 <= j < i :: s[j] != t[0]
    ensures StrStr(s, t) == Some(i)
  {
    forall j | 0 <= j < i ensures !OccursAt(s, t, j) {
      Differs(s, t, j, 0);
    }
    StrStrIs(s, t, i);
  }

  function LengthLine(length: string): string {
    "\r\n" + CONTENT_LENGTH + " " + length
  }

  function TwoLines(v: char, length: string): string {
    SERVER + ([v] + LengthLine(length))
  }

  lemma TwoLinesRead(v: char, length: string)
    requires v != 'C' && OneLine(length)
    ensures Field(TwoLines(v, length), CONTENT_LENGTH) == length
  {
    var s := TwoLines(v, length);
    assert s[11..11 + |CONTENT_LENGTH|] == CONTENT_LENGTH;
    FirstAt(s, CONTENT_LENGTH, 11);
    FieldIs(s, CONTENT_LENGTH, 11);
    assert s[11 + |CONTENT_LENGTH| + 1..] == length;
    OneLineIsWhole(length);
  }

  lemma TwoLinesSpliced(v: char, w: char, length: string)
    requires v !in CRLF
    ensures StrStr(TwoLines(v, length), SERVER) == Some(0) && Spliced(TwoLines(v, length), [w]) == TwoLines(w, length)
  {
    var s := TwoLines(v, length);
    ServerInFront([v] + LengthLine(length));
    ShortValue(v, w, LengthLine(length));
    assert ValueStart(s) == |SERVER| && ValueEnd(s) == |SERVER| + 1;
  }

  lemma ServerInFront(rest: string)
    ensures StrStr(SERVER + rest, SERVER) == Some(0) && (SERVER + rest)[|SERVER|..] == rest
  {
    var s := SERVER + rest;
    assert s[0..|SERVER|] == SERVER;
    StrStrIs(s, SERVER, 0);
  }

  /** A value of one character at the front. */
  lemma ShortValue(v: char, w: char, rest: string)
    requires v !in CRLF && rest != "" && rest[0] in CRLF
    ensures var s := SERVER + ([v] + rest);
            Cspn(s[|SERVER|..], CRLF) == 1 && s[..|SERVER|] + [w] + s[|SERVER| + 1..] == SERVER + ([w] + rest)
  {
    var s := SERVER + ([v] + rest);
    assert s[|SERVER|..] == [v] + rest;
    CspnIs([v] + rest, CRLF, 1);
    assert s[|SERVER| + 1..] == rest && s[..|SERVER|] == SERVER;
  }

  /** The stray byte becomes a digit of the length. */
  lemma StrayDigit()
    ensures var s := TwoLines('a', "1");
            && Field(s, CONTENT_LENGTH) == Field(Spliced(s, ['b']), CONTENT_LENGTH) == "1"
            && Field(Manipulated(s, ['b'], '2'), CONTENT_LENGTH) == "1" + ['2']
  {
    TwoLinesSpliced('a', 'b', "1");
    TwoLinesRead('a', "1");
    TwoLinesRead('b', "1");
    TwoLinesRead('b', "1" + ['2']);
    TwoLinesManipulated('a', 'b', "1", '2');
  }

  lemma TwoLinesManipulated(v: char, w: char, length: string, c: char)
    requires v !in CRLF && v != '\0' && '\0' !in length && c != '\0'
    ensures Manipulated(TwoLines(v, length), [w], c) == TwoLines(w, length + [c])
  {
    var s := TwoLines(v, length);
    assert '\0' !in SERVER && '\0' !in CONTENT_LENGTH && '\0' !in "\r\n" && '\0' !in LengthLine(length);
    TwoLinesSpliced(v, w, length);
    assert TwoLines(w, length) + [c] == TwoLines(w, length + [c]);
  }

  const FIRST_SERVER := "Server:a\r\n"
  const TWO_SERVERS := FIRST_SERVER + (SERVER + "b\r\n")

  lemma TwoServers()
    ensures StrStr(TWO_SERVERS, SERVER) == Some(10) && CString(TWO_SERVERS) == TWO_SERVERS
  {
    var a, b := FIRST_SERVER, SERVER + "b\r\n";
    ServerInFront("b\r\n");
    OccursInParts(a, b, SERVER, 0);
    assert a[1] == 'e' && a[7] == 'a' && a[9] == '\n' && '\n' !in SERVER && SERVER[7] == ' ';
    forall j | 0 <= j < 10 ensures !OccursAt(a + b, SERVER, j) {
      NoStraddle(a + b, SERVER, j, 9);
      if j <= 1 {
        Differs(a + b, SERVER, j, if j == 0 then 7 else 0);
      }
    }
    StrStrIs(a + b, SERVER, 10);
    assert '\0' !in a && '\0' !in b;
  }

  lemma EmptyServer(s: string)
    requires |s| > 8 && s[..7] == "Server:" && s[8] == '\r'
    ensures StrStr(s, "Server:") == Some(0) && |Field(s, "Server:")| == 0
  {
    assert s[0..7] == s[..7];
    StrStrIs(s, "Server:", 0);
    FieldIs(s, "Server:", 0);
  }

  lemma EmptyServers()
    ensures var s := TWO_SERVERS;
            && StrStr(s, "Server:") == StrStr(s[..18], "Server:") == Some(0)
            && |Field(s[..18], "Server:")| == 0
  {
    var s := TWO_SERVERS;
    assert s[..7] == "Server:" && s[..18][..7] == "Server:";
    EmptyServer(s);
    EmptyServer(s[..18]);
  }

  /** An earlier `Server:` without a blank hides the value that was replaced. */
  lemma HiddenServer(value: string, c: char)
    requires value != ""
    ensures Field(Manipulated(TWO_SERVERS, value, c), "Server:") != value
  {
    TwoServers();
    EmptyServers();
    assert ValueStart(TWO_SERVERS) == 18;
    ServerReadsBack(TWO_SERVERS, value, c);
  }

  /** The header copy is terminated one byte too late, so one unset byte follows the blank line that ends
      it. No extracted field depends on that byte. */
  lemma UnsetByteIsHarmless(header: string, name: string, stray: char)
    requires |header| >= 4 && header[|header| - 4..] == "\r\n\r\n"
    requires |name| > 1 && '\r' !in name && '\n' !in name
    ensures Field(header + [stray], name) == Field(header, name)
  {
    SameFirst(header, name, stray);
    if StrStr(header, name).Some? {
      var i := StrStr(header, name).value;
      NameBeforeBlankLine(header, name, i);
      UnsetByteBehind(header, name, stray, i);
    }
  }

  lemma UnsetByteBehind(header: string, name: string, stray: char, i: nat)
    requires StrStr(header, name) == StrStr(header + [stray], name) == Some(i) && i + |name| <= |header| - 4
    requires |header| >= 4 && header[|header| - 4..] == "\r\n\r\n"
    ensures Field(header + [stray], name) == Field(header, name)
  {
    FieldIs(header, name, i);
    FieldIs(header + [stray], name, i);
    ValueBeforeBlankLine(header, stray, i + |name| + 1);
  }

  /** A byte behind a final newline completes no occurrence. */
  lemma SameFirst(header: string, name: string, stray: char)
    requires header != "" && header[|header| - 1] == '\n'
    requires |name| > 1 && '\n' !in name
    ensures StrStr(header + [stray], name) == StrStr(header, name)
  {
    var h, s := |header|, header + [stray];
    forall k ensures OccursAt(s, name, k) <==> OccursAt(header, name, k) {
      assert s[h - 1] == header[h - 1];
      NoStraddle(s, name, k, h - 1);
      if k >= 0 {
        OccursInParts(header, [stray], name, k);
      }
    }
    if StrStr(header, name).Some? {
      StrStrIs(s, name, StrStr(header, name).value);
    }
  }

  lemma ValueBeforeBlankLine(header: string, stray: char, start: nat)
    requires |header| >= 4 && header[|header| - 4..] == "\r\n\r\n" && start <= |header| - 3
    ensures ValueAt(header + [stray], start) == ValueAt(header, start)
  {
    var h := |header|;
    assert header[start..][h - 2 - start] == header[h - 4..][2];
    ValueAcross(header, [stray], start);
  }

  lemma NameBeforeBlankLine(header: string, name: string, i: nat)
    requires |header| >= 4 && header[|header| - 4..] == "\r\n\r\n"
    requires '\r' !in name && '\n' !in name && name != "" && OccursAt(header, name, i)
    ensures i + |name| <= |header| - 4
  {
    var h := |header|;
    var end := header[h - 4..];
    assert header[h - 4] == end[0] && header[h - 3] == end[1] && header[h - 2] == end[2] && header[h - 1] == end[3];
    NoStraddle(header, name, i, h - 4);
    NoStraddle(header, name, i, h - 3);
    NoStraddle(header, name, i, h - 2);
    NoStraddle(header, name, i, h - 1);
  }
}
