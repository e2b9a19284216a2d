/** FTP passive mode: reading the address that a server announces, remembering it until the client speaks,
    and the shared table of awaited data connections. */
module FtpPassive {
  import opened CText

  /** An announced address; port 0 stands for no announcement. */
  datatype Announced = Announced(ip: string, port: nat)

  const NOTHING := Announced("", 0)

  // ----- lines -----

  /** strtok with "\n": the non-empty pieces between newlines. */
  function Tokens(s: string): seq<string>
    decreases |s|
  {
    if s == "" then []
    else
      var n := Cspn(s, {'\n'});
      if n == 0 then Tokens(s[1..]) else [s[..n]] + Tokens(s[n..])
  }

  predicate NewlineFree(lines: seq<string>) {
    forall l | l in lines :: '\n' !in l
  }

  /** The lines, each ended by a newline. */
  function Unlines(lines: seq<string>): string {
    if lines == [] then "" else lines[0] + "\n" + Unlines(lines[1..])
  }

  function NonEmpty(lines: seq<string>): seq<string> {
    if lines == [] then [] else Kept(lines[0]) + NonEmpty(lines[1..])
  }

  function Kept(line: string): seq<string> {
    if line == "" then [] else [line]
  }

  lemma FirstToken(line: string, rest: string)
    requires '\n' !in line
    ensures Tokens(line + "\n" + rest) == Kept(line) + Tokens(rest)
  {
    var s := line + "\n" + rest;
    assert forall i | 0 <= i < |line| :: s[i] == line[i] && line[i] in line;
    CspnIs(s, {'\n'}, |line|);
    assert s[..|line|] == line && s[|line|..] == "\n" + rest;
    CspnIs("\n" + rest, {'\n'}, 0);
    assert ("\n" + rest)[1..] == rest && Tokens("\n" + rest) == Tokens(rest);
    assert [] + Tokens(rest) == Tokens(rest);
  }

  lemma LastToken(line: string)
    requires '\n' !in line
    ensures Tokens(line) == Kept(line)
  {
    CspnIs(line, {'\n'}, |line|);
    assert line[..|line|] == line && line[|line|..] == "";
    assert Tokens("") == [] && [line] + [] == [line];
  }

  lemma NonEmptyFirst(first: string, rest: seq<string>)
    ensures NonEmpty([first] + rest) == Kept(first) + NonEmpty(rest)
  {
    assert ([first] + rest)[1..] == rest;
  }

  lemma {:induction false} NonEmptySplits(a: seq<string>, b: seq<string>)
    ensures NonEmpty(a + b) == NonEmpty(a) + NonEmpty(b)
  {
    if a == [] {
      assert a + b == b;
    } else {
      assert a + b == [a[0]] + (a[1..] + b);
      NonEmptyFirst(a[0], a[1..] + b);
      NonEmptySplits(a[1..], b);
    }
  }

  /** The lines of a text with any number of lines: exactly the non-empty ones, in order. */
  lemma {:induction false} TokensOfLines(lines: seq<string>, last: string)
    requires NewlineFree(lines) && '\n' !in last
    ensures Tokens(Unlines(lines) + last) == NonEmpty(lines + [last])
  {
    if lines == [] {
      LastToken(last);
      assert Unlines(lines) + last == last && lines + [last] == [last] + [];
      NonEmptyFirst(last, []);
    } else {
      var first, others := lines[0], lines[1..];
      assert first in lines && forall l | l in others :: l in lines;
      TokensOfLines(others, last);
      FirstToken(first, Unlines(others) + last);
      UnlinesBefore(lines, last);
      NonEmptyFirst(first, others + [last]);
      assert lines + [last] == [first] + (others + [last]);
    }
  }

  lemma UnlinesBefore(lines: seq<string>, last: string)
    requires lines != []
    ensures Unlines(lines) + last == lines[0] + "\n" + (Unlines(lines[1..]) + last)
  {
  }

  /** Every text has such lines. */
  lemma {:induction false} TextHasLines(s: string) returns (lines: seq<string>, last: string)
    ensures NewlineFree(lines) && '\n' !in last && s == Unlines(lines) + last
    decreases |s|
  {
    var n := Cspn(s, {'\n'});
    if n == |s| {
      lines, last := [], s;
      assert Unlines(lines) + last == s;
    } else {
      var rest;
      rest, last := TextHasLines(s[n + 1..]);
      lines := [s[..n]] + rest;
      assert lines[1..] == rest && s == s[..n] + "\n" + s[n + 1..];
    }
  }

  /** There is something to read other than newlines. */
  predicate HasText(s: string) {
    exists c | c in s :: c != '\n'
  }

  lemma {:induction false} HasTextIff(s: string)
    ensures HasText(s) <==> Tokens(s) != []
    decreases |s|
  {
    if s != "" {
      var n := Cspn(s, {'\n'});
      if n == 0 {
        HasTextIff(s[1..]);
        assert forall c :: c in s <==> c == s[0] || c in s[1..];
      } else {
        assert s[0] in s && s[0] != '\n';
      }
    }
  }

  // ----- the 227 reply -----

  datatype Scanned = Scanned(piece: string, rest: string)

  /** The text before the next `sep` and the text after it; None when there is none, where the source's pointer
      would step over the end of the line. */
  function Cut(s: string, sep: char): Option<Scanned> {
    var n := Cspn(s, {sep});
    if n < |s| then Some(Scanned(s[..n], s[n + 1..])) else None
  }

  const PARTS: nat := 4

  /** The next `left` parts, joined by dots, and what follows them. */
  function Octets(s: string, left: nat): Option<Scanned>
    decreases left
  {
    if left == 0 then Some(Scanned("", s))
    else
      var c := Cut(s, ',');
      if c.None? then None
      else Prefixed(c.value.piece + Separator(left), Octets(c.value.rest, left - 1))
  }

  function Separator(left: nat): string {
    if left > 1 then "." else ""
  }

  function Prefixed(ip: string, rest: Option<Scanned>): Option<Scanned> {
    if rest.Some? then Some(Scanned(ip + rest.value.piece, rest.value.rest)) else None
  }

  /** One round of the loop over the parts. */
  lemma OctetRound(ip: string, s: string, left: nat)
    requires left > 0
    ensures var c := Cut(s, ',');
            Prefixed(ip, Octets(s, left)) ==
            if c.None? then None
            else Prefixed(ip + (c.value.piece + Separator(left)), Octets(c.value.rest, left - 1))
  {
    var c := Cut(s, ',');
    if c.Some? {
      var rest := Octets(c.value.rest, left - 1);
      var piece := c.value.piece + Separator(left);
      assert rest.Some? ==> ip + (piece + rest.value.piece) == ip + piece + rest.value.piece;
    }
  }

  /** Two decimal parts, `high,low)`, stored in 16 bits. */
  function PortOf(high: string, low: string): nat {
    (Atoi(high) * 256 + Atoi(low)) % 65536
  }

  function UpTo(s: string, sep: char): string {
    s[..Cspn(s, {sep})]
  }

  function Port(s: string): Option<nat> {
    var c := Cut(s, ',');
    if c.None? then None else Some(PortOf(c.value.piece, UpTo(c.value.rest, ')')))
  }

  function Pasv(line: string): Option<Announced> {
    match StrStr(line, "(")
    case None => None
    case Some(at) =>
      var ip := Octets(line[at + 1..], PARTS);
      if ip.None? || Port(ip.value.rest).None? then None
      else Some(Announced(ip.value.piece, Port(ip.value.rest).value))
  }

  /** The loop over the four parts of the address. */
  method ScanOctets(s: string) returns (r: Option<Scanned>)
    ensures r == Octets(s, PARTS)
  {
    var ptr, ip := s, "";
    PrefixedByNothing(Octets(s, PARTS), "", "");
    for i := 0 to PARTS
      invariant Octets(s, PARTS) == Prefixed(ip, Octets(ptr, PARTS - i))
    {
      OctetRound(ip, ptr, PARTS - i);
      var c := Cut(ptr, ',');
      if c.None? {
        return None;
      }
      ip, ptr := ip + (c.value.piece + Separator(PARTS - i)), c.value.rest;
    }
    PrefixedByNothing(None, ip, ptr);
    return Some(Scanned(ip, ptr));
  }

  lemma PrefixedByNothing(r: Option<Scanned>, ip: string, s: string)
    ensures Prefixed("", r) == r
    ensures Prefixed(ip, Some(Scanned("", s))) == Some(Scanned(ip, s))
  {
    assert r.Some? ==> "" + r.value.piece == r.value.piece;
    assert ip + "" == ip;
  }

  /** The scan of a 227 line; None where the source runs past the end of the line. */
  method ScanPasv(line: string) returns (r: Option<Announced>)
    ensures r == Pasv(line)
  {
    var at := StrStr(line, "(");
    if at.None? {
      return None;
    }
    var octets := ScanOctets(line[at.value + 1..]);
    if octets.None? {
      return None;
    }
    var part1 := Cut(octets.value.rest, ',');
    if part1.None? {
      return None;
    }
    return Some(Announced(octets.value.piece, PortOf(part1.value.piece, UpTo(part1.value.rest, ')'))));
  }

  // ----- the 229 reply -----

  /** The port between the third and the fourth bar; the address is the one the connection goes to. */
  function Epsv(line: string, dest: string): Option<Announced> {
    match StrStr(line, "(")
    case None => None
    case Some(at) => if at + 4 > |line| then None else EpsvPort(line[at + 4..], dest)
  }

  function EpsvPort(s: string, dest: string): Option<Announced> {
    var c := Cut(s, '|');
    if c.None? then None else Some(Announced(dest, InPort(c.value.piece)))
  }

  /** A decimal number stored in 16 bits. */
  function InPort(digits: string): nat {
    Atoi(digits) % 65536
  }

  /** What one server line announces: Some(None) when it is no passive-mode reply, None when the source would
      leave the line. */
  function LineAnnounces(line: string, dest: string): Option<Option<Announced>> {
    if "227" <= line then
      if Pasv(line).Some? then Some(Pasv(line)) else None
    else if "229" <= line then
      if Epsv(line, dest).Some? then Some(Epsv(line, dest)) else None
    else Some(None)
  }

  /** A line says nothing exactly when it starts with neither code. */
  lemma OtherCodes(line: string, dest: string)
    ensures LineAnnounces(line, dest) == Some(None) <==> !("227" <= line) && !("229" <= line)
  {
  }

  /** The announcement that stands after the lines of one server payload. */
  function AfterLines(a: Announced, lines: seq<string>, dest: string): Option<Announced>
    decreases |lines|
  {
    if lines == [] then Some(a)
    else
      var l := LineAnnounces(lines[0], dest);
      if l.None? then None else AfterLines(if l.value.Some? then l.value.value else a, lines[1..], dest)
  }

  // ----- which replies can be scanned -----

  function Commas(s: string): nat {
    if s == "" then 0 else (if s[0] == ',' then 1 else 0) + Commas(s[1..])
  }

  /** Cutting at a comma takes one comma away. */
  lemma {:induction false} CutTakesComma(s: string)
    ensures Cut(s, ',').Some? <==> Commas(s) > 0
    ensures Cut(s, ',').Some? ==> Commas(Cut(s, ',').value.rest) == Commas(s) - 1
  {
    if s != "" {
      var n := Cspn(s, {','});
      if s[0] != ',' {
        CutTakesComma(s[1..]);
        assert n == 1 + Cspn(s[1..], {','});
        assert n < |s| ==> s[n + 1..] == s[1..][n..];
      }
    }
  }

  lemma {:induction false} OctetsIff(s: string, left: nat)
    ensures Octets(s, left).Some? <==> Commas(s) >= left
    ensures Octets(s, left).Some? ==> Commas(Octets(s, left).value.rest) == Commas(s) - left
    decreases left
  {
    if left > 0 {
      CutTakesComma(s);
      var c := Cut(s, ',');
      if c.Some? {
        OctetsIff(c.value.rest, left - 1);
      }
    }
  }

  /** A parenthesis with at least five commas behind it. */
  predicate SixParts(line: string) {
    var at := StrStr(line, "(");
    at.Some? && at.value + 1 <= |line| && Commas(line[at.value + 1..]) >= 5
  }

  /** A parenthesis with a bar somewhere behind the three characters that follow it. */
  predicate FourthBar(line: string) {
    var at := StrStr(line, "(");
    at.Some? && at.value + 4 <= |line| && '|' in line[at.value + 4..]
  }

  /** The scan of a 227 line stays on the line exactly when the line has six parts. */
  lemma PasvIff(line: string)
    ensures Pasv(line).Some? <==> SixParts(line)
  {
    var at := StrStr(line, "(");
    if at.Some? {
      var rest := line[at.value + 1..];
      OctetsIff(rest, PARTS);
      if Octets(rest, PARTS).Some? {
        CutTakesComma(Octets(rest, PARTS).value.rest);
      }
    }
  }

  /** The scan of a 229 line stays on the line exactly when there is a bar for it to stop at. */
  lemma EpsvIff(line: string, dest: string)
    ensures Epsv(line, dest).Some? <==> FourthBar(line)
  {
    var at := StrStr(line, "(");
    if at.Some? && at.value + 4 <= |line| {
      var s := line[at.value + 4..];
      var n := Cspn(s, {'|'});
      assert n < |s| ==> s[n] in s;
    }
  }

  predicate Scannable(line: string) {
    if "227" <= line then SixParts(line) else "229" <= line ==> FourthBar(line)
  }

  predicate AllScannable(lines: seq<string>) {
    forall l | l in lines :: Scannable(l)
  }

  lemma LineIff(line: string, dest: string)
    ensures LineAnnounces(line, dest).Some? <==> Scannable(line)
  {
    PasvIff(line);
    EpsvIff(line, dest);
  }

  /** A payload is read without leaving one of its lines exactly when every line can be scanned. */
  lemma {:induction false} LinesIff(a: Announced, lines: seq<string>, dest: string)
    ensures AfterLines(a, lines, dest).Some? <==> AllScannable(lines)
    decreases |lines|
  {
    if lines != [] {
      LineIff(lines[0], dest);
      assert lines == [lines[0]] + lines[1..];
      var l := LineAnnounces(lines[0], dest);
      if l.Some? {
        LinesIff(if l.value.Some? then l.value.value else a, lines[1..], dest);
      }
    }
  }

  lemma OpensAt(code: string, rest: string)
    requires '(' !in code
    ensures StrStr(code + "(" + rest, "(") == Some(|code|) && (code + "(" + rest)[|code| + 1..] == rest
  {
    var s := code + "(" + rest;
    assert s[|code|..|code| + 1] == "(";
    forall j | 0 <= j < |code| ensures !OccursAt(s, "(", j) {
      assert s[j..j + 1][0] == code[j];
    }
    StrStrIs(s, "(", |code|);
  }

  lemma CommasOf(a: string, b: string)
    requires ',' !in a
    ensures Commas(a + "," + b) == 1 + Commas(b)
  {
    CutAt(a, ',', b);
    CutTakesComma(a + "," + b);
  }

  /** A reply with five parts instead of six takes the source over the end of the line. */
  lemma FiveParts()
    ensures Pasv("227 " + "(" + ("1" + "," + ("2" + "," + ("3" + "," + ("4" + "," + "5)"))))).None?
  {
    var rest := "1" + "," + ("2" + "," + ("3" + "," + ("4" + "," + "5)")));
    OpensAt("227 ", rest);
    CommasOf("1", "2" + "," + ("3" + "," + ("4" + "," + "5)")));
    CommasOf("2", "3" + "," + ("4" + "," + "5)"));
    CommasOf("3", "4" + "," + "5)");
    CommasOf("4", "5)");
    assert Commas("5)") == Commas("5)"[1..]) == 0;
    PasvIff("227 " + "(" + rest);
  }

  // ----- the table of awaited connections -----

  datatype Row = Row(ip: string, port: nat, kind: string, filename: string)

  function Without(rows: seq<Row>, ip: string, port: nat): seq<Row> {
    if rows == [] then []
    else (if rows[0].ip == ip && rows[0].port == port then [] else [rows[0]]) + Without(rows[1..], ip, port)
  }

  function Matching(rows: seq<Row>, ip: string, port: nat): nat {
    if rows == [] then 0
    else (if rows[0].ip == ip && rows[0].port == port then 1 else 0) + Matching(rows[1..], ip, port)
  }

  class AwaitedTable {
    var rows: seq<Row>

    constructor ()
      ensures rows == []
    {
      rows := [];
    }

    method Insert(row: Row)
      modifies this
      ensures rows == old(rows) + [row]
    {
      rows := rows + [row];
    }

    /** The fallback of protocol identification: is a data connection to this address awaited? */
    method IsAwaited(origDest: string, port: nat) returns (r: bool)
      ensures r <==> Matching(rows, origDest, port) > 0
    {
      var count := 0;
      for i := 0 to |rows|
        invariant count + Matching(rows[i..], origDest, port) == Matching(rows, origDest, port)
      {
        assert rows[i..][1..] == rows[i + 1..];
        if rows[i].ip == origDest && rows[i].port == port {
          count := count + 1;
        }
      }
      return count > 0;
    }

    /** Logging an FTP data connection deletes every row of the address it really went to. */
    method Delete(dest: string, port: nat)
      modifies this
      ensures rows == Without(old(rows), dest, port)
    {
      var kept: seq<Row> := [];
      for i := 0 to |rows|
        invariant rows == old(rows)
        invariant kept + Without(rows[i..], dest, port) == Without(rows, dest, port)
      {
        assert rows[i..][1..] == rows[i + 1..];
        ghost var rest := Without(rows[i + 1..], dest, port);
        if rows[i].ip != dest || rows[i].port != port {
          assert kept + ([rows[i]] + rest) == kept + [rows[i]] + rest;
          kept := kept + [rows[i]];
        } else {
          assert [] + rest == rest;
        }
      }
      rows := kept;
    }
  }

  // ----- a control connection -----

  /** The command and its argument on the line that consumes an announcement. */
  function RowFor(a: Announced, line: string): Row {
    match StrStr(line, " ")
    case Some(i) => Row(a.ip, a.port, line[..Cspn(line, {' '})], line[i + 1..])
    case None => Row(a.ip, a.port, line[..Cspn(line, {'\r', '\n'})], "")
  }

  /** `kind` and `filename` are what stands before and behind the first blank of the line; without a blank `kind` is the
      line up to its end and `filename` is empty. */
  predicate Describes(kind: string, filename: string, line: string) {
    if ' ' in line then line == kind + " " + filename && ' ' !in kind
    else
      && filename == "" && kind <= line && '\r' !in kind && '\n' !in kind
      && (kind == line || line[|kind|] == '\r' || line[|kind|] == '\n')
  }

  /** The row for a line has the address announced, and the line's command and argument. */
  lemma RowDescribes(a: Announced, line: string)
    ensures var row := RowFor(a, line);
            row.ip == a.ip && row.port == a.port && Describes(row.kind, row.filename, line)
  {
    var n := Cspn(line, {' '});
    if ' ' in line {
      OneCharAt(line, ' ', n);
      assert line == line[..n] + " " + line[n + 1..];
    } else {
      OccursHas(line, ' ');
    }
  }

  lemma OccursHas(s: string, c: char)
    ensures StrStr(s, [c]).Some? ==> c in s
  {
    assert StrStr(s, [c]).Some? ==> s[StrStr(s, [c]).value..StrStr(s, [c]).value + 1][0] in s;
  }

  lemma OneCharAt(s: string, c: char, n: nat)
    requires c in s && n == Cspn(s, {c})
    ensures n < |s| && StrStr(s, [c]) == Some(n)
  {
    assert n < |s|;
    assert s[n..n + 1] == [c];
    forall j | 0 <= j < n ensures !OccursAt(s, [c], j) {
      assert s[j..j + 1][0] == s[j];
    }
    StrStrIs(s, [c], n);
  }

  /** A line has only one description. */
  lemma DescribedOnce(line: string, kind1: string, filename1: string, kind2: string, filename2: string)
    requires Describes(kind1, filename1, line) && Describes(kind2, filename2, line)
    ensures kind1 == kind2 && filename1 == filename2
  {
    if ' ' in line {
      var n := Cspn(line, {' '});
      CommandEnds(kind1, filename1);
      CommandEnds(kind2, filename2);
    } else {
      CspnIs(line, {'\r', '\n'}, |kind1|);
      CspnIs(line, {'\r', '\n'}, |kind2|);
    }
  }

  lemma CommandEnds(kind: string, filename: string)
    requires ' ' !in kind
    ensures var line := kind + " " + filename;
            Cspn(line, {' '}) == |kind| && line[..|kind|] == kind && line[|kind| + 1..] == filename
  {
    var line := kind + " " + filename;
    assert forall i | 0 <= i < |kind| :: line[i] == kind[i] && kind[i] in kind;
    CspnIs(line, {' '}, |kind|);
  }

  /** What one client payload does: its first line, if any, consumes a standing announcement. */
  function Consumed(a: Announced, payload: string): seq<Row> {
    if a.port > 0 && Tokens(payload) != [] then [RowFor(a, Tokens(payload)[0])] else []
  }

  function AfterClient(a: Announced, payload: string): Announced {
    if a.port > 0 && Tokens(payload) != [] then NOTHING else a
  }

  /** A client line consumes a standing announcement: the row has the announced address, the command, and the argument
      with the carriage return that ends the line; a command alone has no argument. */
  lemma CommandConsumes(a: Announced, cmd: string, arg: string, rest: string)
    requires a.port > 0 && ' ' !in cmd && '\r' !in cmd && '\n' !in cmd && '\n' !in arg
    ensures Consumed(a, cmd + " " + arg + "\r" + "\n" + rest) == [Row(a.ip, a.port, cmd, arg + "\r")]
    ensures cmd != "" ==> Consumed(a, cmd + "\r" + "\n" + rest) == [Row(a.ip, a.port, cmd, "")]
    ensures AfterClient(a, cmd + " " + arg + "\r" + "\n" + rest) == NOTHING
  {
    var line, alone := cmd + " " + arg + "\r", cmd + "\r";
    LineConsumes(a, line, rest);
    LineConsumes(a, alone, rest);
    RowDescribes(a, line);
    RowDescribes(a, alone);
    assert line == cmd + " " + (arg + "\r") && line[|cmd|] == ' ';
    DescribedOnce(line, RowFor(a, line).kind, RowFor(a, line).filename, cmd, arg + "\r");
    assert cmd <= alone && ' ' !in alone;
    DescribedOnce(alone, RowFor(a, alone).kind, RowFor(a, alone).filename, cmd, "");
  }

  lemma LineConsumes(a: Announced, line: string, rest: string)
    requires a.port > 0 && line != "" && '\n' !in line
    ensures Consumed(a, line + "\n" + rest) == [RowFor(a, line)] && AfterClient(a, line + "\n" + rest) == NOTHING
  {
    FirstToken(line, rest);
    assert ([line] + Tokens(rest))[0] == line;
  }

  class FtpControl {
    var pasvPort: nat
    var serverIP: string

    /** The record is zeroed when the server's greeting creates it; a record created by a client payload is
        left unset by the source, so the server is taken to speak first. */
    constructor ()
      ensures Standing() == Announced("", 0)
    {
      pasvPort, serverIP := 0, "";
    }

    function Standing(): Announced
      reads this
    {
      Announced(serverIP, pasvPort)
    }

    /** ph_ftp_handle_payload_stc; `dest` is the address that the connection goes to. */
    method HandleServer(payload: string, dest: string) returns (ok: bool)
      modifies this
      ensures ok <==> AllScannable(Tokens(payload))
      ensures ok ==> AfterLines(old(Standing()), Tokens(payload), dest) == Some(Standing())
    {
      LinesIff(Standing(), Tokens(payload), dest);
      var rest := payload;
      while rest != ""
        invariant AfterLines(Standing(), Tokens(rest), dest) == AfterLines(old(Standing()), Tokens(payload), dest)
        decreases |rest|
      {
        var n := Cspn(rest, {'\n'});
        if n == 0 {
          rest := rest[1..];
          continue;
        }
        var line := rest[..n];
        rest := rest[n..];
        if "227" <= line {
          var a := ScanPasv(line);
          if a.None? {
            return false;
          }
          serverIP, pasvPort := a.value.ip, a.value.port;
        } else if "229" <= line {
          var a := Epsv(line, dest);
          if a.None? {
            return false;
          }
          serverIP, pasvPort := a.value.ip, a.value.port;
        }
      }
      return true;
    }

    method MakeRow(line: string) returns (row: Row)
      ensures row == RowFor(Standing(), line)
    {
      var space := StrStr(line, " ");
      var kind, filename := line[..Cspn(line, {'\r', '\n'})], "";
      if space.Some? {
        kind, filename := line[..Cspn(line, {' '})], line[space.value + 1..];
      }
      return Row(serverIP, pasvPort, kind, filename);
    }

    /** ph_ftp_handle_payload_cts. */
    method HandleClient(payload: string, table: AwaitedTable)
      modifies this, table
      ensures table.rows == old(table.rows) + Consumed(old(Standing()), payload)
      ensures Standing() == AfterClient(old(Standing()), payload)
    {
      var rest := payload;
      while rest != ""
        invariant table.rows + Consumed(Standing(), rest) == old(table.rows) + Consumed(old(Standing()), payload)
        invariant AfterClient(Standing(), rest) == AfterClient(old(Standing()), payload)
        decreases |rest|
      {
        var n := Cspn(rest, {'\n'});
        if n == 0 {
          rest := rest[1..];
          continue;
        }
        var line := rest[..n];
        if pasvPort > 0 {
          var row := MakeRow(line);
          table.Insert(row);
          serverIP, pasvPort := "", 0;
        }
        rest := rest[n..];
      }
    }
  }

  // ----- replies as servers print them -----

  /** The 227 reply of RFC 959, section 4.1.2, with any text before and after the parenthesis. */
  function PrintPasv(text: string, h1: nat, h2: nat, h3: nat, h4: nat, port: nat, after: string): string {
    PrintParts(text, h1, h2, h3, h4, port / 256, port % 256, after)
  }

  /** Six numbers in its place. */
  function PrintParts(text: string, h1: nat, h2: nat, h3: nat, h4: nat, p1: nat, p2: nat, after: string): string {
    "227" + text + "(" + Decimal(h1) + "," + Decimal(h2) + "," + Decimal(h3) + "," + Decimal(h4) + "," +
    Decimal(p1) + "," + Decimal(p2) + ")" + after
  }

  /** The 229 reply of RFC 2428, section 3. */
  function PrintEpsv(text: string, port: nat, after: string): string {
    "229" + text + "(|||" + Decimal(port) + "|)" + after
  }

  lemma DigitsHaveNo(n: nat, c: char)
    requires !IsDigit(c)
    ensures c !in Decimal(n)
  {
  }

  /** A piece that ends at a separator is cut off there. */
  lemma CutAt(piece: string, sep: char, tail: string)
    requires sep !in piece
    ensures Cut(piece + [sep] + tail, sep) == Some(Scanned(piece, tail))
    ensures UpTo(piece + [sep] + tail, sep) == piece
  {
    var s := piece + [sep] + tail;
    assert forall i | 0 <= i < |piece| :: s[i] == piece[i];
    CspnIs(s, {sep}, |piece|);
    assert s[..|piece|] == piece && s[|piece| + 1..] == tail;
  }

  lemma OctetReads(s: string, piece: string, tail: string, left: nat, ip: string, rest: string)
    requires left > 1 && ',' !in piece && s == piece + "," + tail
    requires Octets(tail, left - 1) == Some(Scanned(ip, rest))
    ensures Octets(s, left) == Some(Scanned(piece + "." + ip, rest))
  {
    CutAt(piece, ',', tail);
  }

  lemma LastOctetReads(s: string, d: string, tail: string, left: nat)
    requires left == 1 && ',' !in d && s == d + "," + tail
    ensures Octets(s, left) == Some(Scanned(d, tail))
  {
    CutAt(d, ',', tail);
    assert d + "" + "" == d;
  }

  /** `s0` is the whole address list, `s1` to `s3` are what is left of it after each comma. */
  lemma OctetsRead(a: string, b: string, c: string, d: string, s0: string, s1: string, s2: string, s3: string,
                   tail: string)
    requires ',' !in a && ',' !in b && ',' !in c && ',' !in d
    requires s0 == a + "," + s1 && s1 == b + "," + s2 && s2 == c + "," + s3 && s3 == d + "," + tail
    ensures Octets(s0, PARTS) == Some(Scanned(a + "." + (b + "." + (c + "." + d)), tail))
  {
    LastOctetReads(s3, d, tail, PARTS - 3);
    OctetReads(s2, c, s3, PARTS - 2, d, tail);
    OctetReads(s1, b, s2, PARTS - 1, c + "." + d, tail);
    OctetReads(s0, a, s1, PARTS, b + "." + (c + "." + d), tail);
  }

  lemma PortReads(p1: nat, p2: nat, after: string)
    requires p1 <= INT_MAX && p2 <= INT_MAX
    ensures Port(Decimal(p1) + "," + (Decimal(p2) + ")" + after)) == Some((p1 * 256 + p2) % 0x1_0000)
  {
    var hi, lo := Decimal(p1), Decimal(p2);
    DigitsHaveNo(p1, ',');
    DigitsHaveNo(p2, ')');
    CutAt(hi, ',', lo + ")" + after);
    CutAt(lo, ')', after);
    PortOfParts(p1, p2);
  }

  lemma PortOfParts(p1: nat, p2: nat)
    requires p1 <= INT_MAX && p2 <= INT_MAX
    ensures PortOf(Decimal(p1), Decimal(p2)) == (p1 * 256 + p2) % 0x1_0000
  {
    AtoiOfDigits(p1);
    AtoiOfDigits(p2);
  }

  lemma PortSplits(port: nat)
    requires port < 65536
    ensures port / 256 < 256 && (port / 256 * 256 + port % 256) % 0x1_0000 == port
  {
    assert port / 256 * 256 + port % 256 == port;
  }

  /** For every six numbers a printed line announces the dotted address and a port that is the last two numbers cut
      down to 16 bits, provided no other parenthesis opens earlier on the line. */
  lemma PartsRead(text: string, h1: nat, h2: nat, h3: nat, h4: nat, p1: nat, p2: nat, after: string)
    requires '(' !in text && p1 <= INT_MAX && p2 <= INT_MAX
    ensures Pasv(PrintParts(text, h1, h2, h3, h4, p1, p2, after)) ==
            Some(Announced(Decimal(h1) + "." + (Decimal(h2) + "." + (Decimal(h3) + "." + Decimal(h4))),
                           (p1 * 256 + p2) % 0x1_0000))
  {
    var ports := Decimal(p1) + "," + (Decimal(p2) + ")" + after);
    var s3 := Decimal(h4) + "," + ports;
    var s2 := Decimal(h3) + "," + s3;
    var s1 := Decimal(h2) + "," + s2;
    var s0 := Decimal(h1) + "," + s1;
    PasvShape(text, Decimal(h1), Decimal(h2), Decimal(h3), Decimal(h4), Decimal(p1), Decimal(p2), after);
    OpensAt("227" + text, s0);
    DigitsHaveNo(h1, ',');
    DigitsHaveNo(h2, ',');
    DigitsHaveNo(h3, ',');
    DigitsHaveNo(h4, ',');
    OctetsRead(Decimal(h1), Decimal(h2), Decimal(h3), Decimal(h4), s0, s1, s2, s3, ports);
    PortReads(p1, p2, after);
  }

  /** For every four numbers and every port a printed 227 reply announces the dotted address and the port,
      without loss, provided no other parenthesis opens earlier on the line. */
  lemma PasvReadsBack(text: string, h1: nat, h2: nat, h3: nat, h4: nat, port: nat, after: string)
    requires '(' !in text && port < 65536
    ensures Pasv(PrintPasv(text, h1, h2, h3, h4, port, after)) ==
            Some(Announced(Decimal(h1) + "." + (Decimal(h2) + "." + (Decimal(h3) + "." + Decimal(h4))), port))
  {
    PortSplits(port);
    PartsAreIt(text, h1, h2, h3, h4, port / 256, port % 256, port, after);
  }

  lemma PartsAreIt(text: string, h1: nat, h2: nat, h3: nat, h4: nat, p1: nat, p2: nat, port: nat, after: string)
    requires '(' !in text && p1 <= INT_MAX && p2 <= INT_MAX && (p1 * 256 + p2) % 0x1_0000 == port
    ensures Pasv(PrintParts(text, h1, h2, h3, h4, p1, p2, after)) ==
            Some(Announced(Decimal(h1) + "." + (Decimal(h2) + "." + (Decimal(h3) + "." + Decimal(h4))), port))
  {
    PartsRead(text, h1, h2, h3, h4, p1, p2, after);
  }

  lemma PasvShape(text: string, a: string, b: string, c: string, d: string, e: string, f: string, after: string)
    ensures "227" + text + "(" + a + "," + b + "," + c + "," + d + "," + e + "," + f + ")" + after ==
            "227" + text + "(" + (a + "," + (b + "," + (c + "," + (d + "," + (e + "," + (f + ")" + after))))))
  {
  }

  /** A printed 229 reply announces its number, cut down to 16 bits, as the port at the address the connection goes
      to. */
  lemma EpsvReadsBack(text: string, n: nat, after: string, dest: string)
    requires '(' !in text && n <= INT_MAX
    ensures Epsv(PrintEpsv(text, n, after), dest) == Some(Announced(dest, n % 0x1_0000))
  {
    EpsvShape(text, Decimal(n), after);
    OpensAt("229" + text, "|||" + (Decimal(n) + "|" + (")" + after)));
    EpsvPortReads(n, ")" + after, dest);
  }

  lemma Fits16(n: nat)
    requires n < 65536
    ensures n % 0x1_0000 == n
  {
  }

  lemma EpsvPortReads(n: nat, tail: string, dest: string)
    requires n <= INT_MAX
    ensures EpsvPort(Decimal(n) + "|" + tail, dest) == Some(Announced(dest, n % 0x1_0000))
  {
    DigitsHaveNo(n, '|');
    CutAt(Decimal(n), '|', tail);
    AtoiOfDigits(n);
  }

  lemma EpsvShape(text: string, digits: string, after: string)
    ensures var s := digits + "|" + (")" + after);
            var line := "229" + text + "(" + ("|||" + s);
            && "229" + text + "(|||" + digits + "|)" + after == line
            && line[|"229" + text| + 4..] == s
  {
  }

  lemma NotPasv(line: string)
    requires "229" <= line
    ensures !("227" <= line)
  {
    assert line[2] == "229"[2] != "227"[2];
  }

  /** Printed replies are recognised by their codes and leave the printed address standing. */
  lemma RepliesAnnounce(text: string, h1: nat, h2: nat, h3: nat, h4: nat, port: nat, after: string, dest: string)
    requires '(' !in text && port < 65536
    ensures var ip := Decimal(h1) + "." + (Decimal(h2) + "." + (Decimal(h3) + "." + Decimal(h4)));
            LineAnnounces(PrintPasv(text, h1, h2, h3, h4, port, after), dest) == Some(Some(Announced(ip, port)))
    ensures LineAnnounces(PrintEpsv(text, port, after), dest) == Some(Some(Announced(dest, port)))
  {
    PasvReadsBack(text, h1, h2, h3, h4, port, after);
    EpsvReadsBack(text, port, after, dest);
    Fits16(port);
    assert PrintPasv(text, h1, h2, h3, h4, port, after)[..3] == "227";
    assert PrintEpsv(text, port, after)[..3] == "229";
    NotPasv(PrintEpsv(text, port, after));
  }

  lemma {:induction false} AfterLinesSplit(a: Announced, x: seq<string>, y: seq<string>, dest: string)
    ensures var mid := AfterLines(a, x, dest);
            AfterLines(a, x + y, dest) == if mid.None? then None else AfterLines(mid.value, y, dest)
    decreases |x|
  {
    if x == [] {
      assert x + y == y;
    } else {
      assert (x + y)[0] == x[0] && (x + y)[1..] == x[1..] + y;
      var l := LineAnnounces(x[0], dest);
      if l.Some? {
        AfterLinesSplit(if l.value.Some? then l.value.value else a, x[1..], y, dest);
      }
    }
  }

  /** Lines with other codes. */
  predicate AllOther(lines: seq<string>) {
    forall l | l in lines :: !("227" <= l) && !("229" <= l)
  }

  lemma {:induction false} AfterOther(a: Announced, lines: seq<string>, dest: string)
    requires AllOther(lines)
    ensures AfterLines(a, lines, dest) == Some(a)
    decreases |lines|
  {
    if lines != [] {
      assert lines[0] in lines && forall l | l in lines[1..] :: l in lines;
      OtherCodes(lines[0], dest);
      AfterOther(a, lines[1..], dest);
    }
  }

  lemma {:induction false} NonEmptyAmong(lines: seq<string>)
    ensures forall l | l in NonEmpty(lines) :: l in lines
  {
    if lines != [] {
      NonEmptyAmong(lines[1..]);
    }
  }

  /** The lines of a payload around one of them. */
  lemma TokensAround(before: seq<string>, line: string, after: seq<string>)
    requires NewlineFree(before) && NewlineFree(after) && '\n' !in line && line != ""
    ensures Tokens(Unlines(before + ([line] + after))) == NonEmpty(before) + ([line] + NonEmpty(after))
  {
    var lines := before + ([line] + after);
    TokensOfLines(lines, "");
    assert Unlines(lines) + "" == Unlines(lines);
    NonEmptySplits(lines, [""]);
    NonEmptySplits(before, [line] + after);
    NonEmptyFirst(line, after);
    NonEmptyFirst("", []);
    assert [""] + [] == [""] && NonEmpty(lines) + [] == NonEmpty(lines);
  }

  lemma ReplyAmong(a: Announced, before: seq<string>, line: string, after: seq<string>, dest: string)
    requires NewlineFree(before) && NewlineFree(after) && '\n' !in line && line != ""
    requires AllScannable(before) && AllOther(after)
    requires LineAnnounces(line, dest).Some? && LineAnnounces(line, dest).value.Some?
    ensures AfterLines(a, Tokens(Unlines(before + ([line] + after))), dest) == LineAnnounces(line, dest).value
  {
    TokensAround(before, line, after);
    NonEmptyAmong(before);
    NonEmptyAmong(after);
    LinesIff(a, NonEmpty(before), dest);
    AfterLinesSplit(a, NonEmpty(before), [line] + NonEmpty(after), dest);
    var mid := AfterLines(a, NonEmpty(before), dest).value;
    AfterLinesSplit(mid, [line], NonEmpty(after), dest);
    AfterOne(mid, line, dest);
    AfterOther(LineAnnounces(line, dest).value.value, NonEmpty(after), dest);
  }

  /** A payload of any number of lines leaves exactly the address of a printed reply standing, whatever stood before and
      whatever lines come before it, as long as the lines after it have other codes. */
  lemma PayloadAnnounces(a: Announced, before: seq<string>, text: string, h1: nat, h2: nat, h3: nat, h4: nat,
                         port: nat, tail: string, after: seq<string>, dest: string)
    requires '(' !in text && '\n' !in text && '\n' !in tail && port < 65536
    requires NewlineFree(before) && NewlineFree(after) && AllScannable(before) && AllOther(after)
    ensures var ip := Decimal(h1) + "." + (Decimal(h2) + "." + (Decimal(h3) + "." + Decimal(h4)));
            var reply := PrintPasv(text, h1, h2, h3, h4, port, tail);
            AfterLines(a, Tokens(Unlines(before + ([reply] + after))), dest) == Some(Announced(ip, port))
    ensures AfterLines(a, Tokens(Unlines(before + ([PrintEpsv(text, port, tail)] + after))), dest) ==
            Some(Announced(dest, port))
  {
    RepliesAnnounce(text, h1, h2, h3, h4, port, tail, dest);
    RepliesAreLines(text, h1, h2, h3, h4, port, tail);
    ReplyAmong(a, before, PrintPasv(text, h1, h2, h3, h4, port, tail), after, dest);
    ReplyAmong(a, before, PrintEpsv(text, port, tail), after, dest);
  }

  lemma RepliesAreLines(text: string, h1: nat, h2: nat, h3: nat, h4: nat, port: nat, after: string)
    requires '\n' !in text && '\n' !in after
    ensures var pasv := PrintPasv(text, h1, h2, h3, h4, port, after); '\n' !in pasv && pasv != ""
    ensures '\n' !in PrintEpsv(text, port, after) && PrintEpsv(text, port, after) != ""
  {
    DigitsHaveNo(h1, '\n');
    DigitsHaveNo(h2, '\n');
    DigitsHaveNo(h3, '\n');
    DigitsHaveNo(h4, '\n');
    DigitsHaveNo(port / 256, '\n');
    DigitsHaveNo(port % 256, '\n');
    DigitsHaveNo(port, '\n');
  }

  // ----- control and data connections together -----

  /** A payload on control connection `c`, or the logging of a data connection. */
  datatype Event =
    | ServerSays(c: nat, dest: string, payload: string)
    | ClientSays(c: nat, payload: string)
    | DataLogged(dest: string, port: nat)

  datatype State = State(standing: map<nat, Announced>, rows: seq<Row>)

  function StandingOf(s: State, c: nat): Announced {
    if c in s.standing then s.standing[c] else NOTHING
  }

  /** One event; None when a server line cannot be scanned. */
  function Step(s: State, e: Event): Option<State> {
    match e
    case ServerSays(c, dest, payload) =>
      var a := AfterLines(StandingOf(s, c), Tokens(payload), dest);
      if a.None? then None else Some(s.(standing := s.standing[c := a.value]))
    case ClientSays(c, payload) =>
      var a := StandingOf(s, c);
      Some(State(s.standing[c := AfterClient(a, payload)], s.rows + Consumed(a, payload)))
    case DataLogged(dest, port) =>
      Some(s.(rows := Without(s.rows, dest, port)))
  }

  function Run(events: seq<Event>): Option<State> {
    if events == [] then Some(State(map[], []))
    else
      var s := Run(events[..|events| - 1]);
      if s.None? then None else Step(s.value, events[|events| - 1])
  }

  /** Every server line of the history can be scanned. */
  predicate AllReadable(events: seq<Event>) {
    events != [] ==>
      var e := events[|events| - 1];
      AllReadable(events[..|events| - 1]) && (e.ServerSays? ==> AllScannable(Tokens(e.payload)))
  }

  /** A history can be followed to its end exactly when every server line in it can be scanned. */
  lemma {:induction false} RunsIff(events: seq<Event>)
    ensures Run(events).Some? <==> AllReadable(events)
  {
    if events != [] {
      var before, e := events[..|events| - 1], events[|events| - 1];
      RunsIff(before);
      if Run(before).Some? && e.ServerSays? {
        LinesIff(StandingOf(Run(before).value, e.c), Tokens(e.payload), e.dest);
      }
    }
  }

  /** The last announcement in a server payload. */
  function LastAnnounced(lines: seq<string>, dest: string): Option<Announced>
    decreases |lines|
  {
    if lines == [] then None
    else
      var last := LineAnnounces(lines[|lines| - 1], dest);
      if last.Some? && last.value.Some? then last.value else LastAnnounced(lines[..|lines| - 1], dest)
  }

  /** The announcement on `c` that no client line has consumed, read from the history alone. */
  function Outstanding(events: seq<Event>, c: nat): Announced {
    if events == [] then Announced("", 0)
    else
      var before, e := events[..|events| - 1], events[|events| - 1];
      if e.ServerSays? && e.c == c && LastAnnounced(Tokens(e.payload), e.dest).Some?
      then LastAnnounced(Tokens(e.payload), e.dest).value
      else if e.ClientSays? && e.c == c && Outstanding(before, c).port > 0 && HasText(e.payload)
      then Announced("", 0)
      else Outstanding(before, c)
  }

  lemma AfterOne(a: Announced, line: string, dest: string)
    ensures var l := LineAnnounces(line, dest);
            AfterLines(a, [line], dest) == if l.None? then None else Some(if l.value.Some? then l.value.value else a)
  {
    assert [line][1..] == [];
  }

  type Saying = Option<Option<Announced>>

  /** What each line says. */
  function Says(lines: seq<string>, dest: string): (r: seq<Saying>)
    ensures |r| == |lines| && forall i | 0 <= i < |lines| :: r[i] == LineAnnounces(lines[i], dest)
  {
    seq(|lines|, i requires 0 <= i < |lines| => LineAnnounces(lines[i], dest))
  }

  function AfterSayings(a: Announced, says: seq<Saying>): Option<Announced>
    decreases |says|
  {
    if says == [] then Some(a)
    else if says[0].None? then None
    else AfterSayings(if says[0].value.Some? then says[0].value.value else a, says[1..])
  }

  function LastSaid(says: seq<Saying>): Option<Announced> {
    if says == [] then None
    else
      var last := says[|says| - 1];
      if last.Some? && last.value.Some? then last.value else LastSaid(says[..|says| - 1])
  }

  lemma {:induction false} AfterLinesSaid(a: Announced, lines: seq<string>, dest: string)
    ensures AfterLines(a, lines, dest) == AfterSayings(a, Says(lines, dest))
    decreases |lines|
  {
    if lines != [] {
      var l := Says(lines, dest)[0];
      assert Says(lines, dest)[1..] == Says(lines[1..], dest);
      if l.Some? {
        AfterLinesSaid(if l.value.Some? then l.value.value else a, lines[1..], dest);
      }
    }
  }

  lemma {:induction false} LastAnnouncedSaid(lines: seq<string>, dest: string)
    ensures LastAnnounced(lines, dest) == LastSaid(Says(lines, dest))
    decreases |lines|
  {
    if lines != [] {
      var front := lines[..|lines| - 1];
      assert Says(lines, dest)[..|lines| - 1] == Says(front, dest);
      LastAnnouncedSaid(front, dest);
    }
  }

  lemma {:induction false} SayingsAppend(a: Announced, says: seq<Saying>, last: Saying)
    ensures var b := AfterSayings(a, says);
            AfterSayings(a, says + [last]) ==
            if b.None? || last.None? then None else Some(if last.value.Some? then last.value.value else b.value)
    decreases |says|
  {
    if says == [] {
      assert says + [last] == [last] && [last][1..] == [];
    } else {
      assert (says + [last])[0] == says[0] && (says + [last])[1..] == says[1..] + [last];
      if says[0].Some? {
        SayingsAppend(if says[0].value.Some? then says[0].value.value else a, says[1..], last);
      }
    }
  }

  lemma {:induction false} LastSayingStands(a: Announced, says: seq<Saying>)
    requires AfterSayings(a, says).Some?
    ensures AfterSayings(a, says).value == if LastSaid(says).Some? then LastSaid(says).value else a
    decreases |says|
  {
    if says != [] {
      var front, last := says[..|says| - 1], says[|says| - 1];
      assert says == front + [last];
      SayingsAppend(a, front, last);
      LastSayingStands(a, front);
    }
  }

  /** A later announcement in a payload supersedes the earlier ones. */
  lemma LastOneStands(a: Announced, lines: seq<string>, dest: string)
    requires AfterLines(a, lines, dest).Some?
    ensures AfterLines(a, lines, dest).value ==
            if LastAnnounced(lines, dest).Some? then LastAnnounced(lines, dest).value else a
  {
    AfterLinesSaid(a, lines, dest);
    LastAnnouncedSaid(lines, dest);
    LastSayingStands(a, Says(lines, dest));
  }

  /** In every interleaving, what a control connection remembers is the latest announcement made on it since its
      client last spoke. */
  lemma {:induction false} StandingIsOutstanding(events: seq<Event>, c: nat)
    requires Run(events).Some?
    ensures StandingOf(Run(events).value, c) == Outstanding(events, c)
  {
    if events != [] {
      var before, e := events[..|events| - 1], events[|events| - 1];
      StandingIsOutstanding(before, c);
      if e.ServerSays? && e.c == c {
        LastOneStands(StandingOf(Run(before).value, c), Tokens(e.payload), e.dest);
      } else if e.ClientSays? {
        HasTextIff(e.payload);
      }
    }
  }

  /** Event `i` put a row for this address into the table. */
  predicate Awaits(events: seq<Event>, i: nat, ip: string, port: nat) {
    && i < |events| && events[i].ClientSays? && HasText(events[i].payload)
    && port > 0 && Outstanding(events[..i], events[i].c) == Announced(ip, port)
  }

  /** The number of events that put a row for this address into the table since a data connection to it was last
      logged. */
  function Awaited(events: seq<Event>, ip: string, port: nat): nat {
    if events == [] then 0
    else
      var before, e := events[..|events| - 1], events[|events| - 1];
      if e == DataLogged(ip, port) then 0
      else Awaited(before, ip, port) + if Awaits(events, |events| - 1, ip, port) then 1 else 0
  }

  lemma {:induction false} MatchingSplits(a: seq<Row>, b: seq<Row>, ip: string, port: nat)
    ensures Matching(a + b, ip, port) == Matching(a, ip, port) + Matching(b, ip, port)
  {
    if a == [] {
      assert a + b == b;
    } else {
      MatchingSplits(a[1..], b, ip, port);
      assert (a + b)[1..] == a[1..] + b;
    }
  }

  lemma {:induction false} MatchingWithout(rows: seq<Row>, dest: string, dport: nat, ip: string, port: nat)
    ensures Matching(Without(rows, dest, dport), ip, port) ==
            if dest == ip && dport == port then 0 else Matching(rows, ip, port)
  {
    if rows != [] {
      MatchingWithout(rows[1..], dest, dport, ip, port);
      var rest := Without(rows[1..], dest, dport);
      assert ([rows[0]] + rest)[1..] == rest && [] + rest == rest;
    }
  }

  lemma MatchingOne(a: Announced, line: string, ip: string, port: nat)
    ensures Matching([RowFor(a, line)], ip, port) == if a == Announced(ip, port) then 1 else 0
    ensures Matching([], ip, port) == 0
  {
    var row := RowFor(a, line);
    assert row.ip == a.ip && row.port == a.port;
    assert [row][1..] == [];
  }

  /** In every interleaving of control and data connections, the table holds exactly one row for each announcement
      consumed by a client line and not yet cleared by a logged data connection; so the fallback identifies a
      payload to (ip, port) as FTP data exactly when there is one. */
  lemma {:induction false} TableIsAwaited(events: seq<Event>, ip: string, port: nat)
    requires Run(events).Some?
    ensures Matching(Run(events).value.rows, ip, port) == Awaited(events, ip, port)
  {
    if events != [] {
      var before, e := events[..|events| - 1], events[|events| - 1];
      var s := Run(before).value;
      TableIsAwaited(before, ip, port);
      match e {
        case ServerSays(_, _, _) =>
        case ClientSays(c, payload) =>
          StandingIsOutstanding(before, c);
          var a := Outstanding(before, c);
          MatchingSplits(s.rows, Consumed(a, payload), ip, port);
          HasTextIff(payload);
          if Tokens(payload) != [] {
            MatchingOne(a, Tokens(payload)[0], ip, port);
          }
        case DataLogged(dest, dport) =>
          MatchingWithout(s.rows, dest, dport, ip, port);
      }
    }
  }

  /** The rows of one address, in order. */
  function RowsOf(rows: seq<Row>, ip: string, port: nat): seq<Row> {
    if rows == [] then []
    else (if rows[0].ip == ip && rows[0].port == port then [rows[0]] else []) + RowsOf(rows[1..], ip, port)
  }

  function FirstLine(payload: string): string
    requires HasText(payload)
  {
    HasTextIff(payload);
    Tokens(payload)[0]
  }

  /** The client lines that consumed an announcement of this address since a data connection to it was last logged. */
  function AwaitingLines(events: seq<Event>, ip: string, port: nat): seq<string> {
    if events == [] then []
    else
      var before, e := events[..|events| - 1], events[|events| - 1];
      if e == DataLogged(ip, port) then []
      else AwaitingLines(before, ip, port) +
           if Awaits(events, |events| - 1, ip, port) then [FirstLine(e.payload)] else []
  }

  lemma {:induction false} RowsOfSplits(a: seq<Row>, b: seq<Row>, ip: string, port: nat)
    ensures RowsOf(a + b, ip, port) == RowsOf(a, ip, port) + RowsOf(b, ip, port)
  {
    if a == [] {
      assert a + b == b;
    } else {
      RowsOfSplits(a[1..], b, ip, port);
      assert (a + b)[0] == a[0] && (a + b)[1..] == a[1..] + b;
      var head := if a[0].ip == ip && a[0].port == port then [a[0]] else [];
      assert head + (RowsOf(a[1..], ip, port) + RowsOf(b, ip, port)) ==
             head + RowsOf(a[1..], ip, port) + RowsOf(b, ip, port);
    }
  }

  lemma {:induction false} RowsOfWithout(rows: seq<Row>, dest: string, dport: nat, ip: string, port: nat)
    ensures RowsOf(Without(rows, dest, dport), ip, port) ==
            if dest == ip && dport == port then [] else RowsOf(rows, ip, port)
  {
    if rows != [] {
      RowsOfWithout(rows[1..], dest, dport, ip, port);
      var rest := Without(rows[1..], dest, dport);
      assert ([rows[0]] + rest)[1..] == rest && [] + rest == rest;
    }
  }

  lemma RowsOfOne(row: Row, ip: string, port: nat)
    ensures RowsOf([row], ip, port) == if row.ip == ip && row.port == port then [row] else []
    ensures RowsOf([], ip, port) == []
  {
    assert [row][1..] == [];
  }

  /** The rows say what the lines say. */
  predicate Tell(rows: seq<Row>, lines: seq<string>) {
    |rows| == |lines| && forall k | 0 <= k < |rows| :: Describes(rows[k].kind, rows[k].filename, lines[k])
  }

  lemma TellOneMore(rows: seq<Row>, lines: seq<string>, row: Row, line: string)
    requires Tell(rows, lines) && Describes(row.kind, row.filename, line)
    ensures Tell(rows + [row], lines + [line])
  {
  }

  lemma ConsumedRow(a: Announced, payload: string)
    ensures if a.port > 0 && HasText(payload)
            then |Consumed(a, payload)| == 1 &&
                 var row := Consumed(a, payload)[0];
                 row.ip == a.ip && row.port == a.port && Describes(row.kind, row.filename, FirstLine(payload))
            else Consumed(a, payload) == []
  {
    HasTextIff(payload);
    if HasText(payload) {
      RowDescribes(a, FirstLine(payload));
    }
  }

  /** In every interleaving the rows of an address are, in order, one for each client line that consumed an announcement
      of it since a data connection to it was last logged, with that line's command and argument. */
  lemma {:induction false} RowsTellLines(events: seq<Event>, ip: string, port: nat)
    requires Run(events).Some?
    ensures Tell(RowsOf(Run(events).value.rows, ip, port), AwaitingLines(events, ip, port))
  {
    if events != [] {
      var before, e := events[..|events| - 1], events[|events| - 1];
      var s := Run(before).value;
      RowsTellLines(before, ip, port);
      match e {
        case ServerSays(_, _, _) =>
        case ClientSays(c, payload) => ClientRows(events, s, ip, port);
        case DataLogged(dest, dport) =>
          RowsOfWithout(s.rows, dest, dport, ip, port);
      }
    }
  }

  lemma ClientRows(events: seq<Event>, s: State, ip: string, port: nat)
    requires events != [] && events[|events| - 1].ClientSays? && Run(events[..|events| - 1]) == Some(s)
    requires Tell(RowsOf(s.rows, ip, port), AwaitingLines(events[..|events| - 1], ip, port))
    ensures Run(events).Some? && Tell(RowsOf(Run(events).value.rows, ip, port), AwaitingLines(events, ip, port))
  {
    var before, e := events[..|events| - 1], events[|events| - 1];
    StandingIsOutstanding(before, e.c);
    var a := Outstanding(before, e.c);
    RowsOfSplits(s.rows, Consumed(a, e.payload), ip, port);
    ConsumedRow(a, e.payload);
    var lines := AwaitingLines(before, ip, port);
    if a.port > 0 && HasText(e.payload) {
      var row := Consumed(a, e.payload)[0];
      assert Consumed(a, e.payload) == [row];
      RowToo(RowsOf(s.rows, ip, port), lines, row, FirstLine(e.payload), ip, port);
      assert row.ip == ip && row.port == port <==> Awaits(events, |events| - 1, ip, port);
      assert lines + [] == lines;
    } else {
      assert RowsOf(s.rows, ip, port) + [] == RowsOf(s.rows, ip, port) && lines + [] == lines;
    }
  }

  lemma RowToo(rows: seq<Row>, lines: seq<string>, row: Row, line: string, ip: string, port: nat)
    requires Tell(rows, lines) && Describes(row.kind, row.filename, line)
    ensures Tell(rows + RowsOf([row], ip, port), if row.ip == ip && row.port == port then lines + [line] else lines)
  {
    RowsOfOne(row, ip, port);
    TellOneMore(rows, lines, row, line);
    assert rows + [] == rows;
  }

  ghost predicate NotLoggedSince(events: seq<Event>, i: nat, ip: string, port: nat) {
    forall j | i < j < |events| :: events[j] != DataLogged(ip, port)
  }

  /** Event `i` put a row for this address into the table and no data connection to it has been logged since. */
  ghost predicate StillAwaits(events: seq<Event>, i: nat, ip: string, port: nat) {
    Awaits(events, i, ip, port) && NotLoggedSince(events, i, ip, port)
  }

  lemma NotLoggedStep(events: seq<Event>, i: nat, ip: string, port: nat)
    requires events != [] && i < |events| - 1
    ensures var last := |events| - 1;
            NotLoggedSince(events, i, ip, port) <==>
            NotLoggedSince(events[..last], i, ip, port) && events[last] != DataLogged(ip, port)
  {
    var before := events[..|events| - 1];
    assert forall j | 0 <= j < |before| :: before[j] == events[j];
  }

  lemma StillAwaitsStep(events: seq<Event>, i: nat, ip: string, port: nat)
    requires events != [] && i < |events| - 1
    ensures var last := |events| - 1;
            StillAwaits(events, i, ip, port) <==>
            StillAwaits(events[..last], i, ip, port) && events[last] != DataLogged(ip, port)
  {
    var before := events[..|events| - 1];
    NotLoggedStep(events, i, ip, port);
    assert Awaits(events, i, ip, port) == Awaits(before, i, ip, port) by {
      assert before[..i] == events[..i] && before[i] == events[i];
    }
  }

  ghost predicate SomeAwaits(events: seq<Event>, ip: string, port: nat) {
    exists i: nat :: StillAwaits(events, i, ip, port)
  }

  lemma OneAwaits(events: seq<Event>, i: nat, ip: string, port: nat)
    requires StillAwaits(events, i, ip, port)
    ensures SomeAwaits(events, ip, port)
  {
  }

  lemma SomeAwaitsBefore(events: seq<Event>, ip: string, port: nat, i: nat)
    requires i + 1 < |events| && StillAwaits(events, i, ip, port)
    ensures SomeAwaits(events[..|events| - 1], ip, port) && events[|events| - 1] != DataLogged(ip, port)
  {
    StillAwaitsStep(events, i, ip, port);
    OneAwaits(events[..|events| - 1], i, ip, port);
  }

  lemma SomeAwaitsAfter(events: seq<Event>, ip: string, port: nat)
    requires events != [] && SomeAwaits(events[..|events| - 1], ip, port)
    requires events[|events| - 1] != DataLogged(ip, port)
    ensures SomeAwaits(events, ip, port)
  {
    var i: nat :| StillAwaits(events[..|events| - 1], i, ip, port);
    StillAwaitsStep(events, i, ip, port);
    OneAwaits(events, i, ip, port);
  }

  lemma {:induction false} AwaitedMeans(events: seq<Event>, ip: string, port: nat)
    ensures Awaited(events, ip, port) > 0 <==> SomeAwaits(events, ip, port)
  {
    if events != [] {
      var last := |events| - 1;
      AwaitedMeans(events[..last], ip, port);
      if Awaits(events, last, ip, port) {
        OneAwaits(events, last, ip, port);
      } else if SomeAwaits(events, ip, port) {
        var i: nat :| StillAwaits(events, i, ip, port);
        assert i != last;
        SomeAwaitsBefore(events, ip, port, i);
      } else if SomeAwaits(events[..last], ip, port) && events[last] != DataLogged(ip, port) {
        SomeAwaitsAfter(events, ip, port);
      }
    }
  }

  /** A data connection is recognised exactly when some announcement of its address was consumed and no data
      connection to that address was logged after. */
  lemma RecognisedIff(events: seq<Event>, ip: string, port: nat)
    requires Run(events).Some?
    ensures Matching(Run(events).value.rows, ip, port) > 0 <==> SomeAwaits(events, ip, port)
  {
    TableIsAwaited(events, ip, port);
    AwaitedMeans(events, ip, port);
  }

  /** Rows are looked up by the original destination but deleted by the actual one: logging a connection makes
      the next one to the same original address need a new announcement exactly when the two agree. */
  lemma LoggingClears(events: seq<Event>, origDest: string, dest: string, port: nat)
    requires Run(events).Some? && Matching(Run(events).value.rows, origDest, port) > 0
    ensures Run(events + [DataLogged(dest, port)]).Some?
    ensures Matching(Run(events + [DataLogged(dest, port)]).value.rows, origDest, port) == 0 <==> dest == origDest
  {
    var all := events + [DataLogged(dest, port)];
    assert all[..|all| - 1] == events;
    MatchingWithout(Run(events).value.rows, dest, port, origDest, port);
  }
  // ----- histories on the objects -----

  /** The records of the control connections and the shared table. */
  class Bookkeeping {
    var controls: map<nat, FtpControl>
    var table: AwaitedTable

    ghost predicate Valid()
      reads this
    {
      forall c, d | c in controls && d in controls && c != d :: controls[c] != controls[d]
    }

    ghost function Repr(): set<object>
      reads this
    {
      {this, table} + set c | c in controls :: controls[c]
    }

    /** The objects hold this state. */
    ghost predicate Shows(s: State)
      reads this, table, set c | c in controls :: controls[c]
    {
      && Valid() && table.rows == s.rows
      && forall c: nat :: StandingOf(s, c) == if c in controls then controls[c].Standing() else NOTHING
    }

    constructor ()
      ensures Shows(State(map[], [])) && fresh(Repr())
    {
      controls := map[];
      table := new AwaitedTable();
    }

    /** The record of a connection, made when it is first heard of. */
    method Control(c: nat) returns (control: FtpControl)
      requires Valid()
      modifies this`controls
      ensures Valid() && c in controls && controls[c] == control
      ensures || controls == old(controls)
              || (c !in old(controls) && fresh(control) && controls == old(controls)[c := control])
      ensures c !in old(controls) ==> control.Standing() == NOTHING
    {
      if c in controls {
        return controls[c];
      }
      control := new FtpControl();
      controls := controls[c := control];
    }

    method OnServer(c: nat, dest: string, payload: string, ghost s: State) returns (ok: bool)
      requires Shows(s)
      modifies Repr()
      ensures table == old(table) && fresh(Repr() - old(Repr()))
      ensures ok <==> Step(s, ServerSays(c, dest, payload)).Some?
      ensures ok ==> Shows(Step(s, ServerSays(c, dest, payload)).value)
    {
      LinesIff(StandingOf(s, c), Tokens(payload), dest);
      var control := Control(c);
      ok := control.HandleServer(payload, dest);
    }

    method OnClient(c: nat, payload: string, ghost s: State)
      requires Shows(s)
      modifies Repr()
      ensures table == old(table) && fresh(Repr() - old(Repr()))
      ensures Shows(Step(s, ClientSays(c, payload)).value)
    {
      var control := Control(c);
      control.HandleClient(payload, table);
    }

    method Perform(e: Event, ghost s: State) returns (ok: bool)
      requires Shows(s)
      modifies Repr()
      ensures table == old(table) && fresh(Repr() - old(Repr()))
      ensures ok <==> Step(s, e).Some?
      ensures ok ==> Shows(Step(s, e).value)
    {
      match e {
        case ServerSays(c, dest, payload) => ok := OnServer(c, dest, payload, s);
        case ClientSays(c, payload) =>
          OnClient(c, payload, s);
          ok := true;
        case DataLogged(dest, port) =>
          table.Delete(dest, port);
          ok := true;
      }
    }
  }

  /** Whether a data connection to (ip, port) is recognised after a history of control and data connections: exactly
      when some announcement of its address was consumed and no data connection to that address was logged after;
      None exactly when some server line of the history cannot be scanned. The table's rows for the address have the
      commands and arguments of the lines that consumed those announcements. */
  method Recognise(events: seq<Event>, ip: string, port: nat) returns (r: Option<bool>, rows: seq<Row>)
    ensures r.Some? <==> AllReadable(events)
    ensures r.Some? ==> (r.value <==> SomeAwaits(events, ip, port))
    ensures r.Some? ==> Tell(RowsOf(rows, ip, port), AwaitingLines(events, ip, port))
  {
    var books := new Bookkeeping();
    RunsIff(events);
    assert events[..0] == [];
    for i := 0 to |events|
      invariant fresh(books) && fresh(books.Repr())
      invariant Run(events[..i]).Some? && books.Shows(Run(events[..i]).value)
    {
      assert events[..i + 1][..i] == events[..i];
      var ok := books.Perform(events[i], Run(events[..i]).value);
      if !ok {
        StuckRun(events, i + 1);
        return None, books.table.rows;
      }
    }
    assert events[..|events|] == events;
    RecognisedIff(events, ip, port);
    RowsTellLines(events, ip, port);
    var known := books.table.IsAwaited(ip, port);
    return Some(known), books.table.rows;
  }

  /** A history that cannot be followed so far cannot be followed to its end. */
  lemma {:induction false} StuckRun(events: seq<Event>, i: nat)
    requires i <= |events| && Run(events[..i]).None?
    ensures Run(events).None?
    decreases |events|
  {
    if i == |events| {
      assert events[..i] == events;
    } else {
      assert events[..|events| - 1][..i] == events[..i];
      StuckRun(events[..|events| - 1], i);
    }
  }
}
