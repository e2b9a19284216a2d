/** The collectors that reassemble an HTTP body, one per direction, from the payloads of successive
    reads: 32-bit counters with an all-ones sentinel, refining one abstract machine. */
module HttpCollector {
  import opened CText
  import opened HttpFields

  type u32 = x: int | 0 <= x < 0x1_0000_0000

  /** What -1 becomes when stored in 32 unsigned bits: no Content-Length was given. */
  const UNKNOWN_LENGTH: u32 := 0xffff_ffff

  type Files = map<string, string>

  /** append_binarydata_to_file. */
  function Append(files: Files, file: string, data: string): Files {
    files[file := (if file in files then files[file] else "") + data]
  }

  // ----- the abstract machine -----

  /** Idle keeps the count of the message before, None when that had no body to count. */
  datatype Phase = Idle(count: Option<nat>) | Body(file: string, want: Option<nat>, got: nat)

  datatype Machine = Machine(phase: Phase, files: Files)

  datatype Expect = NoBody | Exactly(n: nat) | ToTheEnd

  const BLANK_LINE := "\r\n\r\n"

  function Expected(contentLength: int): Expect {
    if contentLength > 0 then Exactly(contentLength) else if contentLength < 0 then ToTheEnd else NoBody
  }

  /** The Content-Length, -1 when there is none. */
  function ContentLength(header: string): (n: int)
    ensures n <= INT_MAX
  {
    var v := Field(header, CONTENT_LENGTH);
    if "N/A" <= v then -1 else Atoi(v)
  }

  /** What a header announces about the body that follows it. */
  function Announced(header: string): Expect {
    Expected(ContentLength(header))
  }

  /** The first part of a body after a complete header. A message whose end is unknown opens the collector; the
      client side does so only when the first payload already holds some of the body. */
  function Start(m: Machine, announced: Expect, body: string, file: string, client: bool): Machine {
    match announced
    case NoBody => Machine(Idle(None), m.files)
    case Exactly(n) =>
      Machine(if |body| < n then Body(file, Some(n), |body|) else Idle(Some(|body|)), Append(m.files, file, body))
    case ToTheEnd =>
      if client && body == "" then Machine(Idle(None), m.files)
      else Machine(Body(file, None, |body|), Append(m.files, file, body))
  }

  /** The first payload of a message; the end of its header is looked for in the C string. */
  function Begin(m: Machine, payload: string, file: string, client: bool): Machine {
    match StrStr(CString(payload), BLANK_LINE)
    case None => m
    case Some(i) => Start(m, Announced(payload[..i + 4]), payload[i + 4..], file, client)
  }

  /** A later payload: collected unless it overshoots the announced length, in which case all of it is
      dropped. */
  function Feed(m: Machine, payload: string): Machine
    requires m.phase.Body?
  {
    var b := m.phase;
    var total := b.got + |payload|;
    if b.want.Some? && total > b.want.value then m
    else Machine(if b.want == Some(total) then Idle(Some(total)) else b.(got := total),
                 Append(m.files, b.file, payload))
  }

  datatype Input = Input(payload: string, file: string)

  function Step(m: Machine, input: Input, client: bool): Machine {
    if m.phase.Idle? then Begin(m, input.payload, input.file, client) else Feed(m, input.payload)
  }

  function Run(m: Machine, inputs: seq<Input>, client: bool): Machine
    decreases |inputs|
  {
    if inputs == [] then m else Run(Step(m, inputs[0], client), inputs[1..], client)
  }

  /** A body of unknown length stays below the sentinel when this payload is added to it. */
  predicate InRange(m: Machine, payload: string) {
    m.phase.Body? && m.phase.want.None? ==> m.phase.got + |payload| < UNKNOWN_LENGTH
  }

  /** The same for every payload of a run. */
  predicate AllInRange(m: Machine, inputs: seq<Input>, client: bool)
    decreases |inputs|
  {
    inputs != [] ==> InRange(m, inputs[0].payload) && AllInRange(Step(m, inputs[0], client), inputs[1..], client)
  }

  /** What the server side's handler leaves of a payload for the client: only between messages and with the
      destination offline is it rewritten. */
  function ServerPayload(destOffline: bool, collecting: bool, data: string, serverType: string, stray: char): string {
    if destOffline && !collecting then Manipulated(data, serverType, stray) else data
  }

  lemma OfflinePayload(destOffline: bool, collecting: bool, data: string, serverType: string, stray: char)
    ensures var out := ServerPayload(destOffline, collecting, data, serverType, stray);
            if destOffline && !collecting && StrStr(CString(data), "Server: ").Some?
            then ServerReplaced(CString(data), serverType, if stray != '\0' && '\0' !in data then [stray] else "", out)
            else out == data
  {
  }

  // ----- the collector of one direction -----

  datatype Status = Handled | NoHeaderEnd

  function Count(done: Option<u32>): Option<nat> {
    if done.Some? then Some(done.value) else None
  }

  class Collector {
    var multipleChunks: bool
    var location: string
    var expected: u32
    var done: Option<u32>  // a new record leaves it unset
    var files: Files

    constructor ()
      ensures Valid() && View() == Machine(Idle(None), map[])
    {
      multipleChunks, location, expected, done, files := false, "", 0, None, map[];
    }

    ghost predicate Valid()
      reads this
    {
      multipleChunks ==>
        done.Some? && location in files && (expected == UNKNOWN_LENGTH || done.value < expected <= INT_MAX)
    }

    ghost function View(): Machine
      reads this
      requires Valid()
    {
      Machine(if !multipleChunks then Idle(Count(done))
              else Body(location, if expected == UNKNOWN_LENGTH then None else Some(expected), done.value),
              files)
    }

    method AppendToFile(data: string)
      modifies this`files
      ensures files == Append(old(files), location, data)
    {
      files := files[location := (if location in files then files[location] else "") + data];
    }

    /** The server side of the first payload. */
    method BeginServer(payload: string, stamp: string)
      requires Valid() && !multipleChunks && |payload| < 2 * MAXLINE
      modifies this
      ensures Valid() && View() == Begin(old(View()), payload, "http/rcvd/" + stamp, false)
    {
      var headerEnd := StrStr(CString(payload), BLANK_LINE);
      if headerEnd.Some? {
        var headerLength := headerEnd.value + 4;
        StartServer(ContentLength(payload[..headerLength]), payload[headerLength..], "http/rcvd/" + stamp);
      }
    }

    method StartServer(contentLength: int, body: string, file: string)
      requires Valid() && !multipleChunks && |body| < 2 * MAXLINE && contentLength <= INT_MAX
      modifies this
      ensures Valid() && View() == Start(old(View()), Expected(contentLength), body, file, false)
    {
      if contentLength > 0 {
        expected, done, location := contentLength, Some(|body|), file;
        AppendToFile(body);
        if |body| < contentLength {
          multipleChunks := true;
        }
      } else if contentLength < 0 {
        expected, done, location := UNKNOWN_LENGTH, Some(|body|), file;
        AppendToFile(body);
        multipleChunks := true;
      } else {
        done := None;
      }
    }

    /** The client side of the first payload; without the end of a header the source computes with a null
        pointer. */
    method BeginClient(payload: string, stamp: string) returns (status: Status)
      requires Valid() && !multipleChunks && |payload| < 2 * MAXLINE
      modifies this
      ensures Valid() && View() == Begin(old(View()), payload, "http/sent/" + stamp, true)
      ensures status == NoHeaderEnd <==> StrStr(CString(payload), BLANK_LINE).None?
    {
      var headerEnd := StrStr(CString(payload), BLANK_LINE);
      if headerEnd.None? {
        return NoHeaderEnd;
      }
      var headerLength := headerEnd.value + 4;
      StartClient(ContentLength(payload[..headerLength]), payload[headerLength..], "http/sent/" + stamp);
      return Handled;
    }

    method StartClient(contentLength: int, body: string, file: string)
      requires Valid() && !multipleChunks && |body| < 2 * MAXLINE && contentLength <= INT_MAX
      modifies this
      ensures Valid() && View() == Start(old(View()), Expected(contentLength), body, file, true)
    {
      if contentLength > 0 {
        expected, done, location := contentLength, Some(|body|), file;
        AppendToFile(body);
        if |body| < contentLength {
          multipleChunks := true;
        }
      } else if contentLength < 0 && |body| > 0 {
        expected, done, location := UNKNOWN_LENGTH, Some(|body|), file;
        AppendToFile(body);
        multipleChunks := true;
      } else {
        done := None;
      }
    }

    /** The server side of a later payload. */
    method ContinueServer(payload: string)
      requires Valid() && multipleChunks
      modifies this
      ensures Valid() && done.Some?
      ensures InRange(old(View()), payload) ==> View() == Feed(old(View()), payload)
      ensures old(expected) != UNKNOWN_LENGTH && !multipleChunks ==> done == Some(expected)
      ensures old(expected) == UNKNOWN_LENGTH ==>
                && files == Append(old(files), old(location), payload)
                && (multipleChunks <==> old(done).value + |payload| != UNKNOWN_LENGTH)
                && done.value == (old(done).value + |payload|) % 0x1_0000_0000
      ensures location == old(location) && expected == old(expected)
    {
      var total := done.value + |payload|;
      if total < expected {
        AppendToFile(payload);
        done := Some(total % 0x1_0000_0000);
      } else if total == expected && expected != 0 {
        AppendToFile(payload);
        done := Some(total % 0x1_0000_0000);
        multipleChunks := false;
      } else if expected == UNKNOWN_LENGTH {
        AppendToFile(payload);
        done := Some(total % 0x1_0000_0000);
      }
    }

    /** The client side of a later payload; in the third branch the counter is left alone. */
    method ContinueClient(payload: string)
      requires Valid() && multipleChunks
      modifies this
      ensures Valid() && done.Some?
      ensures InRange(old(View()), payload) ==> View() == Feed(old(View()), payload)
      ensures old(expected) != UNKNOWN_LENGTH && !multipleChunks ==> done == Some(expected)
      ensures old(expected) == UNKNOWN_LENGTH ==>
                && files == Append(old(files), old(location), payload)
                && (multipleChunks <==> old(done).value + |payload| != UNKNOWN_LENGTH)
                && done.value ==
                   if old(done).value + |payload| > UNKNOWN_LENGTH then old(done).value
                   else old(done).value + |payload|
      ensures location == old(location) && expected == old(expected)
    {
      var total := done.value + |payload|;
      if total < expected {
        AppendToFile(payload);
        done := Some(total % 0x1_0000_0000);
      } else if total == expected && expected != 0 {
        AppendToFile(payload);
        done := Some(total % 0x1_0000_0000);
        multipleChunks := false;
      } else if expected == UNKNOWN_LENGTH {
        AppendToFile(payload);
      }
    }

    /** One server payload as it stands in the buffer. */
    method TakeServer(payload: string, stamp: string)
      requires Valid() && |payload| < 2 * MAXLINE
      modifies this
      ensures Valid()
      ensures InRange(old(View()), payload) ==>
                View() == Step(old(View()), Input(payload, "http/rcvd/" + stamp), false)
    {
      if !multipleChunks {
        BeginServer(payload, stamp);
      } else {
        ContinueServer(payload);
      }
    }

    /** The rewriting of a server payload in its buffer: between messages and with the destination offline; otherwise
        the buffer is not touched. */
    method EditServer(buf: array<char>, len: nat, destOffline: bool, serverType: string, stray: char)
        returns (len': nat)
      requires buf.Length == 2 * MAXLINE && len < MAXLINE && Holds(buf[..], buf[..len])
      requires |serverType| < 100 && '\0' !in serverType
      modifies buf
      ensures len' < 2 * MAXLINE
      ensures var data := old(buf[..len]);
              if destOffline && !multipleChunks && StrStr(CString(data), "Server: ").Some?
              then ServerReplaced(CString(data), serverType, if stray != '\0' && '\0' !in data then [stray] else "",
                                  buf[..len'])
              else buf[..] == old(buf[..]) && len' == len
    {
      len' := len;
      if !multipleChunks && destOffline {
        ghost var data := buf[..len];
        len' := Manipulate(buf, len, serverType, stray, data);
        if StrStr(CString(data), "Server: ").Some? {
          ReplacedIsManipulated(data, serverType, stray, buf[..len']);
        }
      }
    }

    /** ph_http_handle_payload_stc. */
    method HandleServer(buf: array<char>, len: nat, destOffline: bool, serverType: string, stray: char,
                        stamp: string)
        returns (len': nat)
      requires Valid() && buf.Length == 20000 && len < 10000 && Holds(buf[..], buf[..len])
      requires |serverType| < 100 && '\0' !in serverType
      modifies this, buf
      ensures Valid() && len' < 2 * MAXLINE
      ensures var data := old(buf[..len]);
              if destOffline && !old(multipleChunks) && StrStr(CString(data), "Server: ").Some?
              then ServerReplaced(CString(data), serverType, if stray != '\0' && '\0' !in data then [stray] else "",
                                  buf[..len'])
              else buf[..] == old(buf[..]) && len' == len
      ensures InRange(old(View()), buf[..len']) ==>
                View() == Step(old(View()), Input(buf[..len'], "http/rcvd/" + stamp), false)
    {
      len' := EditServer(buf, len, destOffline, serverType, stray);
      TakeServer(buf[..len'], stamp);
    }

    /** ph_http_handle_payload_cts; the payload is only read. */
    method HandleClient(payload: string, stamp: string) returns (status: Status)
      requires Valid() && |payload| < 10000
      modifies this
      ensures Valid()
      ensures status == NoHeaderEnd <==> !old(multipleChunks) && StrStr(CString(payload), BLANK_LINE).None?
      ensures InRange(old(View()), payload) ==>
                View() == Step(old(View()), Input(payload, "http/sent/" + stamp), true)
    {
      if !multipleChunks {
        status := BeginClient(payload, stamp);
      } else {
        ContinueClient(payload);
        status := Handled;
      }
    }
  }

  // ----- runs of the abstract machine -----

  /** Feeds segments one after the other until the body is complete. */
  function FeedAll(m: Machine, segs: seq<string>): Machine
    decreases |segs|
  {
    if segs == [] || m.phase.Idle? then m else FeedAll(Feed(m, segs[0]), segs[1..])
  }

  function Total(segs: seq<string>): nat {
    |Concat(segs)|
  }

  predicate AllNonEmpty(segs: seq<string>) {
    forall s | s in segs :: s != ""
  }

  lemma NothingLeft(segs: seq<string>)
    requires AllNonEmpty(segs)
    ensures Total(segs) == 0 <==> segs == []
  {
    if segs != [] {
      assert segs[0] in segs;
    }
  }

  lemma LaterNonEmpty(segs: seq<string>)
    requires AllNonEmpty(segs) && segs != []
    ensures AllNonEmpty(segs[1..]) && segs[0] != ""
  {
    assert segs[0] in segs && forall s | s in segs[1..] :: s in segs;
  }

  /** Collecting `n` bytes of which `got` have arrived. */
  predicate Collecting(m: Machine, file: string, n: nat, got: nat) {
    m.phase == Body(file, Some(n), got) && got < n && file in m.files
  }

  lemma AppendTwice(files: Files, file: string, a: string, b: string)
    ensures Append(Append(files, file, a), file, b) == Append(files, file, a + b)
  {
    var before := if file in files then files[file] else "";
    assert before + a + b == before + (a + b);
  }

  lemma AppendNothing(files: Files, file: string)
    requires file in files
    ensures Append(files, file, "") == files
  {
    assert files[file] + "" == files[file];
  }

  /** While no more than the announced length arrives, everything arrives in order; at the announced length
      the collector is idle again. */
  lemma {:induction false} FeedWithinLength(m: Machine, file: string, n: nat, got: nat, segs: seq<string>)
    requires Collecting(m, file, n, got) && AllNonEmpty(segs) && got + Total(segs) <= n
    ensures FeedAll(m, segs) ==
            Machine(if got + Total(segs) == n then Idle(Some(n)) else Body(file, Some(n), got + Total(segs)),
                    Append(m.files, file, Concat(segs)))
    decreases |segs|
  {
    if segs == [] {
      AppendNothing(m.files, file);
    } else {
      var next := Feed(m, segs[0]);
      AppendTwice(m.files, file, segs[0], Concat(segs[1..]));
      LaterNonEmpty(segs);
      NothingLeft(segs[1..]);
      if got + |segs[0]| == n {
        AppendNothing(next.files, file);
      } else {
        FeedWithinLength(next, file, n, got + |segs[0]|, segs[1..]);
      }
    }
  }

  /** The file never gains more than what is missing. */
  lemma {:induction false} GainIsBounded(m: Machine, file: string, n: nat, got: nat, segs: seq<string>)
    requires Collecting(m, file, n, got)
    ensures var r := FeedAll(m, segs).files;
            file in r && |r[file]| <= |m.files[file]| + n - got
    decreases |segs|
  {
    if segs != [] {
      var next := Feed(m, segs[0]);
      if next.phase.Body? {
        GainIsBounded(next, file, n, next.phase.got, segs[1..]);
      }
    }
  }

  /** The file receives all the bytes offered exactly when they do not exceed the announced length: a segment
      that overshoots is dropped whole, with the body bytes it holds. */
  lemma LosslessIff(m: Machine, file: string, n: nat, got: nat, segs: seq<string>)
    requires Collecting(m, file, n, got) && AllNonEmpty(segs)
    ensures FeedAll(m, segs).files == Append(m.files, file, Concat(segs)) <==> got + Total(segs) <= n
  {
    if got + Total(segs) <= n {
      FeedWithinLength(m, file, n, got, segs);
    } else {
      GainIsBounded(m, file, n, got, segs);
      assert |Append(m.files, file, Concat(segs))[file]| == |m.files[file]| + Total(segs);
    }
  }

  /** Without an announced length everything is collected in order. */
  lemma {:induction false} FeedToTheEnd(m: Machine, file: string, got: nat, segs: seq<string>)
    requires m.phase == Body(file, None, got) && file in m.files
    ensures FeedAll(m, segs) == Machine(Body(file, None, got + Total(segs)), Append(m.files, file, Concat(segs)))
    decreases |segs|
  {
    if segs == [] {
      AppendNothing(m.files, file);
    } else {
      AppendTwice(m.files, file, segs[0], Concat(segs[1..]));
      FeedToTheEnd(Feed(m, segs[0]), file, got + |segs[0]|, segs[1..]);
    }
  }

  // ----- a body without a length in 32 bits -----

  /** The counter after one more payload: the server's wraps, the client's is left alone once it would pass the
      sentinel. */
  function Counted(done: u32, len: nat, client: bool): u32 {
    if client && done + len > UNKNOWN_LENGTH then done else (done + len) % 0x1_0000_0000
  }

  /** Some payload brings the counter to the sentinel, which the collector takes for the end of the body. */
  predicate Hits(done: u32, segs: seq<string>, client: bool)
    decreases |segs|
  {
    segs != [] &&
    (done + |segs[0]| == 0xffff_ffff || Hits(Counted(done, |segs[0]|, client), segs[1..], client))
  }

  /** The number of payloads collected until then. */
  function Taken(done: u32, segs: seq<string>, client: bool): (n: nat)
    ensures n <= |segs|
    ensures !Hits(done, segs, client) ==> n == |segs|
    decreases |segs|
  {
    if segs == [] then 0
    else if done + |segs[0]| == UNKNOWN_LENGTH then 1
    else 1 + Taken(Counted(done, |segs[0]|, client), segs[1..], client)
  }

  datatype Counting = Counting(files: Files, done: u32, open: bool)

  function CountOne(c: Counting, file: string, seg: string, client: bool): Counting {
    Counting(Append(c.files, file, seg), Counted(c.done, |seg|, client), c.done + |seg| != UNKNOWN_LENGTH)
  }

  function CountAll(c: Counting, file: string, segs: seq<string>, client: bool): Counting
    decreases |segs|
  {
    if segs == [] || !c.open then c else CountAll(CountOne(c, file, segs[0], client), file, segs[1..], client)
  }

  /** Every payload up to the sentinel is kept, in order; the collector stays open exactly when no payload hits it. */
  lemma {:induction false} CountedIs(files: Files, file: string, done: u32, segs: seq<string>, client: bool)
    requires file in files
    ensures var r := CountAll(Counting(files, done, true), file, segs, client);
            && r.files == Append(files, file, Concat(segs[..Taken(done, segs, client)]))
            && (r.open <==> !Hits(done, segs, client))
    decreases |segs|
  {
    if segs == [] {
      AppendNothing(files, file);
    } else {
      var seg, rest := segs[0], segs[1..];
      var next := CountOne(Counting(files, done, true), file, seg, client);
      var n := Taken(done, segs, client);
      assert segs[..n][0] == seg && segs[..n][1..] == rest[..n - 1];
      AppendTwice(files, file, seg, Concat(rest[..n - 1]));
      if next.open {
        CountedIs(next.files, file, next.done, rest, client);
      } else {
        assert rest[..0] == [] && seg + "" == seg;
      }
    }
  }

  /** A run of later payloads on the server side, with 32-bit counters: the abstract machine's result, for a
      body of unknown length as long as the count stays below the sentinel; beyond, all bytes up to the payload that
      hits the sentinel. */
  method ReceiveServer(c: Collector, segs: seq<string>)
    requires c.Valid() && c.multipleChunks
    modifies c
    ensures c.Valid() && c.expected == old(c.expected) && c.location == old(c.location)
    ensures old(c.expected) != UNKNOWN_LENGTH || old(c.done).value + Total(segs) < UNKNOWN_LENGTH ==>
              c.View() == FeedAll(old(c.View()), segs)
    ensures old(c.expected) == UNKNOWN_LENGTH ==>
              var taken := Taken(old(c.done).value, segs, false);
              && c.files == Append(old(c.files), old(c.location), Concat(segs[..taken]))
              && (c.multipleChunks <==> !Hits(old(c.done).value, segs, false))
  {
    ghost var open := c.expected == UNKNOWN_LENGTH;
    ghost var fits := !open || c.done.value + Total(segs) < UNKNOWN_LENGTH;
    ghost var was := Counting(c.files, c.done.value, true);
    var rest := segs;
    while rest != [] && c.multipleChunks
      invariant c.Valid() && c.done.Some? && c.expected == old(c.expected) && c.location == old(c.location)
      invariant fits ==> FeedAll(c.View(), rest) == FeedAll(old(c.View()), segs)
      invariant fits && open && c.multipleChunks ==> c.done.value + Total(rest) < UNKNOWN_LENGTH
      invariant open ==>
                  CountAll(Counting(c.files, c.done.value, c.multipleChunks), c.location, rest, false) ==
                  CountAll(was, c.location, segs, false)
      decreases |rest|
    {
      c.ContinueServer(rest[0]);
      rest := rest[1..];
    }
    if open {
      CountedIs(was.files, c.location, was.done, segs, false);
    }
  }

  /** The same on the client side. */
  method ReceiveClient(c: Collector, segs: seq<string>)
    requires c.Valid() && c.multipleChunks
    modifies c
    ensures c.Valid() && c.expected == old(c.expected) && c.location == old(c.location)
    ensures old(c.expected) != UNKNOWN_LENGTH || old(c.done).value + Total(segs) < UNKNOWN_LENGTH ==>
              c.View() == FeedAll(old(c.View()), segs)
    ensures old(c.expected) == UNKNOWN_LENGTH ==>
              var taken := Taken(old(c.done).value, segs, true);
              && c.files == Append(old(c.files), old(c.location), Concat(segs[..taken]))
              && (c.multipleChunks <==> !Hits(old(c.done).value, segs, true))
  {
    ghost var open := c.expected == UNKNOWN_LENGTH;
    ghost var fits := !open || c.done.value + Total(segs) < UNKNOWN_LENGTH;
    ghost var was := Counting(c.files, c.done.value, true);
    var rest := segs;
    while rest != [] && c.multipleChunks
      invariant c.Valid() && c.done.Some? && c.expected == old(c.expected) && c.location == old(c.location)
      invariant fits ==> FeedAll(c.View(), rest) == FeedAll(old(c.View()), segs)
      invariant fits && open && c.multipleChunks ==> c.done.value + Total(rest) < UNKNOWN_LENGTH
      invariant open ==>
                  CountAll(Counting(c.files, c.done.value, c.multipleChunks), c.location, rest, true) ==
                  CountAll(was, c.location, segs, true)
      decreases |rest|
    {
      c.ContinueClient(rest[0]);
      rest := rest[1..];
    }
    if open {
      CountedIs(was.files, c.location, was.done, segs, true);
    }
  }

  // ----- whole messages -----

  /** A message as it arrives: the header, the part of the body in the same payload, and the later payloads
      with the file names that their arrival times would have given. */
  datatype Message = Message(header: string, first: string, rest: seq<Input>, file: string)

  function Payloads(inputs: seq<Input>): seq<string> {
    seq(|inputs|, i requires 0 <= i < |inputs| => inputs[i].payload)
  }

  function BodyOf(msg: Message): string {
    msg.first + Concat(Payloads(msg.rest))
  }

  function InputsOf(msg: Message): seq<Input> {
    [Input(msg.header + msg.first, msg.file)] + msg.rest
  }

  predicate HeaderEnds(header: string) {
    '\0' !in header && StrStr(header, BLANK_LINE) == Some(|header| - 4)
  }

  /** A message with a complete header: the body that arrives, in payloads of any size but zero, is the one announced.
      A message without a body is one payload: the header announces none (what follows it in the payload is ignored),
      or on the client side announces nothing and nothing follows it. */
  predicate WellFormed(msg: Message, client: bool) {
    && HeaderEnds(msg.header)
    && AllNonEmpty(Payloads(msg.rest))
    && match Announced(msg.header)
       case Exactly(n) => n == |BodyOf(msg)|
       case NoBody => msg.rest == []
       case ToTheEnd => client && msg.first == "" && msg.rest == []
  }

  predicate HasBody(msg: Message) {
    Announced(msg.header).Exactly?
  }

  lemma {:induction false} RunSplits(m: Machine, a: seq<Input>, b: seq<Input>, client: bool)
    ensures Run(m, a + b, client) == Run(Run(m, a, client), b, client)
    decreases |a|
  {
    if a == [] {
      assert a + b == b;
    } else {
      assert (a + b)[0] == a[0] && (a + b)[1..] == a[1..] + b;
      RunSplits(Step(m, a[0], client), a[1..], b, client);
    }
  }

  /** Within the announced length a run only feeds. */
  lemma {:induction false} RunIsFeed(m: Machine, file: string, n: nat, got: nat, inputs: seq<Input>, client: bool)
    requires Collecting(m, file, n, got) && AllNonEmpty(Payloads(inputs)) && got + Total(Payloads(inputs)) <= n
    ensures Run(m, inputs, client) == FeedAll(m, Payloads(inputs))
    decreases |inputs|
  {
    if inputs != [] {
      var segs := Payloads(inputs);
      assert segs[1..] == Payloads(inputs[1..]);
      LaterNonEmpty(segs);
      NothingLeft(segs[1..]);
      var next := Feed(m, segs[0]);
      if next.phase.Body? {
        RunIsFeed(next, file, n, got + |segs[0]|, inputs[1..], client);
      }
    }
  }

  /** The header's end is found in the first payload, whatever bytes follow it. */
  lemma FirstPayload(m: Machine, header: string, first: string, file: string, client: bool)
    requires HeaderEnds(header)
    ensures Begin(m, header + first, file, client) == Start(m, Announced(header), first, file, client)
  {
    var p := header + first;
    CStringOfParts(header, first);
    assert header + "" == header;
    FirstInPrefix(header, "", CString(first), BLANK_LINE, |header| - 4);
    assert p[..|header|] == header && p[|header|..] == first;
  }

  /** A first payload in whose C string no header ends changes nothing: in particular a NUL hides what is behind it. */
  lemma UnendedHeader(m: Machine, payload: string, file: string, client: bool)
    requires m.phase.Idle?
    ensures StrStr(CString(payload), "\r\n\r\n").None? ==> Step(m, Input(payload, file), client) == m
  {
  }

  lemma CStringOfParts(a: string, b: string)
    requires '\0' !in a
    ensures CString(a + b) == a + CString(b)
  {
    assert forall i | 0 <= i < |a| :: a[i] in a;
    CspnIs(a, {'\0'}, |a|);
    CspnOfParts(a, b, {'\0'});
  }

  /** The files after a message, and the phase: the count of its body, or none. */
  function FilesAfter(files: Files, msg: Message): Files {
    if HasBody(msg) then Append(files, msg.file, BodyOf(msg)) else files
  }

  function PhaseAfter(msg: Message): Phase {
    Idle(if HasBody(msg) then Some(|BodyOf(msg)|) else None)
  }

  function After(m: Machine, msg: Message): Machine {
    Machine(PhaseAfter(msg), FilesAfter(m.files, msg))
  }

  /** The state after the first payload of a message. */
  function Opened(m: Machine, msg: Message): Machine {
    var n, got := |BodyOf(msg)|, |msg.first|;
    Machine(if got < n then Body(msg.file, Some(n), got) else Idle(Some(n)), Append(m.files, msg.file, msg.first))
  }

  lemma FirstStep(m: Machine, msg: Message, client: bool)
    requires m.phase.Idle? && WellFormed(msg, client)
    ensures InputsOf(msg)[1..] == msg.rest
    ensures HasBody(msg) ==> Step(m, InputsOf(msg)[0], client) == Opened(m, msg)
    ensures !HasBody(msg) ==> Step(m, InputsOf(msg)[0], client) == After(m, msg) && msg.rest == []
    ensures HasBody(msg) ==> (|msg.first| == |BodyOf(msg)| <==> msg.rest == [])
  {
    FirstPayload(m, msg.header, msg.first, msg.file, client);
    NothingLeft(Payloads(msg.rest));
  }

  /** However the body of a message is cut into payloads, the file receives exactly the body, the counter ends at
      its length and the collector is idle again, in either direction; a message without a body leaves the collector
      idle and every file as it was. */
  lemma MessageCollected(m: Machine, msg: Message, client: bool)
    requires m.phase.Idle? && WellFormed(msg, client)
    ensures Run(m, InputsOf(msg), client) == After(m, msg)
  {
    var n, got, segs := |BodyOf(msg)|, |msg.first|, Payloads(msg.rest);
    var next := Opened(m, msg);
    FirstStep(m, msg, client);
    if msg.rest == [] {
      assert BodyOf(msg) == msg.first;
    } else {
      RunIsFeed(next, msg.file, n, got, msg.rest, client);
      FeedWithinLength(next, msg.file, n, got, segs);
      AppendTwice(m.files, msg.file, msg.first, Concat(segs));
    }
  }

  /** A message without a length: from its first payload on everything is collected in order, in either direction,
      and the collector stays open; on the client side a first payload that ends with its header opens nothing. */
  lemma OpenBodyCollected(m: Machine, header: string, first: string, rest: seq<Input>, file: string, client: bool)
    requires m.phase.Idle? && HeaderEnds(header) && Announced(header) == ToTheEnd
    requires client ==> first != ""
    ensures Run(m, [Input(header + first, file)] + rest, client) ==
            OpenMachine(m.files, file, first + Concat(Payloads(rest)))
  {
    var inputs := [Input(header + first, file)] + rest;
    FirstPayload(m, header, first, file, client);
    assert inputs[1..] == rest;
    OpenRunIsFeed(OpenMachine(m.files, file, first), file, |first|, rest, client);
    OpenFeed(m.files, file, first, Payloads(rest));
  }

  /** The collector while a body without a length is being read. */
  function OpenMachine(files: Files, file: string, body: string): Machine {
    Machine(Body(file, None, |body|), Append(files, file, body))
  }

  lemma OpenFeed(files: Files, file: string, first: string, segs: seq<string>)
    ensures FeedAll(OpenMachine(files, file, first), segs) == OpenMachine(files, file, first + Concat(segs))
  {
    FeedToTheEnd(OpenMachine(files, file, first), file, |first|, segs);
    AppendTwice(files, file, first, Concat(segs));
  }

  lemma {:induction false} OpenRunIsFeed(m: Machine, file: string, got: nat, inputs: seq<Input>, client: bool)
    requires m.phase == Body(file, None, got)
    ensures Run(m, inputs, client) == FeedAll(m, Payloads(inputs))
    decreases |inputs|
  {
    if inputs != [] {
      var segs := Payloads(inputs);
      assert segs[1..] == Payloads(inputs[1..]);
      OpenRunIsFeed(Feed(m, segs[0]), file, got + |segs[0]|, inputs[1..], client);
    }
  }

  function Flatten(msgs: seq<Message>): seq<Input> {
    if msgs == [] then [] else InputsOf(msgs[0]) + Flatten(msgs[1..])
  }

  function AppendAll(files: Files, msgs: seq<Message>): Files
    decreases |msgs|
  {
    if msgs == [] then files else AppendAll(FilesAfter(files, msgs[0]), msgs[1..])
  }

  /** The phase after a session: idle, with the count of the last message. */
  function LastPhase(before: Phase, msgs: seq<Message>): Phase {
    if msgs == [] then before else PhaseAfter(msgs[|msgs| - 1])
  }

  predicate AllWellFormed(msgs: seq<Message>, client: bool) {
    forall msg | msg in msgs :: WellFormed(msg, client)
  }

  lemma LaterWellFormed(msgs: seq<Message>, client: bool)
    requires AllWellFormed(msgs, client) && msgs != []
    ensures WellFormed(msgs[0], client) && AllWellFormed(msgs[1..], client)
  {
    assert msgs[0] in msgs && forall msg | msg in msgs[1..] :: msg in msgs;
  }

  /** Every message of a connection starts afresh: a session of messages, with and without bodies in any order, appends
      each body to its file. */
  lemma {:induction false} SessionCollected(m: Machine, msgs: seq<Message>, client: bool)
    requires m.phase.Idle? && AllWellFormed(msgs, client)
    ensures Run(m, Flatten(msgs), client) == Machine(LastPhase(m.phase, msgs), AppendAll(m.files, msgs))
    decreases |msgs|
  {
    if msgs != [] {
      LaterWellFormed(msgs, client);
      MessageCollected(m, msgs[0], client);
      RunSplits(m, InputsOf(msgs[0]), Flatten(msgs[1..]), client);
      SessionCollected(After(m, msgs[0]), msgs[1..], client);
      assert |msgs| > 1 ==> msgs[1..][|msgs| - 2] == msgs[|msgs| - 1];
    }
  }

  lemma {:induction false} OtherFilesKept(files: Files, msgs: seq<Message>, file: string)
    requires forall msg | msg in msgs :: msg.file != file
    ensures var r := AppendAll(files, msgs);
            (file in r <==> file in files) && (file in files ==> r[file] == files[file])
    decreases |msgs|
  {
    if msgs != [] {
      assert msgs[0] in msgs && forall msg | msg in msgs[1..] :: msg in msgs;
      OtherFilesKept(FilesAfter(files, msgs[0]), msgs[1..], file);
    }
  }

  predicate FilesDiffer(msgs: seq<Message>) {
    forall i, j | 0 <= i < j < |msgs| :: msgs[i].file != msgs[j].file
  }

  lemma {:induction false} AppendedBody(files: Files, msgs: seq<Message>, k: nat)
    requires k < |msgs| && FilesDiffer(msgs)
    requires forall msg | msg in msgs :: msg.file !in files
    ensures var r := AppendAll(files, msgs);
            && (msgs[k].file in r <==> HasBody(msgs[k]))
            && (HasBody(msgs[k]) ==> r[msgs[k].file] == BodyOf(msgs[k]))
    decreases k
  {
    var rest := msgs[1..];
    var next := FilesAfter(files, msgs[0]);
    assert forall i | 0 <= i < |rest| :: rest[i] == msgs[i + 1];
    assert msgs[0] in msgs && "" + BodyOf(msgs[0]) == BodyOf(msgs[0]);
    if k == 0 {
      OtherFilesKept(next, rest, msgs[0].file);
    } else {
      AppendedBody(next, rest, k - 1);
    }
  }

  /** With a new file per message, after a session every file of a message with a body equals that body, whatever the
      segmentation was, and a message without one has made no file. */
  lemma BodiesInFiles(m: Machine, msgs: seq<Message>, client: bool, k: nat)
    requires m.phase.Idle? && AllWellFormed(msgs, client) && k < |msgs| && FilesDiffer(msgs)
    requires forall msg | msg in msgs :: msg.file !in m.files
    ensures var r := Run(m, Flatten(msgs), client).files;
            && (msgs[k].file in r <==> HasBody(msgs[k]))
            && (HasBody(msgs[k]) ==> r[msgs[k].file] == BodyOf(msgs[k]))
  {
    SessionCollected(m, msgs, client);
    AppendedBody(m.files, msgs, k);
  }

  lemma {:induction false} InRangeSplits(m: Machine, a: seq<Input>, b: seq<Input>, client: bool)
    requires AllInRange(m, a, client) && AllInRange(Run(m, a, client), b, client)
    ensures AllInRange(m, a + b, client)
    decreases |a|
  {
    if a == [] {
      assert a + b == b;
    } else {
      assert (a + b)[0] == a[0] && (a + b)[1..] == a[1..] + b;
      InRangeSplits(Step(m, a[0], client), a[1..], b, client);
    }
  }

  lemma {:induction false} FeedInRange(m: Machine, file: string, n: nat, got: nat, inputs: seq<Input>, client: bool)
    requires Collecting(m, file, n, got) && AllNonEmpty(Payloads(inputs)) && got + Total(Payloads(inputs)) <= n
    ensures AllInRange(m, inputs, client)
    decreases |inputs|
  {
    if inputs != [] {
      var segs := Payloads(inputs);
      assert segs[1..] == Payloads(inputs[1..]);
      LaterNonEmpty(segs);
      NothingLeft(segs[1..]);
      var next := Feed(m, segs[0]);
      if next.phase.Body? {
        FeedInRange(next, file, n, got + |segs[0]|, inputs[1..], client);
      }
    }
  }

  lemma MessageInRange(m: Machine, msg: Message, client: bool)
    requires m.phase.Idle? && WellFormed(msg, client)
    ensures AllInRange(m, InputsOf(msg), client)
  {
    FirstStep(m, msg, client);
    if msg.rest != [] {
      FeedInRange(Opened(m, msg), msg.file, |BodyOf(msg)|, |msg.first|, msg.rest, client);
    }
  }

  /** A session whose messages announce their lengths or have no body stays in range, however long it is. */
  lemma {:induction false} SessionInRange(m: Machine, msgs: seq<Message>, client: bool)
    requires m.phase.Idle? && AllWellFormed(msgs, client)
    ensures AllInRange(m, Flatten(msgs), client)
    decreases |msgs|
  {
    if msgs != [] {
      var msg := msgs[0];
      LaterWellFormed(msgs, client);
      MessageInRange(m, msg, client);
      MessageCollected(m, msg, client);
      SessionInRange(After(m, msg), msgs[1..], client);
      InRangeSplits(m, InputsOf(msg), Flatten(msgs[1..]), client);
    }
  }

  /** A whole session through the server's collector: every body reaches its file, and the collector is ready for
      the next message. */
  method CollectServer(c: Collector, inputs: seq<Input>, stamps: seq<string>, ghost msgs: seq<Message>)
    requires c.Valid() && !c.multipleChunks && inputs == Flatten(msgs) && |stamps| == |inputs|
    requires AllWellFormed(msgs, false)
    requires forall i | 0 <= i < |inputs| :: |inputs[i].payload| < MAXLINE && inputs[i].file == "http/rcvd/" + stamps[i]
    modifies c
    ensures c.Valid() && c.View() == Machine(LastPhase(old(c.View()).phase, msgs), AppendAll(old(c.files), msgs))
  {
    ghost var before := c.View();
    SessionInRange(before, msgs, false);
    SessionCollected(before, msgs, false);
    for i := 0 to |inputs|
      invariant c.Valid() && AllInRange(c.View(), inputs[i..], false)
      invariant Run(c.View(), inputs[i..], false) == Run(before, inputs, false)
    {
      assert inputs[i..][0] == inputs[i] && inputs[i..][1..] == inputs[i + 1..];
      c.TakeServer(inputs[i].payload, stamps[i]);
    }
  }

  /** The same through the client's collector. */
  method CollectClient(c: Collector, inputs: seq<Input>, stamps: seq<string>, ghost msgs: seq<Message>)
    requires c.Valid() && !c.multipleChunks && inputs == Flatten(msgs) && |stamps| == |inputs|
    requires AllWellFormed(msgs, true)
    requires forall i | 0 <= i < |inputs| :: |inputs[i].payload| < MAXLINE && inputs[i].file == "http/sent/" + stamps[i]
    modifies c
    ensures c.Valid() && c.View() == Machine(LastPhase(old(c.View()).phase, msgs), AppendAll(old(c.files), msgs))
  {
    ghost var before := c.View();
    SessionInRange(before, msgs, true);
    SessionCollected(before, msgs, true);
    for i := 0 to |inputs|
      invariant c.Valid() && AllInRange(c.View(), inputs[i..], true)
      invariant Run(c.View(), inputs[i..], true) == Run(before, inputs, true)
    {
      assert inputs[i..][0] == inputs[i] && inputs[i..][1..] == inputs[i + 1..];
      var status := c.HandleClient(inputs[i].payload, stamps[i]);
    }
  }

  /** A message without a length through the server's collector, from its first payload on, as long as the count
      stays below the sentinel. */
  method CollectOpenServer(c: Collector, header: string, first: string, segs: seq<string>, stamp: string)
    requires c.Valid() && !c.multipleChunks && HeaderEnds(header) && Announced(header) == ToTheEnd
    requires |header + first| < MAXLINE && |first| + Total(segs) < UNKNOWN_LENGTH
    modifies c
    ensures c.Valid() && c.View() == OpenMachine(old(c.files), "http/rcvd/" + stamp, first + Concat(segs))
  {
    FirstPayload(c.View(), header, first, "http/rcvd/" + stamp, false);
    OpenFeed(c.files, "http/rcvd/" + stamp, first, segs);
    c.TakeServer(header + first, stamp);
    ReceiveServer(c, segs);
  }

  /** The same through the client's collector, for a first payload with some of the body. */
  method CollectOpenClient(c: Collector, header: string, first: string, segs: seq<string>, stamp: string)
    requires c.Valid() && !c.multipleChunks && HeaderEnds(header) && Announced(header) == ToTheEnd
    requires first != "" && |header + first| < MAXLINE && |first| + Total(segs) < UNKNOWN_LENGTH
    modifies c
    ensures c.Valid() && c.View() == OpenMachine(old(c.files), "http/sent/" + stamp, first + Concat(segs))
  {
    FirstPayload(c.View(), header, first, "http/sent/" + stamp, true);
    OpenFeed(c.files, "http/sent/" + stamp, first, segs);
    var status := c.HandleClient(header + first, stamp);
    ReceiveClient(c, segs);
  }

  /** A header that ends in the replaced payload ends at the same place with the stray byte behind it, so the byte
      reaches no extracted field; it is one more byte of the body. */
  lemma StrayMissesHeader(data: string, value: string, c: char)
    requires StrStr(CString(data), SERVER).Some?
    requires StrStr(Spliced(CString(data), value), BLANK_LINE).Some?
    ensures var s := Spliced(CString(data), value);
            var i := StrStr(s, BLANK_LINE).value;
            && StrStr(Manipulated(data, value, c), BLANK_LINE) == Some(i)
            && Manipulated(data, value, c)[..i + 4] == s[..i + 4]
            && Manipulated(data, value, c)[i + 4..] == s[i + 4..] + Behind(Stray(data, c))
  {
    var s, d := Spliced(CString(data), value), Behind(Stray(data, c));
    assert s + "" == s;
    FirstInPrefix(s, "", d, BLANK_LINE, StrStr(s, BLANK_LINE).value);
  }

  /** A header field's value is what stands between its name, one more character and the end of the line, whichever
      of the two line breaks ends it. */
  lemma HeaderFieldReads(before: string, name: string, value: string, stop: char, after: string)
    requires StrStr(before + name, name) == Some(|before|)
    requires '\r' !in value && '\n' !in value && (stop == '\r' || stop == '\n')
    ensures Field(before + name + " " + (value + ([stop] + after)), name) == value
  {
    var p := before + name + " ";
    assert before + name + "" == before + name && p + "" == p;
    FirstInPrefix(before + name, "", " ", name, |before|);
    FieldAfter(p, "", value, [stop] + after, name);
    OneLineIsWhole(value);
  }

  lemma NumberIsNoText(sign: string, n: nat)
    requires sign in {"", "-"}
    ensures var v := sign + Decimal(n); !("N/A" <= v) && '\r' !in v && '\n' !in v
  {
    var v := sign + Decimal(n);
    assert IsDigit(Decimal(n)[0]);
    assert v[0] == if sign == "" then Decimal(n)[0] else '-';
  }

  /** A `Content-Length:` line printed with the length n announces exactly n bytes, with 0 no body, and with a negative
      number a body without an end. */
  lemma LengthIsAnnounced(before: string, sign: string, n: nat, stop: char, after: string)
    requires n <= INT_MAX && sign in {"", "-"} && (stop == '\r' || stop == '\n')
    requires StrStr(before + "Content-Length:", "Content-Length:") == Some(|before|)
    ensures Announced(before + "Content-Length:" + " " + (sign + Decimal(n) + ([stop] + after))) ==
            if n == 0 then NoBody else if sign == "-" then ToTheEnd else Exactly(n)
  {
    NumberIsNoText(sign, n);
    HeaderFieldReads(before, CONTENT_LENGTH, sign + Decimal(n), stop, after);
    AtoiReads("", sign, n, "");
    assert "" + (sign + Decimal(n) + "") == sign + Decimal(n);
  }

  /** A header without `Content-Length:` announces a body without an end. */
  lemma NoLengthIsAnnounced(header: string)
    requires StrStr(header, "Content-Length:").None?
    ensures Announced(header) == ToTheEnd
  {
    NoField(header, CONTENT_LENGTH);
    assert "N/A" <= "N/A";
  }

  /** A request with a complete header that names no length, and nothing behind it, leaves the collector idle and every
      file as it was. */
  lemma BareRequest(m: Machine, header: string, file: string)
    requires m.phase.Idle? && '\0' !in header && StrStr(header, "Content-Length:").None?
    requires StrStr(header, "\r\n\r\n").Some? && StrStr(header, "\r\n\r\n").value + 4 == |header|
    ensures Step(m, Input(header, file), true) == Machine(Idle(None), m.files)
  {
    NoLengthIsAnnounced(header);
    FirstPayload(m, header, "", file, true);
    assert header + "" == header;
  }
}
