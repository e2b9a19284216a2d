/** Appending text to shared log files from many processes: one semaphore, files opened fresh or for
    appending, and writes that may be partial, fail or be cut short by a signal. */
module LogLock {
  import opened CText

  type Files = map<string, string>

  /** An open file: in append mode the kernel writes at the end, otherwise at the descriptor's offset. */
  datatype Fd = Fd(file: string, append: bool, offset: nat)

  function ContentOf(files: Files, file: string): string {
    if file in files then files[file] else ""
  }

  /** write(2): at the end, or over whatever is at the offset. */
  function WriteTo(files: Files, fd: Fd, data: string): Files
    requires fd.file in files && (fd.append || fd.offset <= |files[fd.file]|)
  {
    var c := files[fd.file];
    var at := if fd.append then |c| else fd.offset;
    var end := if at + |data| <= |c| then at + |data| else |c|;
    files[fd.file := c[..at] + data + c[end..]]
  }

  /** With the descriptor at the end of the file, a write appends. */
  lemma WriteAppends(files: Files, fd: Fd, data: string)
    requires fd.file in files && (fd.append || fd.offset == |files[fd.file]|)
    ensures WriteTo(files, fd, data) == files[fd.file := files[fd.file] + data]
  {
    var c := files[fd.file];
    assert c[..|c|] + data + c[|c|..] == c + data;
  }

  // ----- one call, alone -----

  class Log {
    var sem: int
    var files: Files

    constructor ()
      ensures sem == 1 && files == map[]
    {
      sem, files := 1, map[];
    }

    /** write(2): the kernel takes any number of bytes up to all of them, or reports failure. */
    method Write(fd: Fd, data: string) returns (w: int)
      requires data != "" && fd.file in files && (fd.append || fd.offset <= |files[fd.file]|)
      modifies this`files
      ensures -1 <= w <= |data|
      ensures files == if w > 0 then WriteTo(old(files), fd, data[..w]) else old(files)
    {
      w :| -1 <= w <= |data|;
      if w > 0 {
        files := WriteTo(files, fd, data[..w]);
      }
    }

    /** The write loop: `ptr` advances by what each write took until nothing is left or a write fails. */
    method WriteAll(fd: Fd, message: string) returns (end: Fd, ok: bool)
      requires fd.file in files && (fd.append || fd.offset == |files[fd.file]|)
      modifies this`files
      ensures end == fd.(offset := end.offset)
      ensures fd.file in files && (fd.append || end.offset == |files[fd.file]|)
      ensures exists n | 0 <= n <= |message| :: files == old(files)[fd.file := old(files[fd.file]) + message[..n]]
      ensures ok ==> files == old(files)[fd.file := old(files[fd.file]) + message]
    {
      end := fd;
      ok := true;
      ghost var before, n := files[fd.file], 0;
      assert before + message[..0] == before;
      var ptr := message;
      while ptr != ""
        invariant n <= |message| && ptr == message[n..]
        invariant files == old(files)[fd.file := before + message[..n]]
        invariant end == fd.(offset := end.offset) && (fd.append || end.offset == |files[fd.file]|)
        decreases |ptr|
      {
        ghost var now := files;
        var w := Write(end, ptr);
        if w <= 0 {
          return end, false;
        }
        WriteAppends(now, end, ptr[..w]);
        assert before + message[..n] + ptr[..w] == before + message[..n + w];
        ptr := ptr[w..];
        n := n + w;
        end := end.(offset := end.offset + w);
      }
      assert message[..n] == message;
    }

    /** The message and its newline; the result of the newline's write is not passed on by the source. */
    method AppendRecord(fd: Fd, message: string) returns (faultless: bool)
      requires fd.file in files && (fd.append || fd.offset == |files[fd.file]|)
      modifies this`files
      ensures exists t :: files == old(files)[fd.file := old(files[fd.file]) + t]
      ensures faultless ==> files == old(files)[fd.file := old(files[fd.file]) + (message + "\n")]
    {
      ghost var before := files[fd.file];
      var end, ok := WriteAll(fd, message);
      ghost var n :| 0 <= n <= |message| && files == old(files)[fd.file := before + message[..n]];
      WriteAppends(files, end, "\n");
      var w := Write(end, "\n");
      assert w > 0 ==> "\n"[..w] == "\n";
      assert before + message[..n] + "\n" == before + (message[..n] + "\n");
      assert before + message + "\n" == before + (message + "\n");
      return ok && w > 0;
    }

    /** lt_log_text: when no write fails the record is appended whole, whatever the sizes of the partial
        writes; a file that cannot be opened ends the call with the semaphore still taken. */
    method LogText(file: string, message: string, openable: bool) returns (status: int, faultless: bool)
      requires sem == 1
      modifies this
      ensures status == 0 <==> openable
      ensures sem == if status == 0 then 1 else 0
      ensures status != 0 ==> files == old(files)
      ensures status == 0 ==> exists t :: files == old(files)[file := ContentOf(old(files), file) + t]
      ensures status == 0 && faultless ==> files == old(files)[file := ContentOf(old(files), file) + (message + "\n")]
    {
      sem := sem - 1;
      if !openable {
        return -1, true;
      }
      var fd := Fd(file, file in files, 0);
      if !fd.append {
        files := files[file := ""];
      }
      assert files == old(files)[file := ContentOf(old(files), file)];
      faultless := AppendRecord(fd, message);
      sem := sem + 1;
      return 0, faultless;
    }
  }

  // ----- many processes -----

  datatype Record = Record(process: nat, file: string, message: string)

  /** `left` is still to be written, `put` has been. */
  datatype Phase =
    | Outside
    | Locked(file: string, message: string)
    | Writing(fd: Fd, message: string, left: string, put: string)
    | Ended(file: string, text: string)    // the newline has been tried, the semaphore not yet given back
    | Gone(file: string, text: string)     // left without giving the semaphore back

  /** `order` lists the calls in the order in which they took the lock, `texts` what each finished one has written;
      `faultless` says that no write has failed so far. */
  datatype State = State(sem: int, files: Files, procs: seq<Phase>, order: seq<Record>, texts: seq<string>,
                         faultless: bool)

  /** The atomic steps of process `p`. */
  datatype Action =
    | Acquire(p: nat, file: string, message: string)
    | Open(p: nat)
    | OpenFails(p: nat)
    | Write(p: nat, w: nat)
    | WriteFails(p: nat)
    | Newline(p: nat)
    | NewlineFails(p: nat)
    | Release(p: nat)
    | Killed(p: nat)

  function Init(n: nat): State {
    State(1, map[], seq(n, _ => Outside), [], [], true)
  }

  predicate Enabled(s: State, a: Action) {
    && a.p < |s.procs|
    && var ph := s.procs[a.p];
       match a
       case Acquire(_, _, _) => ph.Outside? && s.sem > 0
       case Open(_) => ph.Locked?
       case OpenFails(_) => ph.Locked?
       case Write(_, w) => ph.Writing? && 0 < w <= |ph.left| && Writable(s.files, ph.fd)
       case WriteFails(_) => ph.Writing? && ph.left != ""
       case Newline(_) => ph.Writing? && ph.left == "" && Writable(s.files, ph.fd)
       case NewlineFails(_) => ph.Writing? && ph.left == ""
       case Release(_) => ph.Ended?
       case Killed(_) => ph.Locked? || ph.Writing? || ph.Ended?
  }

  predicate Writable(files: Files, fd: Fd) {
    fd.file in files && (fd.append || fd.offset <= |files[fd.file]|)
  }

  /** What the call in this phase has put into its file. */
  function Partial(ph: Phase): string
    requires !ph.Outside?
  {
    match ph
    case Locked(_, _) => ""
    case Writing(_, _, _, put) => put
    case Ended(_, text) => text
    case Gone(_, text) => text
  }

  function FileOf(ph: Phase): string
    requires !ph.Outside?
  {
    match ph
    case Locked(f, _) => f
    case Writing(fd, _, _, _) => fd.file
    case Ended(f, _) => f
    case Gone(f, _) => f
  }

  function Do(s: State, a: Action): State
    requires Enabled(s, a)
  {
    var ph := s.procs[a.p];
    match a
    case Acquire(p, f, m) =>
      s.(sem := s.sem - 1, procs := s.procs[p := Locked(f, m)], order := s.order + [Record(p, f, m)])
    case Open(p) =>
      if ph.file in s.files then s.(procs := s.procs[p := Writing(Fd(ph.file, true, 0), ph.message, ph.message, "")])
      else s.(files := s.files[ph.file := ""],
              procs := s.procs[p := Writing(Fd(ph.file, false, 0), ph.message, ph.message, "")])
    case OpenFails(p) => s.(procs := s.procs[p := Gone(ph.file, "")])
    case Write(p, w) =>
      s.(files := WriteTo(s.files, ph.fd, ph.left[..w]),
         procs := s.procs[p := ph.(fd := ph.fd.(offset := ph.fd.offset + w), left := ph.left[w..],
                                   put := ph.put + ph.left[..w])])
    case WriteFails(p) => s.(procs := s.procs[p := ph.(left := "")], faultless := false)
    case Newline(p) =>
      s.(files := WriteTo(s.files, ph.fd, "\n"), procs := s.procs[p := Ended(ph.fd.file, ph.put + "\n")])
    case NewlineFails(p) => s.(procs := s.procs[p := Ended(ph.fd.file, ph.put)], faultless := false)
    case Release(p) => s.(sem := s.sem + 1, procs := s.procs[p := Outside], texts := s.texts + [ph.text])
    case Killed(p) => s.(procs := s.procs[p := Gone(FileOf(ph), Partial(ph))])
  }

  /** The state after a run of `n` processes; None when some action was not enabled. */
  function Run(n: nat, actions: seq<Action>): Option<State> {
    if actions == [] then Some(Init(n))
    else
      var before := Run(n, actions[..|actions| - 1]);
      if before.Some? && Enabled(before.value, actions[|actions| - 1])
      then Some(Do(before.value, actions[|actions| - 1]))
      else None
  }

  // ----- the way of one call -----

  /** At most so many own steps until the call is over. */
  function StepsLeft(ph: Phase): nat {
    match ph
    case Outside => 0
    case Locked(_, message) => |message| + 3
    case Writing(_, _, left, _) => |left| + 2
    case Ended(_, _) => 1
    case Gone(_, _) => 0
  }

  /** Every step inside brings its call nearer to its end and leaves every other process where it is; a failed write is
      followed by the newline, and a failed newline by giving the lock back. */
  lemma CallMovesOn(s: State, a: Action)
    requires Enabled(s, a)
    ensures var t := Do(s, a);
            var before, after := s.procs[a.p], t.procs[a.p];
            && |t.procs| == |s.procs| && (forall q | 0 <= q < |s.procs| && q != a.p :: t.procs[q] == s.procs[q])
            && (if a.Acquire? then StepsLeft(after) == |a.message| + 3 else StepsLeft(after) < StepsLeft(before))
            && (a.Open? || a.Write? || a.WriteFails? <==> after.Writing?)
            && (a.Newline? || a.NewlineFails? <==> after.Ended?)
            && (a.Release? <==> after.Outside?)
            && (a.WriteFails? ==> after == before.(left := ""))
  {
  }

  // ----- what the log files hold -----

  /** The whole records of `order` for one file. */
  function Records(order: seq<Record>, file: string): string {
    if order == [] then ""
    else
      var last := order[|order| - 1];
      Records(order[..|order| - 1], file) + if last.file == file then last.message + "\n" else ""
  }

  /** The texts of the first calls of `order` for one file, one after the other. */
  function Put(order: seq<Record>, texts: seq<string>, file: string): string
    requires |texts| <= |order|
    decreases |texts|
  {
    if texts == [] then ""
    else
      var last := |texts| - 1;
      Put(order, texts[..last], file) + if order[last].file == file then texts[last] else ""
  }

  /** What a call may leave of its message: a beginning, with the newline behind it or not. */
  predicate IsPart(text: string, message: string) {
    || text <= message
    || (text != "" && text[|text| - 1] == '\n' && text[..|text| - 1] <= message)
  }

  function Holders(procs: seq<Phase>): nat {
    if procs == [] then 0
    else Holders(procs[..|procs| - 1]) + if procs[|procs| - 1].Outside? then 0 else 1
  }

  ghost predicate OnlyHolder(procs: seq<Phase>, h: nat) {
    && h < |procs| && !procs[h].Outside?
    && forall p | 0 <= p < |procs| && p != h :: procs[p].Outside?
  }

  /** A descriptor in use writes at the end of its file. */
  predicate AtEnd(ph: Phase, files: Files) {
    ph.Writing? ==> ph.fd.file in files && (ph.fd.append || ph.fd.offset == |files[ph.fd.file]|)
  }

  /** The semaphore is free and nobody is inside, or it is taken and exactly one process is inside: the one
      that took it last. */
  ghost predicate LockInv(s: State) {
    || (s.sem == 1 && forall p | 0 <= p < |s.procs| :: s.procs[p].Outside?)
    || (s.sem == 0 && s.order != [] &&
        var h := s.order[|s.order| - 1].process;
        OnlyHolder(s.procs, h) && AtEnd(s.procs[h], s.files))
  }

  lemma {:induction false} NobodyInside(procs: seq<Phase>)
    requires forall p | 0 <= p < |procs| :: procs[p].Outside?
    ensures Holders(procs) == 0
  {
    if procs != [] {
      NobodyInside(procs[..|procs| - 1]);
    }
  }

  lemma {:induction false} OneInside(procs: seq<Phase>, h: nat)
    requires OnlyHolder(procs, h)
    ensures Holders(procs) == 1
  {
    if h == |procs| - 1 {
      NobodyInside(procs[..h]);
    } else {
      OneInside(procs[..|procs| - 1], h);
    }
  }

  lemma LockStep(s: State, a: Action)
    requires LockInv(s) && Enabled(s, a)
    ensures LockInv(Do(s, a))
  {
    var t := Do(s, a);
    if a.Acquire? {
      assert t.order[|t.order| - 1] == Record(a.p, a.file, a.message);
    }
  }

  /** Mutual exclusion in every interleaving: the semaphore value and the number of processes inside add up
      to one, whether or not writes fail and processes are killed. */
  lemma {:induction false} MutualExclusion(n: nat, actions: seq<Action>)
    requires Run(n, actions).Some?
    ensures var s := Run(n, actions).value;
            LockInv(s) && s.sem + Holders(s.procs) == 1
  {
    var s := Run(n, actions).value;
    if actions != [] {
      MutualExclusion(n, actions[..|actions| - 1]);
      LockStep(Run(n, actions[..|actions| - 1]).value, actions[|actions| - 1]);
    }
    if s.sem == 1 {
      NobodyInside(s.procs);
    } else {
      OneInside(s.procs, s.order[|s.order| - 1].process);
    }
  }

  /** The call in progress belongs to record `r`, and has written a part of its message: all of what is not left, as
      long as no write has failed. */
  predicate Current(ph: Phase, r: Record, faultless: bool) {
    && !ph.Outside? && FileOf(ph) == r.file && IsPart(Partial(ph), r.message)
    && (faultless ==> Partial(ph) <= r.message + "\n")
    && (ph.Locked? ==> ph.message == r.message)
    && (ph.Writing? ==> ph.message == r.message && ph.put <= ph.message
                        && (ph.left != "" || faultless ==> ph.put + ph.left == ph.message))
    && (ph.Ended? && faultless ==> ph.text == r.message + "\n")
  }

  /** The finished calls: all of `order`, less the last one while it is still inside. */
  function Finished(s: State): seq<Record> {
    if s.sem == 1 || s.order == [] then s.order else s.order[..|s.order| - 1]
  }

  /** What the current holder has written into file `f`. */
  function Tail(s: State, f: string): string {
    if s.sem == 1 || s.order == [] then ""
    else
      var r := s.order[|s.order| - 1];
      if r.process < |s.procs| && !s.procs[r.process].Outside? && r.file == f then Partial(s.procs[r.process]) else ""
  }

  /** What each finished call has written is a part of its message, without failed writes all of it. */
  ghost predicate PartsWritten(order: seq<Record>, texts: seq<string>, faultless: bool) {
    && |texts| <= |order|
    && forall i | 0 <= i < |texts| ::
         IsPart(texts[i], order[i].message) && (faultless ==> texts[i] == order[i].message + "\n")
  }

  /** File `f` holds what the finished calls have written, and behind it what the holder has. */
  predicate FileHolds(s: State, f: string)
    requires |s.texts| <= |s.order|
  {
    ContentOf(s.files, f) == Put(s.order, s.texts, f) + Tail(s, f)
  }

  /** Every file holds what the finished calls have written, one after the other in lock order, and behind it what the
      holder has written so far. */
  ghost predicate Intact(s: State) {
    && |s.texts| == |Finished(s)|
    && PartsWritten(s.order, s.texts, s.faultless)
    && (forall f :: FileHolds(s, f))
    && (s.sem == 0 && s.order != [] ==>
          var r := s.order[|s.order| - 1];
          r.process < |s.procs| && Current(s.procs[r.process], r, s.faultless))
  }

  lemma {:induction false} PutIgnoresLater(order: seq<Record>, r: Record, texts: seq<string>, file: string)
    requires |texts| <= |order|
    ensures Put(order + [r], texts, file) == Put(order, texts, file)
    decreases |texts|
  {
    if texts != [] {
      PutIgnoresLater(order, r, texts[..|texts| - 1], file);
    }
  }

  lemma IntactAcquire(s: State, a: Action)
    requires LockInv(s) && Intact(s) && Enabled(s, a) && a.Acquire?
    ensures Intact(Do(s, a))
  {
    var t, r := Do(s, a), Record(a.p, a.file, a.message);
    assert t.order[..|t.order| - 1] == s.order && t.order[|t.order| - 1] == r;
    assert Finished(t) == s.order;
    forall f ensures FileHolds(t, f) {
      PutIgnoresLater(s.order, r, s.texts, f);
      assert FileHolds(s, f);
    }
  }

  lemma PutOneMore(order: seq<Record>, texts: seq<string>, text: string, f: string)
    requires |texts| < |order|
    ensures Put(order, texts + [text], f) ==
            Put(order, texts, f) + if order[|texts|].file == f then text else ""
  {
    assert (texts + [text])[..|texts|] == texts;
  }

  lemma IntactRelease(s: State, a: Action)
    requires LockInv(s) && Intact(s) && Enabled(s, a) && a.Release?
    ensures Intact(Do(s, a))
  {
    var t, r := Do(s, a), s.order[|s.order| - 1];
    assert r.process == a.p && t.sem == 1;
    OnePartMore(s.order, s.texts, s.procs[a.p].text, s.faultless);
    forall f ensures FileHolds(t, f) {
      ReleasedFile(s, a, f);
    }
  }

  lemma OnePartMore(order: seq<Record>, texts: seq<string>, text: string, faultless: bool)
    requires PartsWritten(order, texts, faultless) && |texts| < |order|
    requires var m := order[|texts|].message; IsPart(text, m) && (faultless ==> text == m + "\n")
    ensures PartsWritten(order, texts + [text], faultless)
  {
  }

  /** The holder's text becomes that of a finished call. */
  lemma ReleasedFile(s: State, a: Action, f: string)
    requires Enabled(s, a) && a.Release? && s.sem == 0 && |s.texts| + 1 == |s.order| && FileHolds(s, f)
    requires var r := s.order[|s.order| - 1]; r.process == a.p && FileOf(s.procs[a.p]) == r.file
    ensures FileHolds(Do(s, a), f)
  {
    var r, text := s.order[|s.order| - 1], s.procs[a.p].text;
    var more := if r.file == f then text else "";
    assert Tail(s, f) == more && Tail(Do(s, a), f) == "";
    PutOneMore(s.order, s.texts, text, f);
    NothingBehind(Put(s.order, s.texts + [text], f));
  }

  lemma NothingBehind(s: string)
    ensures s + "" == s
  {
  }

  /** What adding `x` to `file` adds to file `f`. */
  function Added(f: string, file: string, x: string): string {
    if f == file then x else ""
  }

  /** The files after `x` has been added to one of them. */
  ghost predicate Adds(before: Files, after: Files, file: string, x: string) {
    forall f :: ContentOf(after, f) == ContentOf(before, f) + Added(f, file, x)
  }

  lemma AddsAppended(files: Files, file: string, x: string)
    requires file in files
    ensures Adds(files, files[file := files[file] + x], file, x)
  {
    assert forall c: string :: c + "" == c;
  }

  lemma AddsNothing(before: Files, after: Files, file: string)
    requires after == before || (file !in before && after == before[file := ""])
    ensures Adds(before, after, file, "")
  {
    assert forall c: string :: c + "" == c;
  }

  lemma HolderFile(s: State, t: State, x: string, f: string)
    requires Intact(s) && s.sem == t.sem == 0 && s.order != [] && t.order == s.order && t.texts == s.texts
    requires var r := s.order[|s.order| - 1];
             && r.process < |t.procs| && !t.procs[r.process].Outside?
             && Partial(t.procs[r.process]) == Partial(s.procs[r.process]) + x
             && ContentOf(t.files, f) == ContentOf(s.files, f) + Added(f, r.file, x)
    ensures FileHolds(t, f)
  {
    var r := s.order[|s.order| - 1];
    var a, b := Put(s.order, s.texts, f), Tail(s, f);
    assert FileHolds(s, f);
    Regroup(a, b, Added(f, r.file, x));
    if f == r.file {
      assert b == Partial(s.procs[r.process]) && Tail(t, f) == Partial(t.procs[r.process]);
    } else {
      assert b == "" && Tail(t, f) == "";
    }
  }

  lemma Regroup(a: string, b: string, c: string)
    ensures a + b + c == a + (b + c) && "" + "" == ""
  {
  }

  /** A step of the holder that adds `x` to its file and to what it has written. */
  lemma HolderAppends(s: State, t: State, x: string)
    requires Intact(s) && s.sem == t.sem == 0 && s.order != [] && t.order == s.order && t.texts == s.texts
    requires t.faultless ==> s.faultless
    requires var r := s.order[|s.order| - 1];
             && r.process < |t.procs| && Current(t.procs[r.process], r, t.faultless)
             && Partial(t.procs[r.process]) == Partial(s.procs[r.process]) + x
             && Adds(s.files, t.files, r.file, x)
    ensures Intact(t)
  {
    forall f ensures FileHolds(t, f) {
      HolderFile(s, t, x, f);
    }
  }

  /** A write inside the critical section adds to what the holder has written what it adds to the file. */
  lemma IntactWrite(s: State, a: Action)
    requires LockInv(s) && Intact(s) && Enabled(s, a) && a.Write?
    ensures Intact(Do(s, a))
  {
    var r, ph := s.order[|s.order| - 1], s.procs[a.p];
    assert r.process == a.p;
    MovesOn(ph.message, ph.put, ph.left, a.w);
    WriteAppends(s.files, ph.fd, ph.left[..a.w]);
    AddsAppended(s.files, ph.fd.file, ph.left[..a.w]);
    HolderAppends(s, Do(s, a), ph.left[..a.w]);
  }

  lemma MovesOn(m: string, put: string, left: string, w: nat)
    requires put + left == m && w <= |left|
    ensures put + left[..w] + left[w..] == m && put + left[..w] <= m
  {
  }

  lemma IntactNewline(s: State, a: Action)
    requires LockInv(s) && Intact(s) && Enabled(s, a) && a.Newline?
    ensures Intact(Do(s, a))
  {
    var r, ph := s.order[|s.order| - 1], s.procs[a.p];
    assert r.process == a.p;
    assert ph.put + "" == ph.put && (ph.put + "\n")[..|ph.put|] == ph.put;
    WriteAppends(s.files, ph.fd, "\n");
    AddsAppended(s.files, ph.fd.file, "\n");
    HolderAppends(s, Do(s, a), "\n");
  }

  /** Opening a file changes neither its text nor what the holder has written. */
  lemma IntactOpen(s: State, a: Action)
    requires LockInv(s) && Intact(s) && Enabled(s, a) && a.Open?
    ensures Intact(Do(s, a))
  {
    var t, r, ph := Do(s, a), s.order[|s.order| - 1], s.procs[a.p];
    assert r.process == a.p;
    assert "" + ph.message == ph.message;
    AddsNothing(s.files, t.files, r.file);
    HolderAppends(s, t, "");
  }

  /** A failed write, a failed opening and a kill leave both alone. */
  lemma IntactFault(s: State, a: Action)
    requires LockInv(s) && Intact(s) && Enabled(s, a)
    requires a.OpenFails? || a.WriteFails? || a.NewlineFails? || a.Killed?
    ensures Intact(Do(s, a))
  {
    var t, r := Do(s, a), s.order[|s.order| - 1];
    assert r.process == a.p;
    StillCurrent(s.procs[a.p], t.procs[a.p], r, s.faultless, t.faultless);
    NothingBehind(Partial(s.procs[a.p]));
    AddsNothing(s.files, t.files, r.file);
    HolderAppends(s, t, "");
  }

  /** The phases that a fault leads to. */
  lemma StillCurrent(before: Phase, after: Phase, r: Record, was: bool, now: bool)
    requires Current(before, r, was) && (now ==> was)
    requires || (before.Writing? && after == before.(left := "") && !now)
             || (before.Writing? && after == Ended(before.fd.file, before.put) && !now)
             || after == Gone(FileOf(before), Partial(before))
    ensures Current(after, r, now) && Partial(after) == Partial(before)
  {
  }

  /** In every interleaving, whatever fails: no two records are ever mixed. Every log file is the concatenation, in the
      order in which the calls took the lock, of what each finished call has written (a beginning of its message, with
      the newline behind it or not), followed by what the process inside has written so far. */
  lemma {:induction false} LogIntact(n: nat, actions: seq<Action>)
    requires Run(n, actions).Some?
    ensures Intact(Run(n, actions).value)
  {
    if actions != [] {
      var s, a := Run(n, actions[..|actions| - 1]).value, actions[|actions| - 1];
      LogIntact(n, actions[..|actions| - 1]);
      MutualExclusion(n, actions[..|actions| - 1]);
      match a {
        case Acquire(_, _, _) => IntactAcquire(s, a);
        case Release(_) => IntactRelease(s, a);
        case Write(_, _) => IntactWrite(s, a);
        case Newline(_) => IntactNewline(s, a);
        case Open(_) => IntactOpen(s, a);
        case _ => IntactFault(s, a);
      }
    }
  }

  lemma {:induction false} WholeRecords(order: seq<Record>, texts: seq<string>, f: string)
    requires PartsWritten(order, texts, true)
    ensures Put(order, texts, f) == Records(order[..|texts|], f)
    decreases |texts|
  {
    if texts != [] {
      var last := |texts| - 1;
      WholeRecords(order, texts[..last], f);
      assert order[..|texts|][..last] == order[..last];
    }
  }

  /** Whole records in lock order, and behind them at most a beginning of the record of the process inside. */
  predicate WholeButLast(s: State, f: string) {
    && ContentOf(s.files, f) == Records(Finished(s), f) + Tail(s, f)
    && (Tail(s, f) != "" ==> s.order != [] && Tail(s, f) <= s.order[|s.order| - 1].message + "\n")
  }

  /** Without a failed write that is what every log file holds. */
  lemma FaultlessLog(n: nat, actions: seq<Action>, f: string)
    requires Run(n, actions).Some? && Run(n, actions).value.faultless
    ensures WholeButLast(Run(n, actions).value, f)
  {
    LogIntact(n, actions);
    MutualExclusion(n, actions);
    FaultlessState(Run(n, actions).value, f);
  }

  lemma FaultlessState(s: State, f: string)
    requires LockInv(s) && Intact(s) && s.faultless
    ensures WholeButLast(s, f)
  {
    assert FileHolds(s, f);
    WholeRecords(s.order, s.texts, f);
    assert s.order[..|s.texts|] == Finished(s);
  }

  /** When the lock is free and no write has failed the files hold whole records only. */
  lemma QuietLog(n: nat, actions: seq<Action>, f: string)
    requires Run(n, actions).Some?
    requires var s := Run(n, actions).value; s.faultless && s.sem == 1
    ensures ContentOf(Run(n, actions).value.files, f) == Records(Run(n, actions).value.order, f)
  {
    FaultlessLog(n, actions, f);
    var s := Run(n, actions).value;
    assert Records(s.order, f) + "" == Records(s.order, f);
  }

  /** An action that leaves without giving the semaphore back: both error returns of the source, and a signal. */
  predicate Leaves(a: Action) {
    a.OpenFails? || a.Killed?
  }

  ghost predicate SomeGone(s: State) {
    exists p :: 0 <= p < |s.procs| && s.procs[p].Gone?
  }

  lemma GoneStep(s: State, a: Action)
    requires LockInv(s) && Enabled(s, a)
    ensures !SomeGone(s) && (SomeGone(Do(s, a)) <==> Leaves(a))
  {
    var t := Do(s, a);
    if Leaves(a) {
      assert t.procs[a.p].Gone?;
    }
  }

  predicate NobodyLeaves(actions: seq<Action>) {
    forall a | a in actions :: !Leaves(a)
  }

  lemma {:induction false} GoneIff(n: nat, actions: seq<Action>)
    requires Run(n, actions).Some?
    ensures SomeGone(Run(n, actions).value) <==> !NobodyLeaves(actions)
  {
    if actions != [] {
      var before, last := actions[..|actions| - 1], actions[|actions| - 1];
      GoneIff(n, before);
      MutualExclusion(n, before);
      GoneStep(Run(n, before).value, last);
      assert actions == before + [last];
    }
  }

  /** While nobody has left, some step is enabled: the holder's next one, or taking the free lock. */
  lemma SomeStep(s: State)
    requires LockInv(s) && s.procs != [] && !SomeGone(s)
    ensures exists a :: Enabled(s, a)
  {
    if s.sem == 1 {
      assert Enabled(s, Acquire(0, "", ""));
    } else {
      var h := s.order[|s.order| - 1].process;
      match s.procs[h] {
        case Locked(_, _) => assert Enabled(s, Open(h));
        case Writing(_, _, left, _) =>
          assert Enabled(s, if left != "" then WriteFails(h) else NewlineFails(h));
        case Ended(_, _) => assert Enabled(s, Release(h));
      }
    }
  }

  /** After every run a process that has not left can go on in every way: take a free lock with any message, open its
      file or fail to, write any part of what is left or fail to, write the newline or fail to, give the lock back, and
      be killed inside. */
  lemma EveryWayOn(n: nat, actions: seq<Action>, p: nat, file: string, message: string, w: nat)
    requires Run(n, actions).Some? && p < n
    ensures |Run(n, actions).value.procs| == n
    ensures var s := Run(n, actions).value;
            match s.procs[p]
            case Outside => s.sem == 1 ==> Enabled(s, Acquire(p, file, message))
            case Locked(_, _) => Enabled(s, Open(p)) && Enabled(s, OpenFails(p)) && Enabled(s, Killed(p))
            case Writing(_, _, left, _) =>
              && Enabled(s, Killed(p))
              && (0 < w <= |left| ==> Enabled(s, Write(p, w)))
              && Enabled(s, if left != "" then WriteFails(p) else NewlineFails(p))
              && (left == "" ==> Enabled(s, Newline(p)))
            case Ended(_, _) => Enabled(s, Release(p)) && Enabled(s, Killed(p))
            case Gone(_, _) => true
  {
    MutualExclusion(n, actions);
    ProcessesStay(n, actions);
  }

  lemma {:induction false} ProcessesStay(n: nat, actions: seq<Action>)
    requires Run(n, actions).Some?
    ensures |Run(n, actions).value.procs| == n
  {
    if actions != [] {
      ProcessesStay(n, actions[..|actions| - 1]);
    }
  }

  /** A process that leaves without giving the semaphore back, as both error returns of the source do, stops every
      process for good; and nothing else does: after a run some step is enabled exactly when no action of the run was
      a failed opening or a kill. */
  lemma LeftLockedIsFinal(n: nat, actions: seq<Action>)
    requires Run(n, actions).Some? && n > 0
    ensures (exists a :: Enabled(Run(n, actions).value, a)) <==> NobodyLeaves(actions)
  {
    var s := Run(n, actions).value;
    MutualExclusion(n, actions);
    ProcessesStay(n, actions);
    GoneIff(n, actions);
    if SomeGone(s) {
      forall a ensures !Enabled(s, a) {
        if Enabled(s, a) {
          GoneStep(s, a);
        }
      }
    } else {
      SomeStep(s);
    }
  }
}
