/** The list of forked children: heap nodes with `prev` and `next` links, appended at the end, deleted
    by process id, and swept of its temporary entries. */
module ProcessList {

  datatype Entry = Entry(pid: int, temporary: bool)

  // ----- the abstract list -----

  function FirstWith(s: seq<Entry>, pid: int): (i: nat)
    ensures i <= |s|
    ensures i < |s| ==> s[i].pid == pid
    ensures forall j | 0 <= j < i :: s[j].pid != pid
  {
    if s == [] || s[0].pid == pid then 0 else 1 + FirstWith(s[1..], pid)
  }

  /** `s` without position `k`, or `s` itself when there is no such position. */
  function Without<T>(s: seq<T>, k: nat): seq<T> {
    if k < |s| then s[..k] + s[k + 1..] else s
  }

  /** The list without the first entry of that pid. */
  function RemoveFirst(s: seq<Entry>, pid: int): seq<Entry> {
    Without(s, FirstWith(s, pid))
  }

  function Permanents(s: seq<Entry>): seq<Entry> {
    if s == [] then [] else (if s[0].temporary then [] else [s[0]]) + Permanents(s[1..])
  }

  function TemporaryPids(s: seq<Entry>): seq<int> {
    if s == [] then [] else (if s[0].temporary then [s[0].pid] else []) + TemporaryPids(s[1..])
  }

  /** The list after deleting each of the pids in turn. */
  function RemoveEach(s: seq<Entry>, pids: seq<int>): seq<Entry>
    decreases |pids|
  {
    if pids == [] then s else RemoveEach(RemoveFirst(s, pids[0]), pids[1..])
  }

  // ----- the linked list -----

  class Element {
    const pid: int
    const temporary: bool
    var prev: Element?
    var next: Element?

    constructor (pid: int, temporary: bool, prev: Element?)
      ensures this.pid == pid && this.temporary == temporary && this.prev == prev && next == null
    {
      this.pid, this.temporary, this.prev, next := pid, temporary, prev, null;
    }
  }

  function EntriesOf(nodes: seq<Element>): (s: seq<Entry>)
    ensures |s| == |nodes|
    ensures forall i | 0 <= i < |nodes| :: s[i] == Entry(nodes[i].pid, nodes[i].temporary)
  {
    seq(|nodes|, i requires 0 <= i < |nodes| => Entry(nodes[i].pid, nodes[i].temporary))
  }

  lemma EntriesWithout(nodes: seq<Element>, k: nat)
    ensures EntriesOf(Without(nodes, k)) == Without(EntriesOf(nodes), k)
  {
  }

  datatype Outcome = Deleted | Exited

  class ProcessManager {
    var processes: Element?
    ghost var nodes: seq<Element>  // the elements in list order

    /** The next links spell `nodes`, the prev links spell it backwards, and no element occurs twice. */
    ghost predicate Valid()
      reads this, nodes
    {
      && processes == (if nodes == [] then null else nodes[0])
      && (forall i, j | 0 <= i < j < |nodes| :: nodes[i] != nodes[j])
      && (forall i {:trigger nodes[i].prev} | 0 <= i < |nodes| ::
            nodes[i].prev == if i == 0 then null else nodes[i - 1])
      && (forall i {:trigger nodes[i].next} | 0 <= i < |nodes| ::
            nodes[i].next == if i == |nodes| - 1 then null else nodes[i + 1])
    }

    ghost function Repr(): set<object>
      reads this
    {
      {this} + set n: object | n in nodes
    }

    ghost function Entries(): seq<Entry>
      reads this
    {
      EntriesOf(nodes)
    }

    constructor ()
      ensures Valid() && Entries() == []
    {
      processes, nodes := null, [];
    }

    /** pm_add. */
    method Add(pid: int, temporary: bool)
      requires Valid()
      modifies Repr()
      ensures Valid() && old(nodes) < nodes && fresh(nodes[|nodes| - 1])
      ensures Entries() == old(Entries()) + [Entry(pid, temporary)]
    {
      var i := processes;
      if i == null {
        var ple := new Element(pid, temporary, null);
        processes := ple;
        nodes := [ple];
        return;
      }
      ghost var k := 0;
      while i.next != null
        invariant 0 <= k < |nodes| && i == nodes[k]
        decreases |nodes| - k
      {
        i := i.next;
        k := k + 1;
      }
      var ple := new Element(pid, temporary, i);
      i.next := ple;
      nodes := nodes + [ple];
    }

    /** The walk of pm_del: stops at the first element with that pid, else at the last element. */
    method Walk(pid: int) returns (i: Element, ghost k: nat)
      requires Valid() && processes != null
      ensures k < |nodes| && i == nodes[k]
      ensures FirstWith(Entries(), pid) == if i.pid == pid then k else |nodes|
    {
      i, k := processes, 0;
      while i.pid != pid && i.next != null
        invariant k < |nodes| && i == nodes[k]
        invariant forall j | 0 <= j < k :: nodes[j].pid != pid
        decreases |nodes| - k
      {
        i := i.next;
        k := k + 1;
      }
      FirstIs(Entries(), pid, if i.pid == pid then k else |nodes|);
    }

    /** Takes one element out of the chain. The source forgets the rest of the list when that element is
        the head and frees the head twice (see DelAsWritten); here its successor becomes the new head. */
    method Unlink(i: Element, ghost k: nat)
      requires Valid() && k < |nodes| && i == nodes[k]
      modifies Repr()
      ensures Valid() && nodes == Without(old(nodes), k) && Repr() <= old(Repr())
    {
      assert i.prev == (if k == 0 then null else nodes[k - 1]);
      assert i.next == (if k == |nodes| - 1 then null else nodes[k + 1]);
      ghost var was := nodes;
      if i.prev == null {
        processes := i.next;
      } else {
        i.prev.next := i.next;
      }
      if i.next != null {
        i.next.prev := i.prev;
      }
      assert forall j | 0 <= j < |was| && j != k ::
          was[j].next == if j == |was| - 1 || (j + 1 == k && k == |was| - 1) then null
                         else if j + 1 == k then was[k + 1] else was[j + 1];
      assert forall j | 0 <= j < |was| && j != k ::
          was[j].prev == if j == 0 || (j == k + 1 && k == 0) then null
                         else if j == k + 1 then was[k - 1] else was[j - 1];
      nodes := was[..k] + was[k + 1..];
      assert forall j | 0 <= j < |nodes| :: nodes[j] == was[if j < k then j else j + 1];
    }

    /** pm_del. */
    method Del(pid: int) returns (r: Outcome)
      requires Valid()
      modifies Repr()
      ensures Valid()
      ensures r == Exited <==> FirstWith(old(Entries()), pid) == |old(nodes)|
      ensures nodes == Without(old(nodes), FirstWith(old(Entries()), pid)) && Repr() <= old(Repr())
      ensures Entries() == RemoveFirst(old(Entries()), pid)
    {
      if processes == null {
        return Exited;
      }
      var i, k := Walk(pid);
      if i.pid != pid {
        return Exited;
      }
      EntriesWithout(nodes, k);
      Unlink(i, k);
      return Deleted;
    }

    /** The state of the sweep when the elements before position `p` of `all` have been visited. */
    ghost predicate Sweeping(all: seq<Element>, p: nat, signals: seq<int>)
      reads this, nodes
    {
      && Valid() && TailOf(nodes, all, p)
      && signals == TemporaryPids(EntriesOf(all)[..p])
      && Entries() == RemoveEach(EntriesOf(all), signals)
    }

    /** One step of the walk: a temporary child is signalled and its pid deleted from the list. */
    method Visit(ple: Element, ghost all: seq<Element>, ghost p: nat, signals: seq<int>) returns (more: seq<int>)
      requires Sweeping(all, p, signals) && p < |all| && ple == all[p]
      modifies Repr()
      ensures Sweeping(all, p + 1, more) && Repr() <= old(Repr())
    {
      more := signals;
      TailHead(nodes, all, p);
      SweepStep(EntriesOf(all), p, signals);
      if ple.temporary {
        more := signals + [ple.pid];
        FirstAtMost(Entries(), ple.pid, |nodes| - (|all| - p));
        TailWithout(nodes, all, p, FirstWith(Entries(), ple.pid));
        var r := Del(ple.pid);
      } else {
        assert signals + [] == signals;
      }
    }

    /** pm_kill_temporary. The successor is fetched before the deletion, where the source reads it from the
        freed element (see KillAsWritten). */
    method KillTemporary() returns (signals: seq<int>)
      requires Valid()
      modifies Repr()
      ensures Valid()
      ensures signals == TemporaryPids(old(Entries()))
      ensures Entries() == RemoveEach(old(Entries()), TemporaryPids(old(Entries())))
    {
      signals := [];
      ghost var all, p := nodes, 0;
      var ple := processes;
      while ple != null
        invariant Sweeping(all, p, signals) && Repr() <= old(Repr())
        invariant ple == if p == |all| then null else all[p]
        decreases |all| - p
      {
        TailHead(nodes, all, p);
        var next := ple.next;
        signals := Visit(ple, all, p, signals);
        p := p + 1;
        ple := next;
      }
      assert EntriesOf(all)[..p] == EntriesOf(all);
    }
  }

  /** From position `p` on, `all` is still the tail of `nodes`, whose other elements come from `all` too. */
  ghost predicate TailOf<T>(nodes: seq<T>, all: seq<T>, p: nat) {
    && p <= |all| && |all| - p <= |nodes|
    && nodes[|nodes| - (|all| - p)..] == all[p..]
    && forall n | n in nodes :: n in all
  }

  lemma TailHead<T>(nodes: seq<T>, all: seq<T>, p: nat)
    requires TailOf(nodes, all, p) && p < |all|
    ensures var here := |nodes| - (|all| - p);
            nodes[here] == all[p] && TailOf(nodes, all, p + 1) &&
            (p + 1 < |all| ==> nodes[here + 1] == all[p + 1])
  {
    var here := |nodes| - (|all| - p);
    assert nodes[here..][0] == all[p..][0];
    assert nodes[here..][1..] == nodes[here + 1..] && all[p..][1..] == all[p + 1..];
    if p + 1 < |all| {
      assert nodes[here..][1] == all[p..][1];
    }
  }

  lemma TailWithout<T>(nodes: seq<T>, all: seq<T>, p: nat, k: nat)
    requires TailOf(nodes, all, p) && p < |all| && k <= |nodes| - (|all| - p)
    ensures TailOf(Without(nodes, k), all, p + 1)
  {
    var here := |nodes| - (|all| - p);
    assert Without(nodes, k)[here..] == nodes[here + 1..];
    assert nodes[here..][1..] == nodes[here + 1..] && all[p..][1..] == all[p + 1..];
  }

  lemma SweepStep(before: seq<Entry>, p: nat, signals: seq<int>)
    requires p < |before| && signals == TemporaryPids(before[..p])
    ensures var e := before[p];
            var more := signals + if e.temporary then [e.pid] else [];
            && more == TemporaryPids(before[..p + 1])
            && RemoveEach(before, more) ==
               if e.temporary then RemoveFirst(RemoveEach(before, signals), e.pid) else RemoveEach(before, signals)
  {
    assert before[..p + 1] == before[..p] + [before[p]];
    TemporaryPidsLast(before[..p], before[p]);
    RemoveEachLast(before, signals, before[p].pid);
    assert signals + [] == signals;
  }

  lemma FirstAtMost(s: seq<Entry>, pid: int, k: nat)
    requires k < |s| && s[k].pid == pid
    ensures FirstWith(s, pid) <= k
  {
  }

  lemma {:induction false} TemporaryPidsLast(s: seq<Entry>, e: Entry)
    ensures TemporaryPids(s + [e]) == TemporaryPids(s) + if e.temporary then [e.pid] else []
  {
    if s != [] {
      TemporaryPidsLast(s[1..], e);
      assert (s + [e])[1..] == s[1..] + [e];
    }
  }

  lemma {:induction false} RemoveEachLast(s: seq<Entry>, pids: seq<int>, pid: int)
    ensures RemoveEach(s, pids + [pid]) == RemoveFirst(RemoveEach(s, pids), pid)
    decreases |pids|
  {
    if pids != [] {
      RemoveEachLast(RemoveFirst(s, pids[0]), pids[1..], pid);
      assert (pids + [pid])[1..] == pids[1..] + [pid];
    }
  }

  lemma FirstIs(s: seq<Entry>, pid: int, k: nat)
    requires k <= |s| && (k < |s| ==> s[k].pid == pid) && forall j | 0 <= j < k :: s[j].pid != pid
    ensures FirstWith(s, pid) == k
  {
  }

  // ----- when the sweep does what it is for -----

  /** No temporary entry shares its pid with an earlier permanent one. */
  ghost predicate NoShadow(s: seq<Entry>) {
    forall i, j | 0 <= i < j < |s| && !s[i].temporary && s[j].temporary :: s[i].pid != s[j].pid
  }

  function OfPid(s: seq<Entry>, pid: int): seq<Entry> {
    if s == [] then [] else (if s[0].pid == pid then [s[0]] else []) + OfPid(s[1..], pid)
  }

  function Temps(s: seq<Entry>): (n: nat)
    ensures n <= |s|
  {
    if s == [] then 0 else (if s[0].temporary then 1 else 0) + Temps(s[1..])
  }

  function Count(pids: seq<int>, pid: int): nat {
    if pids == [] then 0 else (if pids[0] == pid then 1 else 0) + Count(pids[1..], pid)
  }

  function Drop<T>(s: seq<T>, n: nat): seq<T> {
    if n <= |s| then s[n..] else []
  }

  lemma {:induction false} OfPidSplits(a: seq<Entry>, b: seq<Entry>, pid: int)
    ensures OfPid(a + b, pid) == OfPid(a, pid) + OfPid(b, pid)
  {
    if a == [] {
      assert a + b == b;
    } else {
      assert (a + b)[0] == a[0] && (a + b)[1..] == a[1..] + b;
      OfPidSplits(a[1..], b, pid);
      var head := if a[0].pid == pid then [a[0]] else [];
      assert head + (OfPid(a[1..], pid) + OfPid(b, pid)) == head + OfPid(a[1..], pid) + OfPid(b, pid);
    }
  }

  lemma {:induction false} TempsSplits(a: seq<Entry>, b: seq<Entry>)
    ensures Temps(a + b) == Temps(a) + Temps(b)
  {
    if a == [] {
      assert a + b == b;
    } else {
      assert (a + b)[0] == a[0] && (a + b)[1..] == a[1..] + b;
      TempsSplits(a[1..], b);
    }
  }

  lemma OfPidNone(s: seq<Entry>, pid: int)
    requires forall j | 0 <= j < |s| :: s[j].pid != pid
    ensures OfPid(s, pid) == []
  {
  }

  lemma OfPidOne(e: Entry, pid: int)
    ensures OfPid([e], pid) == if e.pid == pid then [e] else []
  {
    assert [e][1..] == [];
  }

  /** The entries of the pid at position `i`, around that position. */
  lemma OfPidAround(s: seq<Entry>, i: nat, pid: int)
    requires i < |s| && s[i].pid == pid
    ensures OfPid(s, pid) == OfPid(s[..i], pid) + [s[i]] + OfPid(s[i + 1..], pid)
    ensures OfPid(s, pid)[|OfPid(s[..i], pid)|] == s[i]
  {
    var before, x, after := s[..i], s[i], s[i + 1..];
    assert s == before + [x] + after;
    OfPidSplits(before + [x], after, pid);
    OfPidSplits(before, [x], pid);
    OfPidOne(x, pid);
  }

  /** The entries of any other pid, around a position. */
  lemma OfPidBeside(s: seq<Entry>, i: nat, pid: int)
    requires i < |s| && s[i].pid != pid
    ensures OfPid(s, pid) == OfPid(s[..i], pid) + OfPid(s[i + 1..], pid)
  {
    var before, x, after := s[..i], s[i], s[i + 1..];
    assert s == before + ([x] + after);
    OfPidSplits(before, [x] + after, pid);
    assert ([x] + after)[1..] == after;
  }

  /** Removing the first entry of a pid takes the first of that pid's entries and leaves all others. */
  lemma RemoveFirstProjects(s: seq<Entry>, pid: int, q: int)
    ensures OfPid(RemoveFirst(s, pid), q) == Drop(OfPid(s, q), if pid == q then 1 else 0)
  {
    var k := FirstWith(s, pid);
    if k == |s| {
      if pid == q {
        OfPidNone(s, pid);
      }
    } else {
      OfPidSplits(s[..k], s[k + 1..], q);
      if pid == q {
        OfPidAround(s, k, pid);
        OfPidNone(s[..k], pid);
        var kept := OfPid(s[k + 1..], pid);
        assert ([] + [s[k]] + kept)[1..] == kept;
      } else {
        OfPidBeside(s, k, q);
      }
    }
  }

  lemma {:induction false} RemoveEachProjects(s: seq<Entry>, pids: seq<int>, q: int)
    ensures OfPid(RemoveEach(s, pids), q) == Drop(OfPid(s, q), Count(pids, q))
    decreases |pids|
  {
    if pids != [] {
      RemoveFirstProjects(s, pids[0], q);
      RemoveEachProjects(RemoveFirst(s, pids[0]), pids[1..], q);
    }
  }

  lemma {:induction false} SweepCounts(s: seq<Entry>, pid: int)
    ensures Count(TemporaryPids(s), pid) == Temps(OfPid(s, pid))
  {
    if s != [] {
      SweepCounts(s[1..], pid);
      var e := s[0];
      var pids, kept := TemporaryPids(s[1..]), OfPid(s[1..], pid);
      assert ([e.pid] + pids)[1..] == pids && [] + pids == pids;
      assert ([e] + kept)[1..] == kept && [] + kept == kept;
    }
  }

  lemma {:induction false} PermanentsOnly(s: seq<Entry>, pid: int)
    ensures Temps(OfPid(Permanents(s), pid)) == 0
  {
    if s != [] {
      PermanentsOnly(s[1..], pid);
      var e := s[0];
      var rest := Permanents(s[1..]);
      var kept := OfPid(rest, pid);
      assert ([e] + rest)[1..] == rest && [] + rest == rest;
      assert ([e] + kept)[1..] == kept && [] + kept == kept;
    }
  }

  lemma {:induction false} RemoveEachSkips(x: Entry, t: seq<Entry>, pids: seq<int>)
    requires x.pid !in pids
    ensures RemoveEach([x] + t, pids) == [x] + RemoveEach(t, pids)
    decreases |pids|
  {
    if pids != [] {
      var s := [x] + t;
      assert s[1..] == t;
      assert RemoveFirst(s, pids[0]) == [x] + RemoveFirst(t, pids[0]);
      RemoveEachSkips(x, RemoveFirst(t, pids[0]), pids[1..]);
    }
  }

  lemma {:induction false} NotListed(s: seq<Entry>, pid: int)
    requires forall j | 0 <= j < |s| && s[j].temporary :: s[j].pid != pid
    ensures pid !in TemporaryPids(s)
  {
    if s != [] {
      NotListed(s[1..], pid);
    }
  }

  lemma {:induction false} SweepKeepsPermanents(s: seq<Entry>)
    requires NoShadow(s)
    ensures RemoveEach(s, TemporaryPids(s)) == Permanents(s)
  {
    if s != [] {
      var x, t := s[0], s[1..];
      assert s == [x] + t;
      SweepKeepsPermanents(t);
      if x.temporary {
        assert RemoveFirst(s, x.pid) == t;
        assert TemporaryPids(s)[1..] == TemporaryPids(t);
      } else {
        NotListed(t, x.pid);
        assert TemporaryPids(s) == TemporaryPids(t);
        RemoveEachSkips(x, t, TemporaryPids(t));
      }
    }
  }

  lemma {:induction false} PermanentLowersTemps(s: seq<Entry>, k: nat)
    requires k < |s| && !s[k].temporary
    ensures Temps(s) < |s|
  {
    if k > 0 {
      PermanentLowersTemps(s[1..], k - 1);
    }
  }

  lemma {:induction false} TemporaryCounts(s: seq<Entry>, k: nat)
    requires k < |s| && s[k].temporary
    ensures Temps(s) > 0
  {
    if k > 0 {
      TemporaryCounts(s[1..], k - 1);
    }
  }

  /** The entries of one pid, split around a permanent one that a temporary one follows. */
  lemma ShadowSurvives(f1: seq<Entry>, x: Entry, f2: seq<Entry>)
    requires !x.temporary && Temps(f2) > 0
    ensures var f := f1 + [x] + f2; Temps(Drop(f, Temps(f))) > 0
  {
    var f := f1 + [x] + f2;
    var k := Temps(f);
    assert f == f[..k] + f[k..];
    TempsSplits(f[..k], f[k..]);
    if k <= |f1| {
      assert f[k..] == f1[k..] + [x] + f2;
      TempsSplits(f1[k..] + [x], f2);
    } else {
      assert f[..k][|f1|] == x;
      PermanentLowersTemps(f[..k], |f1|);
    }
  }

  lemma ShadowedSweepFails(s: seq<Entry>, i: nat, j: nat)
    requires i < j < |s| && !s[i].temporary && s[j].temporary && s[i].pid == s[j].pid
    ensures RemoveEach(s, TemporaryPids(s)) != Permanents(s)
  {
    var pid, x, after := s[i].pid, s[i], s[i + 1..];
    OfPidAround(s, i, pid);
    OfPidAround(after, j - i - 1, pid);
    var f2 := OfPid(after, pid);
    TemporaryCounts(f2, |OfPid(after[..j - i - 1], pid)|);
    ShadowSurvives(OfPid(s[..i], pid), x, f2);
    RemoveEachProjects(s, TemporaryPids(s), pid);
    SweepCounts(s, pid);
    PermanentsOnly(s, pid);
  }

  /** Because the sweep deletes by pid, it leaves exactly the permanent entries if and only if no
      temporary entry comes after a permanent one with the same pid. */
  lemma SweepIsExact(s: seq<Entry>)
    ensures RemoveEach(s, TemporaryPids(s)) == Permanents(s) <==> NoShadow(s)
  {
    if NoShadow(s) {
      SweepKeepsPermanents(s);
    } else {
      var i, j :| 0 <= i < j < |s| && !s[i].temporary && s[j].temporary && s[i].pid == s[j].pid;
      ShadowedSweepFails(s, i, j);
    }
  }

  // ----- histories -----

  datatype Op = AddOp(pid: int, temporary: bool) | DelOp(pid: int)

  function Apply(s: seq<Entry>, op: Op): seq<Entry> {
    match op
    case AddOp(pid, temporary) => s + [Entry(pid, temporary)]
    case DelOp(pid) => RemoveFirst(s, pid)
  }

  function Replay(ops: seq<Op>): seq<Entry> {
    if ops == [] then [] else Apply(Replay(ops[..|ops| - 1]), ops[|ops| - 1])
  }

  /** One step of a history; false when it ends the process. */
  method Perform(m: ProcessManager, op: Op) returns (goes: bool)
    requires m.Valid()
    modifies m.Repr()
    ensures m.Valid() && fresh(m.Repr() - old(m.Repr())) && m.Entries() == Apply(old(m.Entries()), op)
    ensures goes <==> op.AddOp? || FirstWith(old(m.Entries()), op.pid) < |old(m.Entries())|
  {
    match op {
      case AddOp(pid, temporary) =>
        m.Add(pid, temporary);
        goes := true;
      case DelOp(pid) =>
        var r := m.Del(pid);
        goes := r == Deleted;
    }
  }

  /** Any history keeps the links well formed and the list equal to the replayed sequence, until a
      deletion of an unknown pid ends the process. */
  method Run(ops: seq<Op>) returns (m: ProcessManager, done: nat)
    ensures done <= |ops| && m.Valid() && m.Entries() == Replay(ops[..done])
    ensures done < |ops| ==>
              ops[done].DelOp? && FirstWith(Replay(ops[..done]), ops[done].pid) == |Replay(ops[..done])|
  {
    m := new ProcessManager();
    done := 0;
    while done < |ops|
      invariant done <= |ops| && m.Valid() && fresh(m.Repr())
      invariant m.Entries() == Replay(ops[..done])
    {
      assert ops[..done + 1][..done] == ops[..done];
      var goes := Perform(m, ops[done]);
      if !goes {
        return;
      }
      done := done + 1;
    }
  }

  // ----- the source's own steps -----

  datatype Result<T> = Ok(value: T) | Exit | UsedAfterFree

  /** pm_del as written: a head element is freed, its successors are dropped from the list, and the freed
      element is then read and freed again. */
  function DelAsWritten(s: seq<Entry>, pid: int): Result<seq<Entry>> {
    var k := FirstWith(s, pid);
    if k == |s| then Exit
    else if k == 0 then UsedAfterFree
    else Ok(Without(s, k))
  }

  /** The deletion as written does what is meant exactly when the first match is not the head. */
  lemma DelAsWrittenIsExact(s: seq<Entry>, pid: int)
    requires FirstWith(s, pid) < |s|
    ensures DelAsWritten(s, pid) == Ok(RemoveFirst(s, pid)) <==> s[0].pid != pid
  {
    assert FirstWith(s, pid) == 0 <==> s[0].pid == pid;
  }

  /** pm_kill_temporary as written: after the deletion the visited element's `next` is read, which is safe
      only if the deletion hit some earlier element of the same pid instead. */
  function KillAsWritten(s: seq<Entry>, from: nat): Result<seq<Entry>>
    requires from <= |s|
    decreases |s| - from
  {
    if from == |s| then Ok(s)
    else if !s[from].temporary then KillAsWritten(s, from + 1)
    else
      var r := DelAsWritten(s, s[from].pid);
      if r.Ok? && FirstWith(s, s[from].pid) < from then KillAsWritten(r.value, from) else UsedAfterFree
  }

  lemma {:induction false} KillAsWrittenSweeps(s: seq<Entry>, from: nat)
    requires from <= |s| && KillAsWritten(s, from).Ok?
    ensures KillAsWritten(s, from).value == RemoveEach(s, TemporaryPids(s[from..]))
    decreases |s| - from
  {
    if from < |s| {
      assert s[from..][1..] == s[from + 1..];
      if s[from].temporary {
        var s' := RemoveFirst(s, s[from].pid);
        assert s'[from..] == s[from + 1..];
        KillAsWrittenSweeps(s', from);
        assert TemporaryPids(s[from..])[1..] == TemporaryPids(s[from + 1..]);
      } else {
        KillAsWrittenSweeps(s, from + 1);
        assert TemporaryPids(s[from..]) == TemporaryPids(s[from + 1..]);
      }
    }
  }

  lemma {:induction false} KillAsWrittenFaults(s: seq<Entry>, from: nat, k: nat)
    requires NoShadow(s) && from <= k < |s| && s[k].temporary
    requires forall j | 0 <= j < from :: !s[j].temporary
    ensures KillAsWritten(s, from) == UsedAfterFree
    decreases |s| - from
  {
    if s[from].temporary {
      FirstIs(s, s[from].pid, from);
    } else {
      KillAsWrittenFaults(s, from + 1, k);
    }
  }

  lemma {:induction false} NoTemporaries(s: seq<Entry>)
    requires forall e | e in s :: !e.temporary
    ensures Permanents(s) == s && TemporaryPids(s) == []
  {
    if s != [] {
      NoTemporaries(s[1..]);
    }
  }

  lemma {:induction false} KillAsWrittenIdles(s: seq<Entry>, from: nat)
    requires from <= |s| && forall e | e in s :: !e.temporary
    ensures KillAsWritten(s, from) == Ok(s)
    decreases |s| - from
  {
    if from < |s| {
      assert s[from] in s;
      KillAsWrittenIdles(s, from + 1);
    }
  }

  /** The sweep as written does what is meant exactly when there is nothing to sweep. */
  lemma KillAsWrittenIsExact(s: seq<Entry>)
    ensures KillAsWritten(s, 0) == Ok(Permanents(s)) <==> forall e | e in s :: !e.temporary
  {
    if forall e | e in s :: !e.temporary {
      NoTemporaries(s);
      KillAsWrittenIdles(s, 0);
    } else {
      var k :| 0 <= k < |s| && s[k].temporary;
      SweepIsExact(s);
      if NoShadow(s) {
        KillAsWrittenFaults(s, 0, k);
      } else if KillAsWritten(s, 0).Ok? {
        KillAsWrittenSweeps(s, 0);
        assert s[0..] == s;
      }
    }
  }
}
