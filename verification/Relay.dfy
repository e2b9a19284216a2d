/** The relay between an intercepted client and its target: one connection's event loop in three modes,
    with protocol identification, a single connection attempt with a fallback, and payload handlers. */
module Relay {
  import opened CText
  import HttpCollector
  import HttpFields

  datatype Proto = SMTP | FTP | FTP_anonym | FTP_data | HTTP | IRC | DNS | SSL | UNKNOWN_UDP | UNKNOWN

  datatype Mode = FullEmulation | HalfProxy | FullProxy

  /** A socket address; Unset is one that the source has not initialised. */
  datatype Addr = Unset | Addr(ip: string, port: nat)

  datatype Config = Config(mode: Mode, nepenthes: bool, mitm: bool, httpIp: string, ftpIp: string,
                           ircIp: string, smtpIp: string, nepenthesIp: string, sslPort: nat)

  const NEPENTHES_PORTS: set<nat> := {42, 135, 139, 445, 1023, 1025, 1433, 3127, 3128}

  // ----- the two directions -----

  datatype Write = Refused | Wrote(n: nat)

  /** One direction of the relay: what was read, what was written, the payload whose write failed or was never
      tried, whether some write took less than it was offered, and whether a handler was let edit a payload. */
  datatype Wire = Wire(read: string, written: string, unsent: string, short: bool, edited: bool)

  const IDLE_WIRE := Wire("", "", "", false, false)

  /** A payload `data` was read, handed on as `out`, and written as `w` says. */
  function Passed(wire: Wire, data: string, out: string, edited: bool, w: Write): Wire
    requires w.Wrote? ==> w.n <= |out|
  {
    Wire(wire.read + data,
         if w.Wrote? then wire.written + out[..w.n] else wire.written,
         if w.Wrote? then "" else data,
         wire.short || (w.Wrote? && w.n < |out|),
         wire.edited || edited)
  }

  // ----- the connection -----

  datatype Attempt = Attempt(addr: Addr, protocol: Proto, ok: bool)

  /** `shut` says that the client's socket has been shut down although the loop goes on. */
  datatype State = State(protocol: Proto, dest: string, dport: nat, target: Addr, connected: bool,
                         destOffline: bool, shut: bool, finished: bool, down: Wire, up: Wire, attempts: seq<Attempt>)

  function IpOf(a: Addr): string {
    if a.Addr? then a.ip else ""
  }

  function PortOf(a: Addr): nat {
    if a.Addr? then a.port else 0
  }

  /** Identification by port, the only means of full emulation without a telling payload. */
  function ByPort(dport: nat): Proto {
    if dport == 21 then FTP else if dport == 25 then SMTP else if dport == 6667 then IRC else UNKNOWN
  }

  /** The handlers' determine_target: the configured local server of the protocol. */
  function Redirect(cfg: Config, p: Proto, target: Addr): Addr {
    if cfg.mode.FullProxy? then target
    else match p
         case HTTP => Addr(cfg.httpIp, 80)
         case FTP => Addr(cfg.ftpIp, 21)
         case FTP_anonym => Addr(cfg.ftpIp, 21)
         case IRC => Addr(cfg.ircIp, 6667)
         case SMTP => Addr(cfg.smtpIp, 25)
         case _ => target
  }

  /** tcphandler_determine_target. */
  function DetermineTarget(cfg: Config, s: State, p: Proto): State {
    if cfg.mode.FullEmulation? then
      if p.UNKNOWN? then s.(destOffline := true, dest := "")
      else
        var t := Redirect(cfg, p, s.target);
        s.(destOffline := true, target := t, dest := IpOf(t), dport := PortOf(t))
    else s.(target := Addr(s.dest, s.dport))
  }

  function Connect(s: State, ok: bool): State {
    s.(attempts := s.attempts + [Attempt(s.target, s.protocol, ok)], connected := ok)
  }

  /** tcphandler_handle_unknown. When the attempt fails the client's socket is shut down. */
  function HandleUnknown(cfg: Config, s: State, ok: bool): State {
    if cfg.nepenthes && s.dport in NEPENTHES_PORTS then
      s.(target := Addr(cfg.nepenthesIp, PortOf(s.target)), dest := cfg.nepenthesIp)
    else
      var app := if cfg.mode.FullEmulation? then ByPort(s.dport) else UNKNOWN;
      var t := DetermineTarget(cfg, if cfg.mode.FullEmulation? then s.(protocol := app) else s, app);
      if t.connected then t
      else if ok then Connect(t, ok)
      else Connect(t, ok).(shut := true)
  }

  /** The connection to an identified protocol's target, with the local server as fallback in half proxy mode. */
  function ConnectIdentified(cfg: Config, s: State, ok: bool, fallbackOk: bool): State {
    var t := Connect(DetermineTarget(cfg, s, s.protocol), ok);
    if ok then t
    else if cfg.mode.HalfProxy? then
      var addr := Redirect(cfg, s.protocol, t.target);
      var u := Connect(t.(target := addr, dest := IpOf(addr), destOffline := true), fallbackOk);
      if fallbackOk then u else u.(finished := true)
    else t.(finished := true)
  }

  /** A payload that shows a protocol; intercepted TLS is sent to the local interceptor instead. */
  function Recognised(cfg: Config, s: State, seen: Proto): State {
    var t := s.(protocol := seen);
    if seen.SSL? && cfg.mitm && !cfg.mode.FullEmulation? then t.(dest := "127.0.0.1", dport := cfg.sslPort) else t
  }

  /** What a client payload does while the protocol is unknown. */
  function Identify(cfg: Config, s: State, seen: Proto, ok: bool, fallbackOk: bool): State {
    var t := Recognised(cfg, s, seen);
    if seen.UNKNOWN? then HandleUnknown(cfg, t, ok)
    else if t.connected then t
    else ConnectIdentified(cfg, t, ok, fallbackOk)
  }

  /** The handlers that may change a payload: the HTTP server side when the real server is offline, and the SMTP
      and IRC client sides. */
  predicate EditsDown(s: State) {
    s.protocol.HTTP? && s.destOffline
  }

  predicate EditsUp(s: State) {
    s.protocol.SMTP? || s.protocol.IRC?
  }

  // ----- the event loop -----

  /** What select reports, with the environment's answers: the protocol that the payload shows, the payload as an
      editing handler leaves it, the results of connecting and of writing. For a server payload: whether the HTTP
      handler is in the middle of a body, the server type it finds in its database, and the byte it never sets.
      ServerFails is a failing read, which a target that is not connected yields too; the source takes the result
      for a length and the process ends. */
  datatype Event =
    | ServerData(data: string, seen: Proto, collecting: bool, serverType: string, stray: char, w: Write)
    | ServerClosed
    | ServerFails
    | ClientData(data: string, seen: Proto, edit: string, ok: bool, fallbackOk: bool, w: Write)
    | ClientClosed
    | Timeout(ok: bool)

  /** The connection's state when a client payload reaches its handler. */
  function BeforeHandler(cfg: Config, s: State, e: Event): State
    requires e.ClientData?
  {
    if s.protocol.UNKNOWN? then Identify(cfg, s, e.seen, e.ok, e.fallbackOk) else s
  }

  function OutUp(t: State, e: Event): string
    requires e.ClientData?
  {
    if EditsUp(t) then e.edit else e.data
  }

  function OutDown(t: State, e: Event): string
    requires e.ServerData?
  {
    if t.protocol.HTTP?
    then HttpCollector.ServerPayload(t.destOffline, e.collecting, e.data, e.serverType, e.stray)
    else e.data
  }

  function Seen(s: State, seen: Proto): State {
    if s.protocol.UNKNOWN? then s.(protocol := seen) else s
  }

  /** The events the environment can produce: no data without a connection, reads of at least one byte, writes of
      at most what is offered and none to a target that is not connected or to a client that is shut down. A socket
      that is shut down is always ready, so there is no timeout then. */
  predicate Possible(cfg: Config, s: State, e: Event) {
    && !s.finished
    && match e
       case ServerData(data, seen, _, _, _, w) =>
         s.connected && data != "" && (w.Wrote? ==> !s.shut && w.n <= |OutDown(Seen(s, seen), e)|)
       case ServerClosed => s.connected
       case ClientData(data, _, _, _, _, w) =>
         data != "" &&
         var t := BeforeHandler(cfg, s, e);
         w.Wrote? ==> t.connected && w.n <= |OutUp(t, e)|
       case Timeout(_) => !s.shut
       case _ => true
  }

  /** The handler and the write of a server payload. */
  function PassDown(t: State, e: Event): State
    requires e.ServerData? && (e.w.Wrote? ==> e.w.n <= |OutDown(t, e)|)
  {
    t.(down := Passed(t.down, e.data, OutDown(t, e), EditsDown(t), e.w), finished := e.w.Refused?)
  }

  /** The handler and the write of a client payload, unless the connection attempts have ended the loop. */
  function PassUp(t: State, e: Event): State
    requires e.ClientData? && (e.w.Wrote? ==> e.w.n <= |OutUp(t, e)|)
  {
    if t.finished then t.(up := Passed(t.up, e.data, e.data, false, Refused))
    else t.(up := Passed(t.up, e.data, OutUp(t, e), EditsUp(t), e.w), finished := e.w.Refused?)
  }

  /** One round of the loop. */
  function Step(cfg: Config, s: State, e: Event): State
    requires Possible(cfg, s, e)
  {
    match e
    case ServerData(_, seen, _, _, _, _) => PassDown(Seen(s, seen), e)
    case ServerClosed => s.(finished := true)
    case ServerFails => s.(finished := true)
    case ClientData(_, _, _, _, _, _) => PassUp(BeforeHandler(cfg, s, e), e)
    case ClientClosed => s.(finished := true)
    case Timeout(ok) => if s.protocol.UNKNOWN? then HandleUnknown(cfg, s, ok) else s.(finished := true)
  }

  /** While the loop runs, any close, failed read or timeout can come, and from a side that is connected and not shut
      down any payload, of which the other side takes any part or refuses it. */
  lemma AnythingCanCome(cfg: Config, s: State, e: Event)
    requires !s.finished
    requires match e
             case ServerData(data, _, _, _, _, w) =>
               s.connected && |data| > 0 && (w.Refused? || (!s.shut && w.n <= |OutDown(Seen(s, e.seen), e)|))
             case ClientData(data, _, _, _, _, w) =>
               |data| > 0 &&
               (w.Refused? || (s.connected && !s.protocol.UNKNOWN? && w.n <= |OutUp(s, e)|))
             case ServerClosed => s.connected
             case Timeout(_) => !s.shut
             case _ => true
    ensures Possible(cfg, s, e)
  {
  }

  /** The state before the loop: no protocol known, the target determined once. */
  function Start(cfg: Config, dest: string, dport: nat): State {
    var s := State(UNKNOWN, dest, dport, Unset, false, false, false, false, IDLE_WIRE, IDLE_WIRE, []);
    DetermineTarget(cfg, s, UNKNOWN)
  }

  function Run(cfg: Config, dest: string, dport: nat, events: seq<Event>): Option<State> {
    if events == [] then Some(Start(cfg, dest, dport))
    else
      var s := Run(cfg, dest, dport, events[..|events| - 1]);
      if s.Some? && Possible(cfg, s.value, events[|events| - 1])
      then Some(Step(cfg, s.value, events[|events| - 1]))
      else None
  }

  // ----- transparency -----

  /** Nothing is added, and nothing is missing exactly when no write was short. */
  ghost predicate Faithful(w: Wire) {
    !w.edited ==>
      && |w.written| + |w.unsent| <= |w.read|
      && (w.written + w.unsent == w.read <==> !w.short)
      && (w.short ==> |w.written| + |w.unsent| < |w.read|)
  }

  lemma PassedIsFaithful(wire: Wire, data: string, out: string, edited: bool, w: Write)
    requires Faithful(wire) && wire.unsent == "" && (w.Wrote? ==> w.n <= |out|) && (edited || out == data)
    ensures Faithful(Passed(wire, data, out, edited, w))
  {
    var r := Passed(wire, data, out, edited, w);
    assert wire.written + "" == wire.written;
    if !r.edited && w.Wrote? {
      assert w.n == |data| ==> out[..w.n] == data;
      assert r.written + "" == r.written;
    }
  }

  predicate OnlyUnsentAtEnd(s: State) {
    !s.finished ==> s.down.unsent == "" && s.up.unsent == ""
  }

  ghost predicate BothFaithful(s: State) {
    Faithful(s.down) && Faithful(s.up) && OnlyUnsentAtEnd(s)
  }

  lemma StepIsFaithful(cfg: Config, s: State, e: Event)
    requires BothFaithful(s) && Possible(cfg, s, e)
    ensures BothFaithful(Step(cfg, s, e))
  {
    match e
    case ServerData(data, seen, _, _, _, w) =>
      var t := Seen(s, seen);
      PassedIsFaithful(s.down, data, OutDown(t, e), EditsDown(t), w);
    case ClientData(data, _, _, _, _, w) =>
      var t := BeforeHandler(cfg, s, e);
      WiresKept(cfg, s, e);
      if t.finished {
        PassedIsFaithful(s.up, data, data, false, Refused);
      } else {
        PassedIsFaithful(s.up, data, OutUp(t, e), EditsUp(t), w);
      }
    case Timeout(ok) => UnknownKeepsWires(cfg, s, ok);
    case _ =>
  }

  /** The bytes that the target has sent, in order. */
  function FromServer(events: seq<Event>): string {
    if events == [] then ""
    else
      var e := events[|events| - 1];
      FromServer(events[..|events| - 1]) + if e.ServerData? then e.data else ""
  }

  /** The bytes that the client has sent, in order. */
  function FromClient(events: seq<Event>): string {
    if events == [] then ""
    else
      var e := events[|events| - 1];
      FromClient(events[..|events| - 1]) + if e.ClientData? then e.data else ""
  }

  lemma StepReads(cfg: Config, s: State, e: Event)
    requires Possible(cfg, s, e)
    ensures Step(cfg, s, e).down.read == s.down.read + if e.ServerData? then e.data else ""
    ensures Step(cfg, s, e).up.read == s.up.read + if e.ClientData? then e.data else ""
  {
    assert s.down.read + "" == s.down.read && s.up.read + "" == s.up.read;
    match e
    case ClientData(_, _, _, _, _, _) => WiresKept(cfg, s, e);
    case Timeout(ok) => UnknownKeepsWires(cfg, s, ok);
    case _ =>
  }

  /** On every run, in each direction that no handler was let edit: nothing but a last unsent payload is missing from
      what was sent exactly when no write was short, and nothing is added. */
  lemma {:induction false} RelayIsFaithful(cfg: Config, dest: string, dport: nat, events: seq<Event>)
    requires Run(cfg, dest, dport, events).Some?
    ensures var s := Run(cfg, dest, dport, events).value;
            BothFaithful(s) && s.down.read == FromServer(events) && s.up.read == FromClient(events)
  {
    if events != [] {
      var s, e := Run(cfg, dest, dport, events[..|events| - 1]).value, events[|events| - 1];
      RelayIsFaithful(cfg, dest, dport, events[..|events| - 1]);
      StepIsFaithful(cfg, s, e);
      StepReads(cfg, s, e);
    }
  }

  lemma UnknownKeepsWires(cfg: Config, s: State, ok: bool)
    ensures var t := HandleUnknown(cfg, s, ok); t.down == s.down && t.up == s.up && t.finished == s.finished
  {
  }

  lemma ConnectingKeepsWires(cfg: Config, s: State, ok: bool, fallbackOk: bool)
    ensures var t := ConnectIdentified(cfg, s, ok, fallbackOk); t.down == s.down && t.up == s.up
  {
  }

  /** Identifying and connecting leave both directions alone. */
  lemma WiresKept(cfg: Config, s: State, e: Event)
    requires e.ClientData?
    ensures var t := BeforeHandler(cfg, s, e); t.down == s.down && t.up == s.up
  {
    var t := Recognised(cfg, s, e.seen);
    UnknownKeepsWires(cfg, t, e.ok);
    ConnectingKeepsWires(cfg, t, e.ok, e.fallbackOk);
  }

  // ----- modes -----

  /** An identified protocol stays. */
  lemma ProtocolStays(cfg: Config, s: State, e: Event)
    requires Possible(cfg, s, e) && !s.protocol.UNKNOWN?
    ensures Step(cfg, s, e).protocol == s.protocol
  {
  }

  /** Every attempt but a last successful one has failed: at most one succeeds. */
  predicate OneSuccess(s: State) {
    && (forall i | 0 <= i < |s.attempts| - 1 :: !s.attempts[i].ok)
    && (s.connected <==> s.attempts != [] && s.attempts[|s.attempts| - 1].ok)
  }

  lemma ConnectOnce(s: State, ok: bool)
    requires OneSuccess(s) && !s.connected
    ensures OneSuccess(Connect(s, ok))
  {
  }

  lemma UnknownConnectsOnce(cfg: Config, s: State, ok: bool)
    requires OneSuccess(s)
    ensures OneSuccess(HandleUnknown(cfg, s, ok))
  {
    var app := if cfg.mode.FullEmulation? then ByPort(s.dport) else UNKNOWN;
    var t := DetermineTarget(cfg, if cfg.mode.FullEmulation? then s.(protocol := app) else s, app);
    if !t.connected {
      ConnectOnce(t, ok);
    }
  }

  lemma IdentifiedConnectsOnce(cfg: Config, s: State, ok: bool, fallbackOk: bool)
    requires OneSuccess(s) && !s.connected
    ensures OneSuccess(ConnectIdentified(cfg, s, ok, fallbackOk))
  {
    var d := DetermineTarget(cfg, s, s.protocol);
    ConnectOnce(d, ok);
    var t := Connect(d, ok);
    if !ok && cfg.mode.HalfProxy? {
      var addr := Redirect(cfg, s.protocol, t.target);
      ConnectOnce(t.(target := addr, dest := IpOf(addr), destOffline := true), fallbackOk);
    }
  }

  lemma IdentifyConnectsOnce(cfg: Config, s: State, e: Event)
    requires OneSuccess(s) && e.ClientData?
    ensures OneSuccess(BeforeHandler(cfg, s, e))
  {
    var t := Recognised(cfg, s, e.seen);
    UnknownConnectsOnce(cfg, t, e.ok);
    if !s.connected {
      IdentifiedConnectsOnce(cfg, t, e.ok, e.fallbackOk);
    }
  }

  lemma SameAttempts(s: State, t: State)
    requires OneSuccess(s) && t.attempts == s.attempts && t.connected == s.connected
    ensures OneSuccess(t)
  {
  }

  lemma StepConnectsOnce(cfg: Config, s: State, e: Event)
    requires OneSuccess(s) && Possible(cfg, s, e)
    ensures OneSuccess(Step(cfg, s, e))
  {
    match e
    case ClientData(_, _, _, _, _, _) =>
      IdentifyConnectsOnce(cfg, s, e);
      SameAttempts(BeforeHandler(cfg, s, e), Step(cfg, s, e));
    case ServerData(_, seen, _, _, _, _) => SameAttempts(s, Step(cfg, s, e));
    case Timeout(ok) => UnknownConnectsOnce(cfg, s, ok);
    case _ =>
  }

  /** On every run all attempts but possibly the last have failed, and the relay counts as connected exactly when
      the last one succeeded. */
  lemma {:induction false} AtMostOneConnection(cfg: Config, dest: string, dport: nat, events: seq<Event>)
    requires Run(cfg, dest, dport, events).Some?
    ensures OneSuccess(Run(cfg, dest, dport, events).value)
  {
    if events != [] {
      AtMostOneConnection(cfg, dest, dport, events[..|events| - 1]);
      StepConnectsOnce(cfg, Run(cfg, dest, dport, events[..|events| - 1]).value, events[|events| - 1]);
    }
  }

  lemma UnknownStays(cfg: Config, s: State, ok: bool)
    requires s.connected
    ensures HandleUnknown(cfg, s, ok).connected && HandleUnknown(cfg, s, ok).attempts == s.attempts
  {
  }

  lemma ConnectionStays(cfg: Config, s: State, e: Event)
    requires Possible(cfg, s, e) && s.connected
    ensures Step(cfg, s, e).connected && Step(cfg, s, e).attempts == s.attempts
  {
    if e.ClientData? && s.protocol.UNKNOWN? {
      UnknownStays(cfg, Recognised(cfg, s, e.seen), e.ok);
    }
  }

  /** When a payload shows the protocol of a connection that is there already, only the interception of TLS changes what
      is recorded as its destination. */
  lemma RecordedDestination(cfg: Config, s: State, e: Event)
    requires Possible(cfg, s, e) && s.connected && s.protocol.UNKNOWN? && e.ClientData? && !e.seen.UNKNOWN?
    ensures var t := Step(cfg, s, e);
            Addr(t.dest, t.dport) ==
            if e.seen.SSL? && cfg.mitm && !cfg.mode.FullEmulation? then Addr("127.0.0.1", cfg.sslPort)
            else Addr(s.dest, s.dport)
  {
  }

  /** While no target has been reached, nothing has been passed on in either direction; and once an attempt has
      failed, the client is shut down or the loop is over. */
  predicate UnreachedIsSilent(s: State) {
    !s.connected ==>
      && s.down.read == s.down.written == s.up.written == ""
      && (s.attempts != [] ==> s.shut || s.finished)
  }

  lemma UnknownIsSilent(cfg: Config, s: State, ok: bool)
    requires UnreachedIsSilent(s)
    ensures UnreachedIsSilent(HandleUnknown(cfg, s, ok))
  {
  }

  lemma ConnectingIsSilent(cfg: Config, s: State, ok: bool, fallbackOk: bool)
    requires UnreachedIsSilent(s) && !s.connected
    ensures UnreachedIsSilent(ConnectIdentified(cfg, s, ok, fallbackOk))
  {
  }

  lemma IdentifyIsSilent(cfg: Config, s: State, e: Event)
    requires UnreachedIsSilent(s) && e.ClientData?
    ensures UnreachedIsSilent(BeforeHandler(cfg, s, e))
  {
    var t := Recognised(cfg, s, e.seen);
    UnknownIsSilent(cfg, t, e.ok);
    if !s.connected {
      ConnectingIsSilent(cfg, t, e.ok, e.fallbackOk);
    }
  }

  lemma StepIsSilent(cfg: Config, s: State, e: Event)
    requires UnreachedIsSilent(s) && Possible(cfg, s, e)
    ensures UnreachedIsSilent(Step(cfg, s, e))
  {
    match e
    case ClientData(_, _, _, _, _, _) => IdentifyIsSilent(cfg, s, e);
    case Timeout(ok) => UnknownIsSilent(cfg, s, ok);
    case _ =>
  }

  /** On every run a client whose target has not been reached has received nothing, and its socket is shut down or
      the loop is over once an attempt has failed. */
  lemma {:induction false} UnreachedGetsNothing(cfg: Config, dest: string, dport: nat, events: seq<Event>)
    requires Run(cfg, dest, dport, events).Some?
    ensures UnreachedIsSilent(Run(cfg, dest, dport, events).value)
  {
    if events != [] {
      UnreachedGetsNothing(cfg, dest, dport, events[..|events| - 1]);
      StepIsSilent(cfg, Run(cfg, dest, dport, events[..|events| - 1]).value, events[|events| - 1]);
    }
  }

  lemma ShutKept(cfg: Config, s: State, e: Event)
    requires e.ClientData? && s.shut
    ensures BeforeHandler(cfg, s, e).shut
  {
    var t := Recognised(cfg, s, e.seen);
    UnknownKeepsShut(cfg, t, e.ok);
    ConnectingKeepsShut(cfg, t, e.ok, e.fallbackOk);
  }

  lemma UnknownKeepsShut(cfg: Config, s: State, ok: bool)
    requires s.shut
    ensures HandleUnknown(cfg, s, ok).shut
  {
  }

  lemma ConnectingKeepsShut(cfg: Config, s: State, ok: bool, fallbackOk: bool)
    ensures ConnectIdentified(cfg, s, ok, fallbackOk).shut == s.shut
  {
  }

  /** A client that is shut down stays so and receives nothing more. */
  lemma ShutIsFinal(cfg: Config, s: State, e: Event)
    requires Possible(cfg, s, e) && s.shut
    ensures Step(cfg, s, e).shut && Step(cfg, s, e).down.written == s.down.written
  {
    if e.ClientData? {
      WiresKept(cfg, s, e);
      ShutKept(cfg, s, e);
    } else if e.ServerData? {
      assert s.down.written + "" == s.down.written;
    }
  }

  /** When the payloads are taken to come from a local stand-in for an offline server. */
  ghost predicate OfflineFits(cfg: Config, s: State) {
    match cfg.mode
    case FullProxy => !s.destOffline
    case FullEmulation => s.destOffline
    case HalfProxy => s.destOffline <==> exists a :: a in s.attempts && !a.ok && !a.protocol.UNKNOWN?
  }

  lemma UnknownKeepsOffline(cfg: Config, s: State, ok: bool)
    requires OfflineFits(cfg, s) && s.protocol.UNKNOWN?
    ensures OfflineFits(cfg, HandleUnknown(cfg, s, ok))
  {
    var t := HandleUnknown(cfg, s, ok);
    if cfg.mode.HalfProxy? {
      assert forall a :: a in t.attempts && !a.protocol.UNKNOWN? <==> a in s.attempts && !a.protocol.UNKNOWN?;
    }
  }

  lemma ConnectingFitsOffline(cfg: Config, s: State, ok: bool, fallbackOk: bool)
    requires OfflineFits(cfg, s) && !s.protocol.UNKNOWN?
    ensures OfflineFits(cfg, ConnectIdentified(cfg, s, ok, fallbackOk))
  {
    var t := ConnectIdentified(cfg, s, ok, fallbackOk);
    if cfg.mode.HalfProxy? {
      var first, second := t.attempts[|s.attempts|], t.attempts[|t.attempts| - 1];
      assert !first.protocol.UNKNOWN? && first.ok == ok && first in t.attempts;
      assert forall a :: a in t.attempts <==> a in s.attempts || a == first || a == second;
      assert ok ==> second == first;
    }
  }

  lemma IdentifyFitsOffline(cfg: Config, s: State, e: Event)
    requires OfflineFits(cfg, s) && e.ClientData?
    ensures OfflineFits(cfg, BeforeHandler(cfg, s, e))
  {
    var t := Recognised(cfg, s, e.seen);
    if e.seen.UNKNOWN? {
      UnknownKeepsOffline(cfg, t, e.ok);
    } else {
      ConnectingFitsOffline(cfg, t, e.ok, e.fallbackOk);
    }
  }

  /** On every run the offline mark is never set in full proxy mode, always set in full emulation, and set in half
      proxy mode exactly when an attempt to reach an identified protocol's server has failed. */
  lemma {:induction false} OfflineByMode(cfg: Config, dest: string, dport: nat, events: seq<Event>)
    requires Run(cfg, dest, dport, events).Some?
    ensures OfflineFits(cfg, Run(cfg, dest, dport, events).value)
  {
    if events != [] {
      var s, e := Run(cfg, dest, dport, events[..|events| - 1]).value, events[|events| - 1];
      OfflineByMode(cfg, dest, dport, events[..|events| - 1]);
      match e {
        case ClientData(_, _, _, _, _, _) => IdentifyFitsOffline(cfg, s, e);
        case Timeout(ok) =>
          if s.protocol.UNKNOWN? {
            UnknownKeepsOffline(cfg, s, ok);
          }
        case _ =>
      }
    }
  }

  /** Whether a handler was let edit a payload, read off the final state. */
  ghost predicate EditsFit(cfg: Config, s: State) {
    && (cfg.mode.FullProxy? ==> !s.down.edited)
    && (s.down.edited ==> s.protocol.HTTP?)
    && (s.up.edited ==> s.protocol.SMTP? || s.protocol.IRC?)
  }

  lemma {:induction false} EditsByProtocol(cfg: Config, dest: string, dport: nat, events: seq<Event>)
    requires Run(cfg, dest, dport, events).Some?
    ensures EditsFit(cfg, Run(cfg, dest, dport, events).value)
  {
    if events != [] {
      var before := events[..|events| - 1];
      var s, e := Run(cfg, dest, dport, before).value, events[|events| - 1];
      EditsByProtocol(cfg, dest, dport, before);
      OfflineByMode(cfg, dest, dport, before);
      match e {
        case ClientData(_, _, _, _, _, _) => WiresKept(cfg, s, e);
        case Timeout(ok) => UnknownKeepsWires(cfg, s, ok);
        case _ =>
      }
    }
  }

  /** Transparency on every run: in full proxy mode the client receives exactly the bytes that the target sent, in
      order, less a last payload whose write failed, if and only if no write was cut short; and so does the target
      with the client's bytes unless the connection is SMTP or IRC, whose handlers edit. */
  lemma Transparent(cfg: Config, dest: string, dport: nat, events: seq<Event>)
    requires Run(cfg, dest, dport, events).Some? && cfg.mode.FullProxy?
    ensures var s := Run(cfg, dest, dport, events).value;
            && (s.down.written + s.down.unsent == FromServer(events) <==> !s.down.short)
            && (!s.protocol.SMTP? && !s.protocol.IRC? ==>
                  (s.up.written + s.up.unsent == FromClient(events) <==> !s.up.short))
            && (!s.finished ==> s.down.unsent == "" && s.up.unsent == "")
  {
    RelayIsFaithful(cfg, dest, dport, events);
    EditsByProtocol(cfg, dest, dport, events);
  }

  // ----- identification and the end of the loop -----

  /** The ports that tell the protocol in full emulation. */
  const STANDARD_PORTS: map<nat, Proto> := map[21 := FTP, 25 := SMTP, 6667 := IRC]

  /** What an event tells about the protocol of a connection to port `dport`: a payload shows it, and where none does,
      in full emulation the port tells. */
  function Tells(cfg: Config, dport: nat, e: Event): Proto {
    match e
    case ServerData(_, seen, _, _, _, _) => seen
    case ClientData(_, seen, _, _, _, _) => if seen.UNKNOWN? then PortTells(cfg, dport) else seen
    case Timeout(_) => PortTells(cfg, dport)
    case _ => UNKNOWN
  }

  function PortTells(cfg: Config, dport: nat): Proto {
    if cfg.mode.FullEmulation? && dport in STANDARD_PORTS then STANDARD_PORTS[dport] else UNKNOWN
  }

  /** The first protocol told. */
  function FirstTold(cfg: Config, dport: nat, events: seq<Event>): Proto {
    if events == [] then UNKNOWN
    else
      var before := FirstTold(cfg, dport, events[..|events| - 1]);
      if before.UNKNOWN? then Tells(cfg, dport, events[|events| - 1]) else before
  }

  lemma UnknownTold(cfg: Config, s: State, ok: bool, dport: nat)
    requires s.protocol.UNKNOWN? && s.dport == dport
    ensures var t := HandleUnknown(cfg, s, ok);
            t.protocol == PortTells(cfg, dport) && (t.protocol.UNKNOWN? ==> t.dport == dport)
  {
    PortTold(dport);
  }

  /** None of the ports that tell a protocol is redirected. */
  lemma PortTold(dport: nat)
    ensures ByPort(dport) == if dport in STANDARD_PORTS then STANDARD_PORTS[dport] else UNKNOWN
    ensures dport in NEPENTHES_PORTS ==> dport !in STANDARD_PORTS
  {
  }

  lemma ConnectingKeepsProtocol(cfg: Config, s: State, ok: bool, fallbackOk: bool)
    ensures ConnectIdentified(cfg, s, ok, fallbackOk).protocol == s.protocol
  {
  }

  lemma StepTold(cfg: Config, s: State, e: Event, dport: nat)
    requires Possible(cfg, s, e) && (s.protocol.UNKNOWN? ==> s.dport == dport)
    ensures var t := Step(cfg, s, e);
            && t.protocol == (if s.protocol.UNKNOWN? then Tells(cfg, dport, e) else s.protocol)
            && (t.protocol.UNKNOWN? ==> t.dport == dport)
  {
    if s.protocol.UNKNOWN? {
      match e
      case ClientData(_, seen, _, ok, fallbackOk, _) =>
        var r := Recognised(cfg, s, seen);
        if seen.UNKNOWN? {
          UnknownTold(cfg, r, ok, dport);
        } else {
          ConnectingKeepsProtocol(cfg, r, ok, fallbackOk);
        }
      case Timeout(ok) => UnknownTold(cfg, s, ok, dport);
      case _ =>
    }
  }

  /** On every run the protocol is the first one told: by a payload of either side or, in full emulation, by the port
      as soon as a client payload or a timeout tells nothing else. */
  lemma {:induction false} ProtocolIsFirstTold(cfg: Config, dest: string, dport: nat, events: seq<Event>)
    requires Run(cfg, dest, dport, events).Some?
    ensures var s := Run(cfg, dest, dport, events).value;
            s.protocol == FirstTold(cfg, dport, events) && (s.protocol.UNKNOWN? ==> s.dport == dport)
  {
    if events != [] {
      ProtocolIsFirstTold(cfg, dest, dport, events[..|events| - 1]);
      StepTold(cfg, Run(cfg, dest, dport, events[..|events| - 1]).value, events[|events| - 1], dport);
    }
  }

  /** What ends the loop: a close, a failed read, a refused write, or a timeout once the protocol is known. */
  predicate Ends(e: Event, known: bool) {
    match e
    case ServerData(_, _, _, _, _, w) => w.Refused?
    case ClientData(_, _, _, _, _, w) => w.Refused?
    case Timeout(_) => known
    case _ => true
  }

  lemma FinishedIsUnconnected(cfg: Config, s: State, e: Event)
    requires e.ClientData? && !s.finished
    ensures BeforeHandler(cfg, s, e).finished ==> !BeforeHandler(cfg, s, e).connected
  {
    var t := Recognised(cfg, s, e.seen);
    UnknownKeepsWires(cfg, t, e.ok);
    ConnectingEnds(cfg, t, e.ok, e.fallbackOk);
  }

  lemma ConnectingEnds(cfg: Config, s: State, ok: bool, fallbackOk: bool)
    requires !s.finished
    ensures var t := ConnectIdentified(cfg, s, ok, fallbackOk); t.finished ==> !t.connected
  {
  }

  /** On every run the loop has been left exactly when the last event ends it. */
  lemma EndsIff(cfg: Config, dest: string, dport: nat, events: seq<Event>)
    requires Run(cfg, dest, dport, events).Some? && events != []
    ensures Run(cfg, dest, dport, events).value.finished <==>
            Ends(events[|events| - 1], !FirstTold(cfg, dport, events[..|events| - 1]).UNKNOWN?)
  {
    var before, e := events[..|events| - 1], events[|events| - 1];
    var s := Run(cfg, dest, dport, before).value;
    ProtocolIsFirstTold(cfg, dest, dport, before);
    match e
    case ClientData(_, _, _, _, _, _) => FinishedIsUnconnected(cfg, s, e);
    case Timeout(ok) => UnknownKeepsWires(cfg, s, ok);
    case _ =>
  }

  // ----- what each side is sent -----

  /** The part of `out` that a write took. */
  function TakenOf(out: string, w: Write): string {
    if w.Wrote? && w.n <= |out| then out[..w.n] else ""
  }

  /** What the target is sent: the client's payloads, which the handlers of SMTP and IRC may edit. */
  function ToTarget(cfg: Config, dport: nat, events: seq<Event>): string {
    if events == [] then ""
    else
      var e := events[|events| - 1];
      ToTarget(cfg, dport, events[..|events| - 1]) +
      if e.ClientData?
      then TakenOf(if FirstTold(cfg, dport, events) in {SMTP, IRC} then e.edit else e.data, e.w)
      else ""
  }

  lemma UpGrows(t: State, e: Event)
    requires e.ClientData? && (e.w.Wrote? ==> t.connected && e.w.n <= |OutUp(t, e)|) && (t.finished ==> !t.connected)
    ensures PassUp(t, e).up.written ==
            t.up.written + TakenOf(if t.protocol in {SMTP, IRC} then e.edit else e.data, e.w)
    ensures PassUp(t, e).protocol == t.protocol
  {
    assert t.up.written + "" == t.up.written;
  }

  /** On every run the target is sent exactly what was taken of the client's payloads, in order. */
  lemma {:induction false} TargetIsSent(cfg: Config, dest: string, dport: nat, events: seq<Event>)
    requires Run(cfg, dest, dport, events).Some?
    ensures Run(cfg, dest, dport, events).value.up.written == ToTarget(cfg, dport, events)
  {
    if events != [] {
      var before, e := events[..|events| - 1], events[|events| - 1];
      var s := Run(cfg, dest, dport, before).value;
      TargetIsSent(cfg, dest, dport, before);
      ProtocolIsFirstTold(cfg, dest, dport, events);
      assert s.up.written + "" == s.up.written;
      match e {
        case ClientData(_, _, _, _, _, _) =>
          WiresKept(cfg, s, e);
          FinishedIsUnconnected(cfg, s, e);
          UpGrows(BeforeHandler(cfg, s, e), e);
        case Timeout(ok) => UnknownKeepsWires(cfg, s, ok);
        case _ =>
      }
    }
  }

  /** What a server payload becomes on its way to the client: an HTTP payload that comes from a local stand-in between
      messages has the value after its first `Server: ` replaced by the recorded type; any other is passed as it is. */
  lemma ClientIsSent(cfg: Config, dest: string, dport: nat, events: seq<Event>) returns (out: string)
    requires Run(cfg, dest, dport, events).Some? && events != [] && events[|events| - 1].ServerData?
    ensures var e := events[|events| - 1];
            var s := Run(cfg, dest, dport, events[..|events| - 1]).value;
            var text := CString(e.data);
            && Run(cfg, dest, dport, events).value.down.written == s.down.written + TakenOf(out, e.w)
            && if FirstTold(cfg, dport, events).HTTP? && s.destOffline && !e.collecting &&
                  StrStr(text, "Server: ").Some?
               then HttpFields.ServerReplaced(text, e.serverType,
                                              if e.stray != '\0' && '\0' !in e.data then [e.stray] else "", out)
               else out == e.data
  {
    var e := events[|events| - 1];
    var s := Run(cfg, dest, dport, events[..|events| - 1]).value;
    ProtocolIsFirstTold(cfg, dest, dport, events);
    out := OutDown(Seen(s, e.seen), e);
    HttpCollector.OfflinePayload(s.destOffline, e.collecting, e.data, e.serverType, e.stray);
    assert s.down.written + "" == s.down.written;
  }

  /** A client that is sent the whole of an offline HTTP payload with a `Server: ` reads the recorded type in it, under
      exactly the condition for the replacement to read back. */
  lemma OfflineTypeReads(cfg: Config, dest: string, dport: nat, events: seq<Event>)
    requires Run(cfg, dest, dport, events).Some? && events != [] && events[|events| - 1].ServerData?
    requires var e := events[|events| - 1];
             && FirstTold(cfg, dport, events).HTTP? && !e.collecting && StrStr(CString(e.data), "Server: ").Some?
             && Run(cfg, dest, dport, events[..|events| - 1]).value.destOffline
             && e.w == Wrote(|HttpFields.Manipulated(e.data, e.serverType, e.stray)|)
    ensures var e := events[|events| - 1];
            var was := Run(cfg, dest, dport, events[..|events| - 1]).value.down.written;
            var now := Run(cfg, dest, dport, events).value.down.written;
            && was <= now
            && (HttpFields.Field(now[|was|..], "Server:") == e.serverType <==>
                HttpFields.ReadsBack(e.data, e.serverType, e.stray))
  {
    var e := events[|events| - 1];
    var was := Run(cfg, dest, dport, events[..|events| - 1]).value.down.written;
    var now := Run(cfg, dest, dport, events).value.down.written;
    var out := ClientIsSent(cfg, dest, dport, events);
    HttpFields.ReplacedIsManipulated(e.data, e.serverType, e.stray, out);
    assert TakenOf(out, e.w) == out && now[|was|..] == out;
    HttpFields.ServerReadsBack(e.data, e.serverType, e.stray);
  }

  // ----- targets -----

  /** The protocols with a local server: its configured address and the standard port. */
  function LocalServers(cfg: Config): map<Proto, Addr> {
    map[HTTP := Addr(cfg.httpIp, 80), FTP := Addr(cfg.ftpIp, 21), FTP_anonym := Addr(cfg.ftpIp, 21),
        IRC := Addr(cfg.ircIp, 6667), SMTP := Addr(cfg.smtpIp, 25)]
  }

  lemma RedirectIsLocal(cfg: Config, p: Proto, target: Addr)
    requires !cfg.mode.FullProxy?
    ensures Redirect(cfg, p, target) == if p in LocalServers(cfg) then LocalServers(cfg)[p] else target
  {
  }

  /** In full emulation an attempt for a protocol with a local server goes to that server, and the connection is then
      recorded as one to it; as long as the protocol is unknown no destination is recorded. */
  ghost predicate EmulationTargets(cfg: Config, s: State) {
    && (forall a | a in s.attempts && a.protocol in LocalServers(cfg) :: a.addr == LocalServers(cfg)[a.protocol])
    && (s.attempts != [] ==>
          var last := s.attempts[|s.attempts| - 1].protocol;
          && (last.UNKNOWN? || last == s.protocol)
          && (last in LocalServers(cfg) ==> Addr(s.dest, s.dport) == LocalServers(cfg)[last]))
    && (s.protocol.UNKNOWN? && !cfg.nepenthes ==> s.dest == "")
  }

  lemma TargetsAdd(cfg: Config, s: State, ok: bool)
    requires forall a | a in s.attempts && a.protocol in LocalServers(cfg) :: a.addr == LocalServers(cfg)[a.protocol]
    requires s.protocol in LocalServers(cfg) ==> s.target == Addr(s.dest, s.dport) == LocalServers(cfg)[s.protocol]
    requires s.protocol.UNKNOWN? && !cfg.nepenthes ==> s.dest == ""
    ensures EmulationTargets(cfg, Connect(s, ok))
  {
    var t := Connect(s, ok);
    assert forall a :: a in t.attempts <==> a in s.attempts || a == Attempt(s.target, s.protocol, ok);
  }

  lemma Determined(cfg: Config, s: State, p: Proto)
    requires cfg.mode.FullEmulation?
    ensures var t := DetermineTarget(cfg, s, p);
            && t.attempts == s.attempts && t.protocol == s.protocol && t.connected == s.connected
            && (p in LocalServers(cfg) ==> t.target == Addr(t.dest, t.dport) == LocalServers(cfg)[p])
            && (p.UNKNOWN? ==> t.dest == "")
  {
    RedirectIsLocal(cfg, p, s.target);
  }

  lemma EmulationUnknown(cfg: Config, s: State, ok: bool)
    requires cfg.mode.FullEmulation? && EmulationTargets(cfg, s) && s.protocol.UNKNOWN?
    ensures EmulationTargets(cfg, HandleUnknown(cfg, s, ok))
  {
    if !(cfg.nepenthes && s.dport in NEPENTHES_PORTS) {
      var app := ByPort(s.dport);
      Determined(cfg, s.(protocol := app), app);
      TargetsAdd(cfg, DetermineTarget(cfg, s.(protocol := app), app), ok);
    }
  }

  lemma IdentifyTargets(cfg: Config, s: State, e: Event)
    requires cfg.mode.FullEmulation? && EmulationTargets(cfg, s) && e.ClientData?
    ensures EmulationTargets(cfg, BeforeHandler(cfg, s, e))
  {
    if s.protocol.UNKNOWN? {
      if e.seen.UNKNOWN? {
        assert Recognised(cfg, s, e.seen) == s;
        EmulationUnknown(cfg, s, e.ok);
      } else if !s.connected {
        var t := s.(protocol := e.seen);
        Determined(cfg, t, e.seen);
        TargetsAdd(cfg, DetermineTarget(cfg, t, e.seen), e.ok);
      }
    }
  }

  lemma SameTargets(cfg: Config, s: State, t: State)
    requires EmulationTargets(cfg, s) && t.attempts == s.attempts && t.dest == s.dest && t.dport == s.dport
    requires t.protocol == s.protocol || s.protocol.UNKNOWN?
    ensures EmulationTargets(cfg, t)
  {
  }

  lemma EmulationStep(cfg: Config, s: State, e: Event)
    requires cfg.mode.FullEmulation? && EmulationTargets(cfg, s) && Possible(cfg, s, e)
    ensures EmulationTargets(cfg, Step(cfg, s, e))
  {
    match e
    case ClientData(_, _, _, _, _, _) =>
      IdentifyTargets(cfg, s, e);
      SameTargets(cfg, BeforeHandler(cfg, s, e), Step(cfg, s, e));
    case Timeout(ok) =>
      if s.protocol.UNKNOWN? {
        EmulationUnknown(cfg, s, ok);
      } else {
        SameTargets(cfg, s, Step(cfg, s, e));
      }
    case _ => SameTargets(cfg, s, Step(cfg, s, e));
  }

  /** On every run in full emulation, whenever the protocol is one with a local server at the time of connecting,
      the connection goes to the configured address and the standard port, never to the original server. */
  lemma {:induction false} EmulationIsLocal(cfg: Config, dest: string, dport: nat, events: seq<Event>)
    requires Run(cfg, dest, dport, events).Some? && cfg.mode.FullEmulation?
    ensures EmulationTargets(cfg, Run(cfg, dest, dport, events).value)
  {
    if events != [] {
      EmulationIsLocal(cfg, dest, dport, events[..|events| - 1]);
      EmulationStep(cfg, Run(cfg, dest, dport, events[..|events| - 1]).value, events[|events| - 1]);
    }
  }

  /** In half proxy mode the original server is tried first; only when that fails is the protocol's local server
      tried, and the relay goes on exactly when one of the two answers. After the first failure the connection is
      recorded as one to the local address. */
  lemma FallbackIsLocal(cfg: Config, s: State, ok: bool, fallbackOk: bool)
    requires cfg.mode.HalfProxy? && s.protocol in LocalServers(cfg) && !s.finished
    ensures var t := ConnectIdentified(cfg, s, ok, fallbackOk);
            var there := LocalServers(cfg)[s.protocol];
            && t.attempts == s.attempts + [Attempt(Addr(s.dest, s.dport), s.protocol, ok)] +
                             (if ok then [] else [Attempt(there, s.protocol, fallbackOk)])
            && (t.finished <==> !ok && !fallbackOk)
            && (t.connected <==> ok || fallbackOk)
            && t.dest == (if ok then s.dest else there.ip) && t.dport == s.dport
            && (t.destOffline <==> s.destOffline || !ok)
  {
    assert s.attempts + [] == s.attempts;
    RedirectIsLocal(cfg, s.protocol, Addr(s.dest, s.dport));
  }

  /** Attempt `i` goes to the original destination, or to the local server of the same protocol after the attempt
      before it, to the original destination, has failed. */
  predicate OriginalOrFallback(cfg: Config, attempts: seq<Attempt>, i: nat, dest: string, dport: nat)
    requires i < |attempts|
  {
    var a := attempts[i];
    || a.addr == Addr(dest, dport)
    || (&& i > 0 && attempts[i - 1] == Attempt(Addr(dest, dport), a.protocol, false)
        && a.protocol in LocalServers(cfg) && a.addr == LocalServers(cfg)[a.protocol])
  }

  ghost predicate HalfProxyTargets(cfg: Config, s: State, dest: string, dport: nat) {
    && (forall i | 0 <= i < |s.attempts| :: OriginalOrFallback(cfg, s.attempts, i, dest, dport))
    && (!s.finished && !s.connected ==> s.dest == dest && s.dport == dport)
  }

  lemma AttemptsGrow(cfg: Config, before: seq<Attempt>, a: Attempt, dest: string, dport: nat)
    requires forall i | 0 <= i < |before| :: OriginalOrFallback(cfg, before, i, dest, dport)
    requires OriginalOrFallback(cfg, before + [a], |before|, dest, dport)
    ensures forall i | 0 <= i < |before + [a]| :: OriginalOrFallback(cfg, before + [a], i, dest, dport)
  {
    var after := before + [a];
    forall i | 0 <= i < |before| ensures OriginalOrFallback(cfg, after, i, dest, dport) {
      assert OriginalOrFallback(cfg, before, i, dest, dport);
      assert after[i] == before[i] && (i > 0 ==> after[i - 1] == before[i - 1]);
    }
  }

  lemma HalfUnknown(cfg: Config, s: State, ok: bool, dest: string, dport: nat)
    requires cfg.mode.HalfProxy? && !cfg.nepenthes && HalfProxyTargets(cfg, s, dest, dport) && !s.finished
    ensures HalfProxyTargets(cfg, HandleUnknown(cfg, s, ok), dest, dport)
  {
    if !s.connected {
      AttemptsGrow(cfg, s.attempts, Attempt(Addr(dest, dport), s.protocol, ok), dest, dport);
    }
  }

  lemma HalfConnect(cfg: Config, s: State, ok: bool, fallbackOk: bool, dest: string, dport: nat)
    requires cfg.mode.HalfProxy? && HalfProxyTargets(cfg, s, dest, dport) && !s.finished && !s.connected
    ensures HalfProxyTargets(cfg, ConnectIdentified(cfg, s, ok, fallbackOk), dest, dport)
  {
    var first := Attempt(Addr(dest, dport), s.protocol, ok);
    AttemptsGrow(cfg, s.attempts, first, dest, dport);
    if !ok {
      RedirectIsLocal(cfg, s.protocol, first.addr);
      var second := Attempt(Redirect(cfg, s.protocol, first.addr), s.protocol, fallbackOk);
      AttemptsGrow(cfg, s.attempts + [first], second, dest, dport);
    }
  }

  lemma HalfIdentify(cfg: Config, s: State, e: Event, dest: string, dport: nat)
    requires cfg.mode.HalfProxy? && !cfg.nepenthes && !cfg.mitm && e.ClientData? && !s.finished
    requires HalfProxyTargets(cfg, s, dest, dport)
    ensures HalfProxyTargets(cfg, BeforeHandler(cfg, s, e), dest, dport)
  {
    var t := Recognised(cfg, s, e.seen);
    HalfUnknown(cfg, t, e.ok, dest, dport);
    if !s.connected {
      HalfConnect(cfg, t, e.ok, e.fallbackOk, dest, dport);
    }
  }

  /** On every run in half proxy mode, with neither interception of TLS nor the honeypot redirection, every attempt
      goes to the original destination or, directly after one that failed, to the protocol's local server. */
  lemma {:induction false} HalfProxyFallsBack(cfg: Config, dest: string, dport: nat, events: seq<Event>)
    requires Run(cfg, dest, dport, events).Some? && cfg.mode.HalfProxy? && !cfg.nepenthes && !cfg.mitm
    ensures HalfProxyTargets(cfg, Run(cfg, dest, dport, events).value, dest, dport)
  {
    if events != [] {
      var s, e := Run(cfg, dest, dport, events[..|events| - 1]).value, events[|events| - 1];
      HalfProxyFallsBack(cfg, dest, dport, events[..|events| - 1]);
      match e {
        case ClientData(_, _, _, _, _, _) => HalfIdentify(cfg, s, e, dest, dport);
        case Timeout(ok) => HalfUnknown(cfg, s, ok, dest, dport);
        case _ =>
      }
    }
  }

  /** With interception of TLS on, whatever is tried for TLS goes to the interceptor on this host. */
  ghost predicate TlsIntercepted(cfg: Config, s: State) {
    forall a | a in s.attempts && a.protocol.SSL? :: a.addr == Addr("127.0.0.1", cfg.sslPort)
  }

  lemma TlsUnknown(cfg: Config, s: State, ok: bool)
    requires TlsIntercepted(cfg, s) && s.protocol.UNKNOWN?
    ensures TlsIntercepted(cfg, HandleUnknown(cfg, s, ok))
  {
    var t := HandleUnknown(cfg, s, ok);
    assert forall a :: a in t.attempts && a.protocol.SSL? ==> a in s.attempts;
  }

  lemma TlsConnect(cfg: Config, s: State, ok: bool, fallbackOk: bool)
    requires TlsIntercepted(cfg, s) && !cfg.mode.FullEmulation?
    requires s.protocol.SSL? ==> s.dest == "127.0.0.1" && s.dport == cfg.sslPort
    ensures TlsIntercepted(cfg, ConnectIdentified(cfg, s, ok, fallbackOk))
  {
    var t := ConnectIdentified(cfg, s, ok, fallbackOk);
    var first, second := t.attempts[|s.attempts|], t.attempts[|t.attempts| - 1];
    assert forall a :: a in t.attempts <==> a in s.attempts || a == first || a == second;
    if s.protocol.SSL? {
      assert first.addr == second.addr == Addr("127.0.0.1", cfg.sslPort);
    } else {
      assert first.protocol == second.protocol == s.protocol;
    }
  }

  lemma TlsIdentify(cfg: Config, s: State, e: Event)
    requires TlsIntercepted(cfg, s) && cfg.mitm && !cfg.mode.FullEmulation? && e.ClientData?
    ensures TlsIntercepted(cfg, BeforeHandler(cfg, s, e))
  {
    if s.protocol.UNKNOWN? {
      var t := Recognised(cfg, s, e.seen);
      if e.seen.UNKNOWN? {
        TlsUnknown(cfg, t, e.ok);
      } else {
        TlsConnect(cfg, t, e.ok, e.fallbackOk);
      }
    }
  }

  /** On every run with interception on, outside full emulation: no TLS connection is ever tried elsewhere. */
  lemma {:induction false} InterceptionIsLocal(cfg: Config, dest: string, dport: nat, events: seq<Event>)
    requires Run(cfg, dest, dport, events).Some? && cfg.mitm && !cfg.mode.FullEmulation?
    ensures TlsIntercepted(cfg, Run(cfg, dest, dport, events).value)
  {
    if events != [] {
      var s, e := Run(cfg, dest, dport, events[..|events| - 1]).value, events[|events| - 1];
      InterceptionIsLocal(cfg, dest, dport, events[..|events| - 1]);
      match e {
        case ClientData(_, _, _, _, _, _) => TlsIdentify(cfg, s, e);
        case Timeout(ok) =>
          if s.protocol.UNKNOWN? {
            TlsUnknown(cfg, s, ok);
          }
        case _ =>
      }
    }
  }

  /** From `s` to `t` one attempt was made, or two; the connection is there exactly when one of them succeeded. */
  predicate Tried(s: State, t: State, ok: bool, again: bool, fallbackOk: bool) {
    var n := |s.attempts|;
    && |t.attempts| == n + (if again then 2 else 1) && t.attempts[..n] == s.attempts
    && t.attempts[n].ok == ok && t.attempts[n].protocol == t.protocol
    && (again ==> t.attempts[n + 1].ok == fallbackOk && t.attempts[n + 1].protocol == t.protocol)
    && (t.connected <==> ok || (again && fallbackOk))
  }

  /** Every client payload, and every timeout, that finds the protocol unknown and no connection makes one attempt, in
      half proxy mode a second one if the protocol is shown and the first fails. Only the honeypot redirection makes
      none. */
  lemma EveryOpeningTries(cfg: Config, s: State, e: Event)
    requires Possible(cfg, s, e) && !s.connected && s.protocol.UNKNOWN? && (e.ClientData? || e.Timeout?)
    requires TellsNothing(e) ==>
               !(cfg.nepenthes && s.dport in {42, 135, 139, 445, 1023, 1025, 1433, 3127, 3128})
    ensures var t, again := Step(cfg, s, e), cfg.mode.HalfProxy? && !TellsNothing(e) && !e.ok;
            Tried(s, t, e.ok, again, again && e.fallbackOk) && (TellsNothing(e) ==> (t.shut <==> s.shut || !e.ok))
  {
    if e.Timeout? {
      UnknownIsTried(cfg, s, e.ok);
    } else {
      PayloadTries(cfg, s, e);
      var t, again := BeforeHandler(cfg, s, e), cfg.mode.HalfProxy? && !TellsNothing(e) && !e.ok;
      SameTried(s, t, Step(cfg, s, e), e.ok, again, again && e.fallbackOk);
    }
  }

  lemma SameTried(s: State, t: State, u: State, ok: bool, again: bool, fallbackOk: bool)
    requires Tried(s, t, ok, again, fallbackOk)
    requires u.attempts == t.attempts && u.protocol == t.protocol && u.connected == t.connected
    ensures Tried(s, u, ok, again, fallbackOk)
  {
  }

  lemma PayloadTries(cfg: Config, s: State, e: Event)
    requires !s.connected && s.protocol.UNKNOWN? && e.ClientData?
    requires e.seen.UNKNOWN? ==> !(cfg.nepenthes && s.dport in NEPENTHES_PORTS)
    ensures var t, again := BeforeHandler(cfg, s, e), cfg.mode.HalfProxy? && !e.seen.UNKNOWN? && !e.ok;
            && Tried(s, t, e.ok, again, again && e.fallbackOk)
            && (e.seen.UNKNOWN? ==> (t.shut <==> s.shut || !e.ok))
  {
    var r := Recognised(cfg, s, e.seen);
    if e.seen.UNKNOWN? {
      assert r == s;
      UnknownIsTried(cfg, s, e.ok);
    } else {
      IdentifiedIsTried(cfg, r, e.ok, e.fallbackOk);
    }
  }

  lemma UnknownIsTried(cfg: Config, s: State, ok: bool)
    requires !s.connected && !(cfg.nepenthes && s.dport in NEPENTHES_PORTS)
    ensures var t := HandleUnknown(cfg, s, ok); Tried(s, t, ok, false, false) && (t.shut <==> s.shut || !ok)
  {
  }

  lemma IdentifiedIsTried(cfg: Config, s: State, ok: bool, fallbackOk: bool)
    ensures var again := cfg.mode.HalfProxy? && !ok;
            Tried(s, ConnectIdentified(cfg, s, ok, fallbackOk), ok, again, again && fallbackOk)
  {
    var t := ConnectIdentified(cfg, s, ok, fallbackOk);
    var n := |s.attempts|;
    if ok || !cfg.mode.HalfProxy? {
      assert t.attempts == s.attempts + [t.attempts[n]];
    } else {
      assert t.attempts == s.attempts + [t.attempts[n]] + [t.attempts[n + 1]];
    }
  }

  /** In full proxy mode, with neither interception of TLS nor the honeypot redirection, everything goes to the
      original destination. */
  ghost predicate OriginalTargets(s: State, dest: string, dport: nat) {
    s.dest == dest && s.dport == dport && forall a | a in s.attempts :: a.addr == Addr(dest, dport)
  }

  lemma OriginalAdd(s: State, ok: bool, dest: string, dport: nat)
    requires OriginalTargets(s, dest, dport) && s.target == Addr(dest, dport)
    ensures OriginalTargets(Connect(s, ok), dest, dport)
  {
    var t := Connect(s, ok);
    assert forall a :: a in t.attempts <==> a in s.attempts || a == Attempt(s.target, s.protocol, ok);
  }

  lemma OriginalUnknown(cfg: Config, s: State, ok: bool, dest: string, dport: nat)
    requires cfg.mode.FullProxy? && !cfg.nepenthes && OriginalTargets(s, dest, dport)
    ensures OriginalTargets(HandleUnknown(cfg, s, ok), dest, dport)
  {
    OriginalAdd(s.(target := Addr(dest, dport)), ok, dest, dport);
  }

  lemma OriginalConnect(cfg: Config, s: State, ok: bool, fallbackOk: bool, dest: string, dport: nat)
    requires cfg.mode.FullProxy? && OriginalTargets(s, dest, dport)
    ensures OriginalTargets(ConnectIdentified(cfg, s, ok, fallbackOk), dest, dport)
  {
    OriginalAdd(s.(target := Addr(dest, dport)), ok, dest, dport);
  }

  lemma OriginalIdentify(cfg: Config, s: State, e: Event, dest: string, dport: nat)
    requires cfg.mode.FullProxy? && !cfg.nepenthes && !cfg.mitm && e.ClientData? && OriginalTargets(s, dest, dport)
    ensures OriginalTargets(BeforeHandler(cfg, s, e), dest, dport)
  {
    var t := Recognised(cfg, s, e.seen);
    OriginalUnknown(cfg, t, e.ok, dest, dport);
    OriginalConnect(cfg, t, e.ok, e.fallbackOk, dest, dport);
  }

  lemma OriginalStep(cfg: Config, s: State, e: Event, dest: string, dport: nat)
    requires cfg.mode.FullProxy? && !cfg.nepenthes && !cfg.mitm && Possible(cfg, s, e)
    requires OriginalTargets(s, dest, dport)
    ensures OriginalTargets(Step(cfg, s, e), dest, dport)
  {
    match e
    case ClientData(_, _, _, _, _, _) => OriginalIdentify(cfg, s, e, dest, dport);
    case Timeout(ok) => OriginalUnknown(cfg, s, ok, dest, dport);
    case _ =>
  }

  lemma {:induction false} ProxyReachesOriginal(cfg: Config, dest: string, dport: nat, events: seq<Event>)
    requires Run(cfg, dest, dport, events).Some? && cfg.mode.FullProxy? && !cfg.nepenthes && !cfg.mitm
    ensures OriginalTargets(Run(cfg, dest, dport, events).value, dest, dport)
  {
    if events != [] {
      ProxyReachesOriginal(cfg, dest, dport, events[..|events| - 1]);
      OriginalStep(cfg, Run(cfg, dest, dport, events[..|events| - 1]).value, events[|events| - 1], dest, dport);
    }
  }

  predicate Untried(s: State, dport: nat) {
    s.protocol.UNKNOWN? ==>
      s.attempts == [] && !s.connected && s.dport == dport && s.up.written == s.down.written == ""
  }

  lemma UntriedUnknown(cfg: Config, s: State, ok: bool)
    requires cfg.nepenthes && s.dport in NEPENTHES_PORTS
    ensures Untried(s, s.dport) ==> Untried(HandleUnknown(cfg, s, ok), s.dport)
    ensures HandleUnknown(cfg, s, ok).protocol == s.protocol
  {
  }

  lemma UntriedUp(t: State, e: Event, dport: nat)
    requires e.ClientData? && (e.w.Wrote? ==> t.connected && e.w.n <= |OutUp(t, e)|)
    requires Untried(t, dport)
    ensures Untried(PassUp(t, e), dport)
  {
  }

  lemma UntriedIdentify(cfg: Config, s: State, e: Event, dport: nat)
    requires cfg.nepenthes && dport in NEPENTHES_PORTS && Untried(s, dport) && e.ClientData?
    ensures Untried(BeforeHandler(cfg, s, e), dport)
  {
    if s.protocol.UNKNOWN? {
      if e.seen.UNKNOWN? {
        assert Recognised(cfg, s, UNKNOWN) == s;
        UntriedUnknown(cfg, s, e.ok);
      } else {
        assert !ConnectIdentified(cfg, Recognised(cfg, s, e.seen), e.ok, e.fallbackOk).protocol.UNKNOWN?;
      }
    }
  }

  lemma UntriedStep(cfg: Config, s: State, e: Event, dport: nat)
    requires cfg.nepenthes && dport in NEPENTHES_PORTS && Untried(s, dport) && Possible(cfg, s, e)
    ensures Untried(Step(cfg, s, e), dport)
  {
    match e
    case ServerData(_, seen, _, _, _, _) => assert !s.protocol.UNKNOWN?;
    case ClientData(_, _, _, _, _, _) =>
      UntriedIdentify(cfg, s, e, dport);
      UntriedUp(BeforeHandler(cfg, s, e), e, dport);
    case Timeout(ok) =>
      if s.protocol.UNKNOWN? {
        UntriedUnknown(cfg, s, ok);
      }
    case _ =>
  }

  /** The honeypot redirection sets the address and returns before connecting: while the protocol of a connection
      to one of its ports stays unknown, no connection is ever tried. */
  lemma {:induction false} HoneypotNeverConnects(cfg: Config, dest: string, dport: nat, events: seq<Event>)
    requires Run(cfg, dest, dport, events).Some? && cfg.nepenthes
    requires dport in {42, 135, 139, 445, 1023, 1025, 1433, 3127, 3128}
    ensures Untried(Run(cfg, dest, dport, events).value, dport)
  {
    if events != [] {
      HoneypotNeverConnects(cfg, dest, dport, events[..|events| - 1]);
      UntriedStep(cfg, Run(cfg, dest, dport, events[..|events| - 1]).value, events[|events| - 1], dport);
    }
  }

  /** An event that leaves the protocol to the port. */
  predicate TellsNothing(e: Event) {
    e.Timeout? || (e.ClientData? && e.seen.UNKNOWN?)
  }

  predicate SentToHoneypot(cfg: Config, s: State) {
    s.dest == cfg.nepenthesIp && s.target == Addr(cfg.nepenthesIp, PortOf(s.target))
  }

  lemma HoneypotStep(cfg: Config, s: State, e: Event, dport: nat)
    requires cfg.nepenthes && dport in NEPENTHES_PORTS && s.protocol.UNKNOWN? && Untried(s, dport)
    requires Possible(cfg, s, e) && Step(cfg, s, e).protocol.UNKNOWN?
    ensures TellsNothing(e) || SentToHoneypot(cfg, s) ==> SentToHoneypot(cfg, Step(cfg, s, e))
  {
    if e.ClientData? {
      if e.seen.UNKNOWN? {
        assert Recognised(cfg, s, UNKNOWN) == s;
      } else {
        ConnectingKeepsProtocol(cfg, Recognised(cfg, s, e.seen), e.ok, e.fallbackOk);
      }
    }
  }

  /** While its protocol is unknown, such a connection is recorded as one to the honeypot as soon as a payload or a
      timeout has told nothing. */
  lemma {:induction false} HoneypotRedirects(cfg: Config, dest: string, dport: nat, events: seq<Event>)
    requires Run(cfg, dest, dport, events).Some? && cfg.nepenthes
    requires dport in {42, 135, 139, 445, 1023, 1025, 1433, 3127, 3128}
    requires Run(cfg, dest, dport, events).value.protocol.UNKNOWN? && exists e :: e in events && TellsNothing(e)
    ensures SentToHoneypot(cfg, Run(cfg, dest, dport, events).value)
  {
    var before, last := events[..|events| - 1], events[|events| - 1];
    var s := Run(cfg, dest, dport, before).value;
    assert events == before + [last];
    HoneypotNeverConnects(cfg, dest, dport, before);
    if !s.protocol.UNKNOWN? {
      ProtocolStays(cfg, s, last);
    }
    if !TellsNothing(last) {
      HoneypotRedirects(cfg, dest, dport, before);
    }
    HoneypotStep(cfg, s, last, dport);
  }

  // ----- the handler object -----

  class TcpHandler {
    const cfg: Config
    var appProto: Proto
    var dest: string
    var dport: nat
    var target: Addr
    var connectedToFinal: bool
    var destOffline: bool
    var shut: bool
    var out: bool
    var down: Wire
    var up: Wire
    var attempts: seq<Attempt>

    ghost function View(): State
      reads this
    {
      State(appProto, dest, dport, target, connectedToFinal, destOffline, shut, out, down, up, attempts)
    }

    constructor (cfg: Config, dest: string, dport: nat)
      ensures this.cfg == cfg && View() == Start(cfg, dest, dport)
    {
      this.cfg, appProto, this.dest, this.dport, target := cfg, UNKNOWN, dest, dport, Unset;
      connectedToFinal, destOffline, shut, out := false, false, false, false;
      down, up, attempts := IDLE_WIRE, IDLE_WIRE, [];
      new;
      SetTarget(UNKNOWN);
    }

    /** tcphandler_determine_target. */
    method SetTarget(p: Proto)
      modifies this
      ensures View() == DetermineTarget(cfg, old(View()), p)
    {
      match cfg.mode {
        case FullEmulation =>
          destOffline := true;
          if p == UNKNOWN {
            dest := "";
          } else {
            target := Redirect(cfg, p, target);
            dest := IpOf(target);
            dport := PortOf(target);
          }
        case HalfProxy => target := Addr(dest, dport);
        case FullProxy => target := Addr(dest, dport);
      }
    }

    /** connect(2), whose result the environment decides. */
    method TryConnect(ok: bool)
      modifies this`attempts, this`connectedToFinal
      ensures View() == Connect(old(View()), ok)
    {
      attempts := attempts + [Attempt(target, appProto, ok)];
      connectedToFinal := ok;
    }

    /** tcphandler_handle_unknown. */
    method OnUnknown(ok: bool)
      modifies this
      ensures View() == HandleUnknown(cfg, old(View()), ok)
    {
      if cfg.nepenthes && dport in NEPENTHES_PORTS {
        target := Addr(cfg.nepenthesIp, PortOf(target));
        dest := cfg.nepenthesIp;
        return;
      }
      var app := UNKNOWN;
      if cfg.mode.FullEmulation? {
        app := ByPort(dport);
        appProto := app;
      }
      SetTarget(app);
      if !connectedToFinal {
        TryConnect(ok);
        if !connectedToFinal {
          shut := true;
        }
      }
    }

    /** The connection on the identified-protocol path. */
    method ConnectToTarget(ok: bool, fallbackOk: bool)
      requires !connectedToFinal
      modifies this
      ensures View() == ConnectIdentified(cfg, old(View()), ok, fallbackOk)
    {
      SetTarget(appProto);
      TryConnect(ok);
      if !connectedToFinal {
        if cfg.mode.HalfProxy? {
          target := Redirect(cfg, appProto, target);
          dest := IpOf(target);
          destOffline := true;
          TryConnect(fallbackOk);
          if !connectedToFinal {
            out := true;
          }
        } else {
          out := true;
        }
      }
    }

    /** The protocol and the target of a client payload. */
    method IdentifyClient(seen: Proto, ok: bool, fallbackOk: bool)
      modifies this
      ensures View() == Identify(cfg, old(View()), seen, ok, fallbackOk)
    {
      appProto := seen;
      if seen == SSL && cfg.mitm && !cfg.mode.FullEmulation? {
        dest := "127.0.0.1";
        dport := cfg.sslPort;
      }
      if seen == UNKNOWN {
        OnUnknown(ok);
      } else if !connectedToFinal {
        ConnectToTarget(ok, fallbackOk);
      }
    }

    method OnServerData(data: string, seen: Proto, collecting: bool, serverType: string, stray: char, w: Write)
      requires Possible(cfg, View(), ServerData(data, seen, collecting, serverType, stray, w))
      modifies this
      ensures View() == Step(cfg, old(View()), ServerData(data, seen, collecting, serverType, stray, w))
    {
      if appProto == UNKNOWN {
        appProto := seen;
      }
      var payload := data;
      if appProto == HTTP {
        payload := HttpCollector.ServerPayload(destOffline, collecting, data, serverType, stray);
      }
      down := Passed(down, data, payload, appProto == HTTP && destOffline, w);
      if w.Refused? {
        out := true;
      }
    }

    method OnClientData(data: string, seen: Proto, edit: string, ok: bool, fallbackOk: bool, w: Write)
      requires Possible(cfg, View(), ClientData(data, seen, edit, ok, fallbackOk, w))
      modifies this
      ensures View() == Step(cfg, old(View()), ClientData(data, seen, edit, ok, fallbackOk, w))
    {
      if appProto == UNKNOWN {
        IdentifyClient(seen, ok, fallbackOk);
        if out {
          up := Passed(up, data, data, false, Refused);
          return;
        }
      }
      var edits := appProto == SMTP || appProto == IRC;
      var payload := if edits then edit else data;
      up := Passed(up, data, payload, edits, w);
      if w.Refused? {
        out := true;
      }
    }

    method OnTimeout(ok: bool)
      requires Possible(cfg, View(), Timeout(ok))
      modifies this
      ensures View() == Step(cfg, old(View()), Timeout(ok))
    {
      if appProto != UNKNOWN {
        out := true;
      } else {
        OnUnknown(ok);
      }
    }
  }

  /** tcphandler_run: the loop over the events until it is left. */
  method RunHandler(cfg: Config, dest: string, dport: nat, events: seq<Event>) returns (h: TcpHandler)
    requires Run(cfg, dest, dport, events).Some?
    ensures Some(h.View()) == Run(cfg, dest, dport, events)
    ensures cfg.mode.FullProxy? && !h.down.short ==> h.down.written + h.down.unsent == FromServer(events)
  {
    h := new TcpHandler(cfg, dest, dport);
    for i := 0 to |events|
      invariant fresh(h) && h.cfg == cfg && Some(h.View()) == Run(cfg, dest, dport, events[..i])
    {
      RunPrefix(cfg, dest, dport, events, i + 1);
      assert events[..i + 1][..i] == events[..i];
      match events[i] {
        case ServerData(data, seen, collecting, serverType, stray, w) =>
          h.OnServerData(data, seen, collecting, serverType, stray, w);
        case ServerClosed => h.out := true;
        case ServerFails => h.out := true;
        case ClientData(data, seen, edit, ok, fallbackOk, w) => h.OnClientData(data, seen, edit, ok, fallbackOk, w);
        case ClientClosed => h.out := true;
        case Timeout(ok) => h.OnTimeout(ok);
      }
    }
    assert events[..|events|] == events;
    if cfg.mode.FullProxy? {
      Transparent(cfg, dest, dport, events);
    }
  }

  /** The beginning of a possible run is possible. */
  lemma {:induction false} RunPrefix(cfg: Config, dest: string, dport: nat, events: seq<Event>, k: nat)
    requires Run(cfg, dest, dport, events).Some? && k <= |events|
    ensures Run(cfg, dest, dport, events[..k]).Some?
  {
    if k == |events| {
      assert events[..k] == events;
    } else {
      RunPrefix(cfg, dest, dport, events[..|events| - 1], k);
      assert events[..|events| - 1][..k] == events[..k];
    }
  }
}
