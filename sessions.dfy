/** `WhatsappService` (src/service/whatsapp/whatsapp.service.ts): the
    in-memory registry of live clients, the persisted session table, the
    listeners each client carries, startup restore, shutdown teardown, the
    pairing handshake, sign-out, single send and broadcast. Clients are
    opaque handles; what the chat network does (initialize, getState,
    sendMessage, the events it emits) is passed in. */
module Sessions {
  import opened Base
  import opened Text
  import opened Dispatch

  /* ---------- the session table and the clients ---------- */

  /** `waSession.status`. */
  datatype Status = Connecting | Qr | Connected | Disconnected | SignedOut

  /** One row of the session table, keyed by session name. */
  datatype Record = Record(status: Status, qrCode: Option<string>, lastError: Option<string>)

  const ConnectedRecord := Record(Connected, None, None)
  const SignedOutRecord := Record(SignedOut, None, None)

  function Find(store: map<string, Record>, name: string): Option<Record> {
    if name in store then Some(store[name]) else None
  }

  /** A `whatsapp-web.js` `Client`, known only by identity. */
  datatype Client = Client(id: nat)

  /** The events a client emits. */
  datatype Event =
    | QrEvent(qr: string)
    | ReadyEvent
    | AuthFailureEvent(msg: string)
    | DisconnectedEvent(reason: string)

  /** `QRCode.toDataURL(code)`: the image is named by the code it encodes. */
  datatype QrImage = DataUrl(code: string)

  /** How the pairing promise of `qrSignIn` settled. */
  datatype Settlement = Resolved(image: QrImage) | Rejected(message: string)

  /** The listeners a client carries: those `restoreSession` attaches, or
      those `qrSignIn` attaches together with the one-shot slot of its
      promise. */
  datatype Handlers = Restored | SignIn(slot: Option<Settlement>)

  /** The session a client was created for and its listeners. */
  datatype Binding = Binding(name: string, handlers: Handlers)

  /** Errors the service throws, one per message in the source. */
  datatype Failure =
    | SessionNotFound(name: string)
    | YouAreDisconnected
    | YouAreAlreadyConnected
    | NotInitialized(name: string)
    | NotReady(name: string, state: Option<string>)
    | NoMessageOrMedia
    | DeliveryFailed
    | ToRequired

  const ConnectedState := "CONNECTED"
  const AlreadyConnectedMessage := "client_already_connected"

  function AuthFailureText(msg: string): string {
    "auth_failure: " + msg
  }

  function DisconnectedText(reason: string): string {
    "disconnected: " + reason
  }

  /* ---------- what one listener does ---------- */

  /** The `upsert` at the start of `qrSignIn`: a new row is `connecting`;
      an existing row only changes its status. */
  function MarkConnecting(prev: Option<Record>): (r: Record)
    ensures r.status == Connecting
    ensures prev.Some? ==> r.qrCode == prev.value.qrCode && r.lastError == prev.value.lastError
  {
    match prev
    case None => Record(Connecting, None, None)
    case Some(row) => row.(status := Connecting)
  }

  /** The row after a listener ran for `e`. A restored client has no `qr`
      listener; `auth_failure` and `disconnected` update only status and
      error, so an earlier QR code stays in the row. */
  function HandlerRecord(r: Record, e: Event, restored: bool): Record {
    match e
    case QrEvent(code) => if restored then r else r.(status := Qr, qrCode := Some(code))
    case ReadyEvent => ConnectedRecord
    case AuthFailureEvent(msg) => r.(status := Disconnected, lastError := Some(AuthFailureText(msg)))
    case DisconnectedEvent(reason) => r.(status := Disconnected, lastError := Some(reason))
  }

  /** The registry after a listener ran for `e`: the restore listeners delete
      the session's entry on `auth_failure` and `disconnected`; the sign-in
      listeners register the client on `ready` and delete nothing. */
  function HandlerRegistry(reg: map<string, Client>, name: string, c: Client, e: Event, restored: bool)
    : map<string, Client>
  {
    if restored then
      if e.AuthFailureEvent? || e.DisconnectedEvent? then reg - {name} else reg
    else
      if e.ReadyEvent? then reg[name := c] else reg
  }

  /** The `destroy` calls a listener makes. */
  function HandlerDestroys(c: Client, e: Event, restored: bool): seq<Client> {
    if e.AuthFailureEvent? || (e.DisconnectedEvent? && !restored) then [c] else []
  }

  /** What a sign-in listener would settle the pairing promise with. */
  function SettlementOf(e: Event): Settlement {
    match e
    case QrEvent(code) => Resolved(DataUrl(code))
    case ReadyEvent => Rejected(AlreadyConnectedMessage)
    case AuthFailureEvent(msg) => Rejected(AuthFailureText(msg))
    case DisconnectedEvent(reason) => Rejected(DisconnectedText(reason))
  }

  /** A promise settles once: later `resolve`/`reject` calls are no-ops. */
  function Settle(slot: Option<Settlement>, e: Event): Option<Settlement> {
    if slot.Some? then slot else Some(SettlementOf(e))
  }

  /* ---------- a run of sign-in events ---------- */

  function SignInRecordAfter(r: Record, es: seq<Event>): Record {
    if es == [] then r
    else HandlerRecord(SignInRecordAfter(r, es[..|es| - 1]), es[|es| - 1], false)
  }

  function SignInRegistryAfter(reg: map<string, Client>, name: string, c: Client, es: seq<Event>)
    : map<string, Client>
  {
    if es == [] then reg
    else HandlerRegistry(SignInRegistryAfter(reg, name, c, es[..|es| - 1]), name, c, es[|es| - 1], false)
  }

  function SignInDestroysAfter(c: Client, es: seq<Event>): seq<Client> {
    if es == [] then []
    else SignInDestroysAfter(c, es[..|es| - 1]) + HandlerDestroys(c, es[|es| - 1], false)
  }

  function SettleAll(slot: Option<Settlement>, es: seq<Event>): Option<Settlement> {
    if es == [] then slot else Settle(SettleAll(slot, es[..|es| - 1]), es[|es| - 1])
  }

  /** The first settlement wins: a settled slot never changes, and an empty
      slot ends up holding what the first event settles it with. */
  lemma {:induction false} SettleAllFirstWins(slot: Option<Settlement>, es: seq<Event>)
    ensures slot.Some? ==> SettleAll(slot, es) == slot
    ensures slot.None? ==> SettleAll(slot, es) == if es == [] then None else Some(SettlementOf(es[0]))
  {
    if es != [] {
      var init := es[..|es| - 1];
      SettleAllFirstWins(slot, init);
      if init != [] {
        assert init[0] == es[0];
      }
    }
  }

  /** The sign-in listeners never take a client out of the registry: the
      session's entry is this client once `ready` has fired, and is left
      alone otherwise, whatever failures follow. */
  lemma {:induction false} SignInRegistryKeepsEntry(reg: map<string, Client>, name: string, c: Client, es: seq<Event>)
    ensures SignInRegistryAfter(reg, name, c, es) == if ReadyEvent in es then reg[name := c] else reg
  {
    if es != [] {
      var init := es[..|es| - 1];
      SignInRegistryKeepsEntry(reg, name, c, init);
      assert es == init + [es[|es| - 1]];
      assert ReadyEvent in es <==> ReadyEvent in init || es[|es| - 1] == ReadyEvent;
    }
  }

  /** Every `auth_failure` or `disconnected` during sign-in destroys the
      client once, and nothing else destroys anything. */
  lemma {:induction false} SignInDestroysOnFailures(c: Client, es: seq<Event>)
    ensures forall k :: 0 <= k < |SignInDestroysAfter(c, es)| ==> SignInDestroysAfter(c, es)[k] == c
    ensures |SignInDestroysAfter(c, es)| == |FailureEvents(es)|
  {
    if es != [] {
      SignInDestroysOnFailures(c, es[..|es| - 1]);
    }
  }

  /** The `auth_failure` and `disconnected` events of `es`, in order. */
  function FailureEvents(es: seq<Event>): seq<Event> {
    if es == [] then []
    else FailureEvents(es[..|es| - 1])
         + (if es[|es| - 1].AuthFailureEvent? || es[|es| - 1].DisconnectedEvent? then [es[|es| - 1]] else [])
  }

  /* ---------- the result of qrSignIn ---------- */

  /** What `qrSignIn` returns or throws once its promise settled; `Pending`
      is a call still waiting (there is no timeout). */
  datatype SignInResult = QrCode(image: QrImage) | AlreadyConnected | Failed(message: string) | Pending

  /** The `try { await qrPromise } catch` at the end of `qrSignIn`. */
  function Outcome(slot: Option<Settlement>): SignInResult {
    match slot
    case None => Pending
    case Some(Resolved(image)) => QrCode(image)
    case Some(Rejected(m)) => if m == AlreadyConnectedMessage then AlreadyConnected else Failed(m)
  }

  /** The reference reading of the handshake: the first event decides it. */
  function FirstEventOutcome(e: Event): SignInResult {
    match e
    case QrEvent(code) => QrCode(DataUrl(code))
    case ReadyEvent => AlreadyConnected
    case AuthFailureEvent(msg) => Failed(AuthFailureText(msg))
    case DisconnectedEvent(reason) => Failed(DisconnectedText(reason))
  }

  /** Whatever follows, the handshake's result is decided by the first event
      the new client emits: a QR code, `already_connected` on `ready`, or
      the failure. */
  lemma HandshakeDecidedByFirstEvent(es: seq<Event>)
    ensures Outcome(SettleAll(None, es)) == if es == [] then Pending else FirstEventOutcome(es[0])
  {
    SettleAllFirstWins(None, es);
    if es != [] {
      match es[0]
      case AuthFailureEvent(msg) =>
        assert AuthFailureText(msg)[0] != AlreadyConnectedMessage[0];
      case DisconnectedEvent(reason) =>
        assert DisconnectedText(reason)[0] != AlreadyConnectedMessage[0];
      case _ =>
    }
  }

  /* ---------- send ---------- */

  /** What the chat network does during one `send`: the answer of
      `getState()` (`None` when it throws) and whether `sendMessage`
      succeeds. */
  datatype Remote = Remote(state: Option<string>, delivered: bool)

  /** A message handed to `client.sendMessage`. */
  datatype Delivery = Delivery(client: Client, chatId: string, content: Content)

  /** `send`: the session must be registered and its client `CONNECTED`;
      then media or text goes to the qualified chat id. */
  function SendOutcome(sessions: map<string, Client>, req: SendRequest, remote: Remote)
    : (r: Result<Delivery, Failure>)
    ensures r.Ok? <==> && req.sessionName in sessions && remote.state == Some(ConnectedState)
                       && Compose(req).Some? && remote.delivered
    ensures req.sessionName !in sessions ==> r == Err(NotInitialized(req.sessionName))
    ensures (req.sessionName in sessions && remote.state != Some(ConnectedState)) ==>
              r == Err(NotReady(req.sessionName, remote.state))
    ensures (req.sessionName in sessions && remote.state == Some(ConnectedState) && Compose(req).None?) ==>
              r == Err(NoMessageOrMedia)
    ensures r.Ok? ==> && r.value.client == sessions[req.sessionName]
                      && r.value.chatId == ChatId(req.to)
                      && r.value.content == Compose(req).value
  {
    if req.sessionName !in sessions then Err(NotInitialized(req.sessionName))
    else if remote.state != Some(ConnectedState) then Err(NotReady(req.sessionName, remote.state))
    else match Compose(req)
      case None => Err(NoMessageOrMedia)
      case Some(content) =>
        if remote.delivered then Ok(Delivery(sessions[req.sessionName], ChatId(req.to), content))
        else Err(DeliveryFailed)
  }

  /** One pass of the broadcast loop: the wall-clock text for the footer and
      what the network does for that recipient's `send`. */
  datatype Round = Round(time: string, remote: Remote)

  /** One call of `send` from `sendMass` and what came of it. */
  datatype Attempt = Attempt(request: SendRequest, outcome: Result<Delivery, Failure>)

  /** The attempt `sendMass` makes for recipient `rcpt`: its personalised
      request and what `send` does with it. */
  function Planned(sessions: map<string, Client>, req: SendRequest, rcpt: Recipient, round: Round): Attempt {
    var request := RecipientRequest(req, rcpt, round.time);
    Attempt(request, SendOutcome(sessions, request, round.remote))
  }

  /** The attempts of `sendMass`, one per recipient, in order. */
  function Broadcast(sessions: map<string, Client>, req: SendRequest, rs: seq<Recipient>, rounds: seq<Round>)
    : seq<Attempt>
    requires |rs| == |rounds|
  {
    if rs == [] then []
    else Broadcast(sessions, req, rs[..|rs| - 1], rounds[..|rs| - 1])
         + [Planned(sessions, req, rs[|rs| - 1], rounds[|rs| - 1])]
  }

  lemma BroadcastStep(sessions: map<string, Client>, req: SendRequest, rs: seq<Recipient>, rounds: seq<Round>, i: nat)
    requires i < |rs| == |rounds|
    ensures Broadcast(sessions, req, rs[..i + 1], rounds[..i + 1])
            == Broadcast(sessions, req, rs[..i], rounds[..i]) + [Planned(sessions, req, rs[i], rounds[i])]
  {
    assert rs[..i + 1][..i] == rs[..i] && rounds[..i + 1][..i] == rounds[..i];
  }

  /** A broadcast makes exactly one attempt per recipient, and the i-th
      attempt is the personalised send to the i-th recipient, whatever
      became of the others. */
  lemma {:induction false} BroadcastOnePerRecipient(sessions: map<string, Client>, req: SendRequest,
                                                    rs: seq<Recipient>, rounds: seq<Round>)
    requires |rs| == |rounds|
    ensures |Broadcast(sessions, req, rs, rounds)| == |rs|
    ensures forall i :: 0 <= i < |rs| ==> Broadcast(sessions, req, rs, rounds)[i] == Planned(sessions, req, rs[i], rounds[i])
  {
    if rs != [] {
      BroadcastOnePerRecipient(sessions, req, rs[..|rs| - 1], rounds[..|rs| - 1]);
    }
  }

  /** `qrConnect`'s answer: the stored code and its image. */
  datatype QrView = QrView(code: Option<string>, image: QrImage)

  /** The loop of `onModuleDestroy`: `destroy()` the client of every entry
      of `registry`, in some order, and return the calls made. */
  method DestroyEach(registry: map<string, Client>) returns (destroyed: seq<Client>)
    ensures |destroyed| == |registry.Keys|
    ensures forall n :: n in registry ==> registry[n] in destroyed
    ensures forall k :: 0 <= k < |destroyed| ==> destroyed[k] in registry.Values
  {
    var pending := registry.Keys;
    ghost var done: set<string> := {};
    destroyed := [];
    while pending != {}
      invariant pending + done == registry.Keys && pending !! done
      invariant |destroyed| == |done|
      invariant forall n :: n in done ==> registry[n] in destroyed
      invariant forall k :: 0 <= k < |destroyed| ==> destroyed[k] in registry.Values
      decreases pending
    {
      var name :| name in pending;
      destroyed := destroyed + [registry[name]];
      pending := pending - {name};
      done := done + {name};
    }
  }

  /* ---------- the service ---------- */

  class WhatsappService {
    /** `sessions: Map<string, Client>`, the in-memory registry. */
    var sessions: map<string, Client>
    /** The `waSession` table. */
    var store: map<string, Record>
    /** Every client this service created, with its session and listeners. */
    var bindings: map<Client, Binding>
    /** The `destroy()` calls made, in order. Their outcome never matters:
        every call site catches a failure, and either logs it or drops it
        in an empty `catch { }`. */
    var destroyCalls: seq<Client>
    /** Identity of the next `new Client(...)`. */
    var nextClient: nat

    /** A registered client was created for the session it is registered
        under, and every client's session has a row (rows are never
        deleted), so the listeners' `update` calls find their row. */
    ghost predicate Valid()
      reads this
    {
      && (forall n :: n in sessions ==> sessions[n] in bindings && bindings[sessions[n]].name == n)
      && (forall c :: c in bindings ==> c.id < nextClient && bindings[c].name in store)
    }

    constructor (table: map<string, Record>)
      ensures Valid()
      ensures sessions == map[] && store == table && bindings == map[]
      ensures destroyCalls == [] && nextClient == 0
    {
      sessions := map[];
      store := table;
      bindings := map[];
      destroyCalls := [];
      nextClient := 0;
    }

    /** The listeners `restoreSession` attaches (`ready`, `auth_failure`,
        `disconnected`), reacting to one event of client `c`. */
    method OnRestoredEvent(c: Client, e: Event)
      requires Valid() && c in bindings && bindings[c].handlers.Restored?
      modifies this
      ensures Valid()
      ensures var name := old(bindings[c]).name;
              && store == old(store)[name := HandlerRecord(old(store[name]), e, true)]
              && sessions == HandlerRegistry(old(sessions), name, c, e, true)
              && destroyCalls == old(destroyCalls) + HandlerDestroys(c, e, true)
              && bindings == old(bindings) && nextClient == old(nextClient)
    {
      var name := bindings[c].name;
      match e
      case QrEvent(_) =>
      case ReadyEvent =>
        store := store[name := ConnectedRecord];
      case AuthFailureEvent(msg) =>
        store := store[name := store[name].(status := Disconnected, lastError := Some(AuthFailureText(msg)))];
        destroyCalls := destroyCalls + [c];
        sessions := sessions - {name};
      case DisconnectedEvent(reason) =>
        store := store[name := store[name].(status := Disconnected, lastError := Some(reason))];
        sessions := sessions - {name};
    }

    /** The listeners `qrSignIn` attaches (`qr`, `ready`, `auth_failure`,
        `disconnected`), reacting to one event of client `c`; each also
        tries to settle the pairing promise. */
    method OnSignInEvent(c: Client, e: Event)
      requires Valid() && c in bindings && bindings[c].handlers.SignIn?
      modifies this
      ensures Valid()
      ensures var b := old(bindings[c]);
              && store == old(store)[b.name := HandlerRecord(old(store[b.name]), e, false)]
              && sessions == HandlerRegistry(old(sessions), b.name, c, e, false)
              && destroyCalls == old(destroyCalls) + HandlerDestroys(c, e, false)
              && bindings == old(bindings)[c := Binding(b.name, SignIn(Settle(b.handlers.slot, e)))]
              && nextClient == old(nextClient)
    {
      var name := bindings[c].name;
      var slot := bindings[c].handlers.slot;
      match e
      case QrEvent(code) =>
        store := store[name := store[name].(status := Qr, qrCode := Some(code))];
        if slot.None? {
          bindings := bindings[c := Binding(name, SignIn(Some(Resolved(DataUrl(code)))))];
        }
      case ReadyEvent =>
        store := store[name := ConnectedRecord];
        sessions := sessions[name := c];
        if slot.None? {
          bindings := bindings[c := Binding(name, SignIn(Some(Rejected(AlreadyConnectedMessage))))];
        }
      case AuthFailureEvent(msg) =>
        store := store[name := store[name].(status := Disconnected, lastError := Some(AuthFailureText(msg)))];
        destroyCalls := destroyCalls + [c];
        if slot.None? {
          bindings := bindings[c := Binding(name, SignIn(Some(Rejected(AuthFailureText(msg)))))];
        }
      case DisconnectedEvent(reason) =>
        store := store[name := store[name].(status := Disconnected, lastError := Some(reason))];
        destroyCalls := destroyCalls + [c];
        if slot.None? {
          bindings := bindings[c := Binding(name, SignIn(Some(Rejected(DisconnectedText(reason)))))];
        }
    }

    /** A run of events from a client that carries the sign-in listeners. */
    method DeliverAll(c: Client, es: seq<Event>)
      requires Valid() && c in bindings && bindings[c].handlers.SignIn?
      modifies this
      ensures Valid()
      ensures var b := old(bindings[c]);
              && store == old(store)[b.name := SignInRecordAfter(old(store[b.name]), es)]
              && sessions == SignInRegistryAfter(old(sessions), b.name, c, es)
              && destroyCalls == old(destroyCalls) + SignInDestroysAfter(c, es)
              && bindings == old(bindings)[c := Binding(b.name, SignIn(SettleAll(b.handlers.slot, es)))]
              && nextClient == old(nextClient)
    {
      ghost var b := bindings[c];
      for i := 0 to |es|
        invariant Valid() && c in bindings
        invariant store == old(store)[b.name := SignInRecordAfter(old(store[b.name]), es[..i])]
        invariant sessions == SignInRegistryAfter(old(sessions), b.name, c, es[..i])
        invariant destroyCalls == old(destroyCalls) + SignInDestroysAfter(c, es[..i])
        invariant bindings == old(bindings)[c := Binding(b.name, SignIn(SettleAll(b.handlers.slot, es[..i])))]
        invariant nextClient == old(nextClient)
      {
        assert es[..i + 1][..i] == es[..i];
        OnSignInEvent(c, es[i]);
      }
      assert es[..|es|] == es;
    }

    /** `restoreSession`: skip a session already in memory; otherwise create
        a client with the restore listeners, `initialize` it (failing with
        `initError`) and register it. */
    method RestoreSession(name: string, initError: Option<string>) returns (err: Option<string>)
      requires Valid() && name in store
      modifies this
      ensures Valid()
      ensures store == old(store) && destroyCalls == old(destroyCalls)
      ensures name in old(sessions) ==> && err.None? && sessions == old(sessions)
                                        && bindings == old(bindings) && nextClient == old(nextClient)
      ensures name !in old(sessions) ==>
                var c := Client(old(nextClient));
                && c !in old(bindings)
                && err == initError
                && nextClient == old(nextClient) + 1
                && bindings == old(bindings)[c := Binding(name, Restored)]
                && sessions == (if initError.None? then old(sessions)[name := c] else old(sessions))
    {
      if name in sessions {
        return None;
      }
      var c := Client(nextClient);
      nextClient := nextClient + 1;
      bindings := bindings[c := Binding(name, Restored)];
      if initError.Some? {
        return initError;
      }
      sessions := sessions[name := c];
      return None;
    }

    /** One pass of the `onModuleInit` loop: skip a session already in
        memory, otherwise restore it and, when that throws, mark its row
        disconnected with the error. */
    method RestoreRow(name: string, initError: Option<string>)
      requires Valid() && name in store
      modifies this
      ensures Valid()
      ensures destroyCalls == old(destroyCalls) && store.Keys == old(store).Keys
      ensures name in old(sessions) ==> && store == old(store) && sessions == old(sessions)
                                        && bindings == old(bindings) && nextClient == old(nextClient)
      ensures name !in old(sessions) ==>
                var c := Client(old(nextClient));
                && c !in old(bindings)
                && bindings == old(bindings)[c := Binding(name, Restored)]
                && store == (if initError.Some?
                             then old(store)[name := old(store)[name].(status := Disconnected, lastError := initError)]
                             else old(store))
                && sessions == (if initError.None? then old(sessions)[name := c] else old(sessions))
    {
      if name in sessions {
        return;
      }
      var err := RestoreSession(name, initError);
      if err.Some? {
        store := store[name := store[name].(status := Disconnected, lastError := Some(err.value))];
      }
    }

    /** `onModuleInit`: `rows` are the names the query for rows whose status
        is not `signed_out` returned, in the table's order; `initErrors`
        says which `initialize` calls throw and with what message. */
    method OnModuleInit(rows: seq<string>, initErrors: map<string, string>)
      requires Valid()
      requires forall i, j :: 0 <= i < j < |rows| ==> rows[i] != rows[j]
      requires forall i :: 0 <= i < |rows| ==> rows[i] in store && store[rows[i]].status != SignedOut
      requires forall n :: n in store && store[n].status != SignedOut ==> n in rows
      modifies this
      ensures Valid()
      ensures destroyCalls == old(destroyCalls)
      ensures RestoredSoFar(store, sessions, bindings, Restorable(old(store)),
                            old(store), old(sessions), old(bindings), initErrors)
    {
      ghost var seen: set<string> := {};
      for i := 0 to |rows|
        invariant Valid()
        invariant Visited(rows, i, seen)
        invariant seen <= Restorable(old(store))
        invariant destroyCalls == old(destroyCalls)
        invariant RestoredSoFar(store, sessions, bindings, seen, old(store), old(sessions), old(bindings), initErrors)
      {
        ghost var (st, ss, bs, next) := (store, sessions, bindings, nextClient);
        RestoreRow(rows[i], if rows[i] in initErrors then Some(initErrors[rows[i]]) else None);
        RestoreStep(st, ss, bs, next, store, sessions, bindings, rows[i], seen,
                    old(store), old(sessions), old(bindings), initErrors);
        VisitNext(rows, i, seen);
        seen := seen + {rows[i]};
      }
    }

    /** `onModuleDestroy`: `destroy()` every registered client (a failure is
        only logged), then clear the registry. The table is not touched. */
    method OnModuleDestroy()
      requires Valid()
      modifies this
      ensures Valid()
      ensures sessions == map[]
      ensures store == old(store) && bindings == old(bindings) && nextClient == old(nextClient)
      ensures |destroyCalls| == |old(destroyCalls)| + |old(sessions).Keys|
      ensures destroyCalls[..|old(destroyCalls)|] == old(destroyCalls)
      ensures forall n :: n in old(sessions) ==> old(sessions)[n] in destroyCalls[|old(destroyCalls)|..]
      ensures forall k :: |old(destroyCalls)| <= k < |destroyCalls| ==> destroyCalls[k] in old(sessions).Values
    {
      var destroyed := DestroyEach(sessions);
      destroyCalls := destroyCalls + destroyed;
      assert destroyCalls[|old(destroyCalls)|..] == destroyed;
      sessions := map[];
    }

    /** `getSession`. */
    method GetSession(name: string) returns (r: Result<Record, Failure>)
      ensures r.Ok? <==> name in store
      ensures r.Ok? ==> r.value == store[name]
      ensures r.Err? ==> r.error == SessionNotFound(name)
    {
      if name !in store {
        return Err(SessionNotFound(name));
      }
      return Ok(store[name]);
    }

    /** `qrConnect`: the stored QR code and its image, refused for a
        disconnected or connected session. Any other status, `signed_out`
        included, returns what is stored. A row without a code is asked for
        the image of `''`, which the QR library refuses; the model takes
        `toDataURL` as total and answers `DataUrl("")` there. */
    method QrConnect(name: string) returns (r: Result<QrView, Failure>)
      ensures name !in store ==> r == Err(SessionNotFound(name))
      ensures name in store && store[name].status == Disconnected ==> r == Err(YouAreDisconnected)
      ensures name in store && store[name].status == Connected ==> r == Err(YouAreAlreadyConnected)
      ensures r.Ok? <==> name in store && store[name].status in {Connecting, Qr, SignedOut}
      ensures r.Ok? ==> r.value.code == store[name].qrCode
                        && r.value.image == DataUrl(store[name].qrCode.GetOr(""))
    {
      if name !in store {
        return Err(SessionNotFound(name));
      }
      var session := store[name];
      if session.status == Disconnected {
        return Err(YouAreDisconnected);
      }
      if session.status == Connected {
        return Err(YouAreAlreadyConnected);
      }
      return Ok(QrView(session.qrCode, DataUrl(session.qrCode.GetOr(""))));
    }

    /** The start of `qrSignIn` past the early return: create the client,
        mark the row `connecting` and attach the sign-in listeners with an
        unsettled pairing promise. */
    method StartSignIn(name: string) returns (c: Client)
      requires Valid()
      modifies this
      ensures Valid()
      ensures c == Client(old(nextClient)) && c !in old(bindings)
      ensures nextClient == old(nextClient) + 1
      ensures bindings == old(bindings)[c := Binding(name, SignIn(None))]
      ensures store == old(store)[name := MarkConnecting(Find(old(store), name))]
      ensures sessions == old(sessions) && destroyCalls == old(destroyCalls)
    {
      c := Client(nextClient);
      nextClient := nextClient + 1;
      store := store[name := MarkConnecting(Find(store, name))];
      bindings := bindings[c := Binding(name, SignIn(None))];
    }

    /** The end of `qrSignIn` once `initialize()` returned: register the
        client under its session, then wait on the pairing promise while
        `awaiting` arrives. */
    method AwaitPairing(c: Client, awaiting: seq<Event>) returns (r: SignInResult)
      requires Valid() && c in bindings && bindings[c].handlers.SignIn?
      modifies this
      ensures Valid()
      ensures var b := old(bindings[c]);
              && r == Outcome(SettleAll(b.handlers.slot, awaiting))
              && sessions == old(sessions)[b.name := c]
              && store == old(store)[b.name := SignInRecordAfter(old(store[b.name]), awaiting)]
              && destroyCalls == old(destroyCalls) + SignInDestroysAfter(c, awaiting)
              && bindings == old(bindings)[c := Binding(b.name, SignIn(SettleAll(b.handlers.slot, awaiting)))]
              && nextClient == old(nextClient)
    {
      var name := bindings[c].name;
      sessions := sessions[name := c];
      ghost var reg := sessions;
      DeliverAll(c, awaiting);
      SignInRegistryKeepsEntry(reg, name, c, awaiting);
      UpdateTwice(old(sessions), name, c, c);
      r := Outcome(bindings[c].handlers.slot);
    }

    /** `qrSignIn` past its early return, for a new client: `duringInit` are
        the events the client emits while `initialize()` runs, `initError`
        whether `initialize()` throws, and `awaiting` the events emitted
        while the caller awaits the pairing promise. */
    method SignInNewClient(name: string, duringInit: seq<Event>, initError: Option<string>,
                           awaiting: seq<Event>) returns (r: SignInResult)
      requires Valid()
      modifies this
      ensures Valid()
      ensures Client(old(nextClient)) !in old(bindings) && nextClient == old(nextClient) + 1
      ensures initError.Some? ==>
                var c := Client(old(nextClient));
                && r == Failed(initError.value)
                && bindings == old(bindings)[c := Binding(name, SignIn(SettleAll(None, duringInit)))]
                && store == old(store)[name := SignInRecordAfter(MarkConnecting(Find(old(store), name)), duringInit)]
                && destroyCalls == old(destroyCalls) + SignInDestroysAfter(c, duringInit)
                && sessions == if ReadyEvent in duringInit then old(sessions)[name := c] else old(sessions)
      ensures initError.None? ==>
                var c := Client(old(nextClient));
                var events := duringInit + awaiting;
                && r == (if events == [] then Pending else FirstEventOutcome(events[0]))
                && bindings == old(bindings)[c := Binding(name, SignIn(SettleAll(None, events)))]
                && store == old(store)[name := SignInRecordAfter(MarkConnecting(Find(old(store), name)), events)]
                && destroyCalls == old(destroyCalls) + SignInDestroysAfter(c, events)
                && sessions == old(sessions)[name := c]
    {
      ghost var row0 := MarkConnecting(Find(store, name));
      var c := StartSignIn(name);
      DeliverAll(c, duringInit);
      ghost var during := SignIn(SettleAll(None, duringInit));
      assert store == old(store)[name := SignInRecordAfter(row0, duringInit)] by {
        UpdateTwice(old(store), name, row0, SignInRecordAfter(row0, duringInit));
      }
      assert bindings == old(bindings)[c := Binding(name, during)] by {
        UpdateTwice(old(bindings), c, Binding(name, SignIn(None)), Binding(name, during));
      }
      if initError.Some? {
        SignInRegistryKeepsEntry(old(sessions), name, c, duringInit);
        return Failed(initError.value);
      }
      ghost var events := duringInit + awaiting;
      r := AwaitPairing(c, awaiting);
      assert store == old(store)[name := SignInRecordAfter(row0, events)] by {
        SignInRecordAppend(row0, duringInit, awaiting);
        UpdateTwice(old(store), name, SignInRecordAfter(row0, duringInit), SignInRecordAfter(row0, events));
      }
      assert bindings == old(bindings)[c := Binding(name, SignIn(SettleAll(None, events)))] by {
        SettleAllAppend(None, duringInit, awaiting);
        UpdateTwice(old(bindings), c, Binding(name, during), Binding(name, SignIn(SettleAll(None, events))));
      }
      assert sessions == old(sessions)[name := c] by {
        SignInRegistryKeepsEntry(old(sessions), name, c, duringInit);
        UpdateTwice(old(sessions), name, c, c);
      }
      assert destroyCalls == old(destroyCalls) + SignInDestroysAfter(c, events) by {
        SignInDestroysAppend(c, duringInit, awaiting);
      }
      assert r == (if events == [] then Pending else FirstEventOutcome(events[0])) by {
        SettleAllAppend(None, duringInit, awaiting);
        HandshakeDecidedByFirstEvent(events);
      }
    }

    /** `qrSignIn`. `probe` is what `getState()` of the in-memory client
        answers (`None` when it throws); the other parameters are those of
        `SignInNewClient`. */
    method QrSignIn(name: string, probe: Option<string>, duringInit: seq<Event>,
                    initError: Option<string>, awaiting: seq<Event>) returns (r: SignInResult)
      requires Valid()
      modifies this
      ensures Valid()
      // A connected client in memory: answer at once, create and write nothing.
      ensures name in old(sessions) && probe == Some(ConnectedState) ==>
                && r == AlreadyConnected
                && sessions == old(sessions) && store == old(store) && bindings == old(bindings)
                && destroyCalls == old(destroyCalls) && nextClient == old(nextClient)
      // Otherwise a new client: its row is marked connecting and then follows
      // the events, and the handshake ends with the first of them.
      ensures !(name in old(sessions) && probe == Some(ConnectedState)) ==>
                && Client(old(nextClient)) !in old(bindings) && nextClient == old(nextClient) + 1
      ensures !(name in old(sessions) && probe == Some(ConnectedState)) && initError.Some? ==>
                var c := Client(old(nextClient));
                && r == Failed(initError.value)
                && bindings == old(bindings)[c := Binding(name, SignIn(SettleAll(None, duringInit)))]
                && store == old(store)[name := SignInRecordAfter(MarkConnecting(Find(old(store), name)), duringInit)]
                && destroyCalls == old(destroyCalls) + SignInDestroysAfter(c, duringInit)
                && sessions == if ReadyEvent in duringInit then old(sessions)[name := c] else old(sessions)
      ensures !(name in old(sessions) && probe == Some(ConnectedState)) && initError.None? ==>
                var c := Client(old(nextClient));
                var events := duringInit + awaiting;
                && r == (if events == [] then Pending else FirstEventOutcome(events[0]))
                && bindings == old(bindings)[c := Binding(name, SignIn(SettleAll(None, events)))]
                && store == old(store)[name := SignInRecordAfter(MarkConnecting(Find(old(store), name)), events)]
                && destroyCalls == old(destroyCalls) + SignInDestroysAfter(c, events)
                && sessions == old(sessions)[name := c]
    {
      if name in sessions && probe == Some(ConnectedState) {
        return AlreadyConnected;
      }
      r := SignInNewClient(name, duringInit, initError, awaiting);
    }

    /** `signOut`: refused without a row; otherwise destroy and forget any
        in-memory client and mark the row `signed_out`, clearing code and
        error. A row that is already signed out is signed out again. */
    method SignOut(name: string) returns (r: Result<(), Failure>)
      requires Valid()
      modifies this
      ensures Valid()
      ensures r.Ok? <==> name in old(store)
      ensures r.Err? ==> && r.error == SessionNotFound(name)
                         && sessions == old(sessions) && store == old(store)
                         && destroyCalls == old(destroyCalls)
      ensures r.Ok? ==> && sessions == old(sessions) - {name}
                        && store == old(store)[name := SignedOutRecord]
                        && destroyCalls == old(destroyCalls) + (if name in old(sessions) then [old(sessions)[name]] else [])
      ensures bindings == old(bindings) && nextClient == old(nextClient)
    {
      if name !in store {
        return Err(SessionNotFound(name));
      }
      if name in sessions {
        destroyCalls := destroyCalls + [sessions[name]];
        sessions := sessions - {name};
      }
      store := store[name := SignedOutRecord];
      return Ok(());
    }

    /** `send`. */
    method Send(req: SendRequest, remote: Remote) returns (r: Result<Delivery, Failure>)
      ensures r == SendOutcome(sessions, req, remote)
    {
      if req.sessionName !in sessions {
        return Err(NotInitialized(req.sessionName));
      }
      var client := sessions[req.sessionName];
      if remote.state != Some(ConnectedState) {
        return Err(NotReady(req.sessionName, remote.state));
      }
      var chatId := ChatId(req.to);
      var content := Compose(req);
      if content.None? {
        return Err(NoMessageOrMedia);
      }
      if !remote.delivered {
        return Err(DeliveryFailed);
      }
      return Ok(Delivery(client, chatId, content.value));
    }

    /** The body of the `sendMass` loop: personalise the message for `rcpt`
        and `send` it. */
    method SendTo(req: SendRequest, rcpt: Recipient, round: Round) returns (a: Attempt)
      ensures a == Planned(sessions, req, rcpt, round)
    {
      var request := RecipientRequest(req, rcpt, round.time);
      var outcome := Send(request, round.remote);
      a := Attempt(request, outcome);
    }

    /** `sendMass`: one `send` per recipient, in order, each with its own
        personalised message; a failed send is logged and the loop goes
        on. `rounds[i]` is what happens around the i-th recipient. */
    method SendMass(req: SendRequest, rounds: seq<Round>) returns (r: Result<seq<Attempt>, Failure>)
      requires |rounds| == |Recipients(req.to)|
      ensures r.Err? <==> req.to == ""
      ensures r.Err? ==> r.error == ToRequired
      ensures r.Ok? ==> r.value == Broadcast(sessions, req, Recipients(req.to), rounds)
    {
      if req.to == "" {
        return Err(ToRequired);
      }
      var targets := Entries(req.to);
      ghost var rs := Recipients(req.to);
      var attempts: seq<Attempt> := [];
      for i := 0 to |targets|
        invariant attempts == Broadcast(sessions, req, rs[..i], rounds[..i])
      {
        var attempt := SendTo(req, ParseRecipient(targets[i]), rounds[i]);
        BroadcastStep(sessions, req, rs, rounds, i);
        attempts := attempts + [attempt];
      }
      assert rs[..|targets|] == rs && rounds[..|targets|] == rounds;
      return Ok(attempts);
    }
  }

  /** Two runs of sign-in events in a row settle the promise as one run of
      their concatenation. */
  lemma {:induction false} SettleAllAppend(slot: Option<Settlement>, a: seq<Event>, b: seq<Event>)
    ensures SettleAll(SettleAll(slot, a), b) == SettleAll(slot, a + b)
  {
    if b == [] {
      assert a + b == a;
    } else {
      SettleAllAppend(slot, a, b[..|b| - 1]);
      assert (a + b)[..|a + b| - 1] == a + b[..|b| - 1];
    }
  }

  /** Two runs of sign-in events in a row leave the row as one run of their
      concatenation. */
  lemma {:induction false} SignInRecordAppend(r: Record, a: seq<Event>, b: seq<Event>)
    ensures SignInRecordAfter(SignInRecordAfter(r, a), b) == SignInRecordAfter(r, a + b)
  {
    if b == [] {
      assert a + b == a;
    } else {
      SignInRecordAppend(r, a, b[..|b| - 1]);
      assert (a + b)[..|a + b| - 1] == a + b[..|b| - 1];
    }
  }

  /** Two runs of sign-in events in a row destroy as one run of their
      concatenation. */
  lemma {:induction false} SignInDestroysAppend(c: Client, a: seq<Event>, b: seq<Event>)
    ensures SignInDestroysAfter(c, a) + SignInDestroysAfter(c, b) == SignInDestroysAfter(c, a + b)
  {
    if b == [] {
      assert a + b == a;
    } else {
      SignInDestroysAppend(c, a, b[..|b| - 1]);
      assert (a + b)[..|a + b| - 1] == a + b[..|b| - 1];
    }
  }

  /** The names the restore query returns: every row not signed out. */
  ghost function Restorable(store: map<string, Record>): set<string> {
    set n | n in store && store[n].status != SignedOut
  }

  /** `seen` holds exactly the first `i` of the distinct names `rows`. */
  ghost predicate Visited(rows: seq<string>, i: nat, seen: set<string>) {
    && i <= |rows|
    && (forall j :: 0 <= j < i ==> rows[j] in seen)
    && (forall j :: i <= j < |rows| ==> rows[j] !in seen)
  }

  lemma VisitNext(rows: seq<string>, i: nat, seen: set<string>)
    requires forall i, j :: 0 <= i < j < |rows| ==> rows[i] != rows[j]
    requires Visited(rows, i, seen) && i < |rows|
    ensures Visited(rows, i + 1, seen + {rows[i]})
  {
  }

  /** The state of `onModuleInit` once the names in `seen` were attempted,
      starting from `store0`, `sessions0` and `bindings0`. */
  ghost predicate RestoredSoFar(store: map<string, Record>, sessions: map<string, Client>,
                                bindings: map<Client, Binding>, seen: set<string>,
                                store0: map<string, Record>, sessions0: map<string, Client>,
                                bindings0: map<Client, Binding>, initErrors: map<string, string>)
  {
    && store.Keys == store0.Keys
    && (forall n :: n in store ==>
          store[n] == if n in seen && n !in sessions0 && n in initErrors
                      then store0[n].(status := Disconnected, lastError := Some(initErrors[n]))
                      else store0[n])
    && (forall n :: n in sessions <==> n in sessions0 || (n in seen && n !in initErrors))
    && (forall n :: n in sessions0 ==> sessions[n] == sessions0[n])
    && (forall n :: n in sessions && n !in sessions0 ==>
          sessions[n] !in bindings0 && sessions[n] in bindings && bindings[sessions[n]] == Binding(n, Restored))
    && (forall c :: c in bindings0 ==> c in bindings && bindings[c] == bindings0[c])
    && (forall c :: c in bindings && c !in bindings0 ==>
          && bindings[c].handlers == Restored
          && bindings[c].name in seen && bindings[c].name !in sessions0)
  }

  /** One pass of the restore loop keeps `RestoredSoFar`. */
  lemma RestoreStep(store: map<string, Record>, sessions: map<string, Client>, bindings: map<Client, Binding>,
                    next: nat, store': map<string, Record>, sessions': map<string, Client>,
                    bindings': map<Client, Binding>, name: string, seen: set<string>,
                    store0: map<string, Record>, sessions0: map<string, Client>,
                    bindings0: map<Client, Binding>, initErrors: map<string, string>)
    requires RestoredSoFar(store, sessions, bindings, seen, store0, sessions0, bindings0, initErrors)
    requires name in store && name !in seen
    requires name in sessions ==> store' == store && sessions' == sessions && bindings' == bindings
    requires name !in sessions ==>
               var c := Client(next);
               && c !in bindings
               && bindings' == bindings[c := Binding(name, Restored)]
               && store' == (if name in initErrors
                             then store[name := store[name].(status := Disconnected, lastError := Some(initErrors[name]))]
                             else store)
               && sessions' == (if name !in initErrors then sessions[name := c] else sessions)
    ensures RestoredSoFar(store', sessions', bindings', seen + {name}, store0, sessions0, bindings0, initErrors)
  {
  }

  /* ---------- map identities ----------
     Stated apart so that the proofs above hand the solver only the fact
     they need. */

  lemma UpdateTwice<K, V>(m: map<K, V>, k: K, v1: V, v2: V)
    ensures m[k := v1][k := v2] == m[k := v2]
  {
  }
}
