/** What the trace reports against the history of its events and the fields of its messages: who
    owns what, which calls are open, who is gone, what each reply is noted with, and which message
    yields which event. */
module TraceHistory {
  import opened Bytes
  import opened Trace
  import opened TraceLaws

  // ----- ownership -----

  /** Event `i` is a successful claim of the device by the client. */
  predicate Claims(events: seq<Stamped>, i: nat, client: string, device: string)
    requires i < |events|
  {
    var e := events[i].event;
    e.Reply? && e.ok && e.method_.Claim? && e.client == client && e.device == device
  }

  /** The client claimed the device at `i`, and up to `n` nobody claimed it since, the client has not
      released it, and the daemon has not changed. */
  predicate OwnsSince(events: seq<Stamped>, i: nat, n: nat, client: string, device: string) {
    && i < n <= |events|
    && Claims(events, i, client, device)
    && forall k | i < k < n :: !GivesUp(events[k].event, client, device)
  }

  lemma {:induction false} OwnerStays(events: seq<Stamped>, i: nat, n: nat, client: string, device: string)
    requires OwnsSince(events, i, n, client, device)
    ensures OwnerOf(Replay(events[..n]).owners, device) == Some(client)
    decreases n
  {
    assert events[..n][..n - 1] == events[..n - 1];
    if i < n - 1 {
      OwnerStays(events, i, n - 1, client, device);
      assert !GivesUp(events[n - 1].event, client, device);
    }
  }

  /** A device is reported as owned by a client if and only if that client's claim stands. */
  lemma {:induction false} OwnerExactly(events: seq<Stamped>, n: nat, client: string, device: string)
    requires n <= |events|
    ensures OwnerOf(Replay(events[..n]).owners, device) == Some(client) <==>
            exists i: nat :: OwnsSince(events, i, n, client, device)
  {
    if OwnerOf(Replay(events[..n]).owners, device) == Some(client) {
      var i := OwnerClaimedLast(events, n, device);
      assert OwnsSince(events, i, n, client, device);
    }
    if i: nat :| OwnsSince(events, i, n, client, device) {
      OwnerStays(events, i, n, client, device);
    }
  }

  /** The device was claimed, by whomever, and the daemon has not changed since. */
  predicate ClaimedSince(events: seq<Stamped>, i: nat, n: nat, device: string) {
    && i < n <= |events|
    && events[i].event.Reply? && Claims(events, i, events[i].event.client, device)
    && forall k | i < k < n :: !events[k].event.DaemonChanged?
  }

  lemma {:induction false} KnownStays(events: seq<Stamped>, i: nat, n: nat, device: string)
    requires ClaimedSince(events, i, n, device)
    ensures device in Replay(events[..n]).owners
    decreases n
  {
    assert events[..n][..n - 1] == events[..n - 1];
    if i < n - 1 {
      KnownStays(events, i, n - 1, device);
      assert !events[n - 1].event.DaemonChanged?;
    }
  }

  lemma {:induction false} KnownWasClaimed(events: seq<Stamped>, n: nat, device: string) returns (i: nat)
    requires n <= |events| && device in Replay(events[..n]).owners
    ensures ClaimedSince(events, i, n, device)
  {
    assert events[..n][..n - 1] == events[..n - 1];
    var last := events[n - 1].event;
    if last.Reply? && last.ok && last.method_.Claim? && last.device == device {
      i := n - 1;
    } else {
      i := KnownWasClaimed(events, n - 1, device);
    }
  }

  /** A device is listed at all, owned or released, if and only if it was claimed under this daemon. */
  lemma KnownExactly(events: seq<Stamped>, n: nat, device: string)
    requires n <= |events|
    ensures device in Replay(events[..n]).owners <==> exists i: nat :: ClaimedSince(events, i, n, device)
  {
    if device in Replay(events[..n]).owners {
      var i := KnownWasClaimed(events, n, device);
    }
    if i: nat :| ClaimedSince(events, i, n, device) {
      KnownStays(events, i, n, device);
    }
  }

  // ----- open calls and clients -----

  /** A call is open if and only if an event opened it that nothing has touched since. */
  lemma OpenExactly(events: seq<Stamped>, n: nat, key: Key, asked: Asked)
    requires n <= |events|
    ensures (key in Replay(events[..n]).open && Replay(events[..n]).open[key] == asked) <==>
            exists i: nat :: OpenedBy(events, i, n, key, asked)
  {
    if key in Replay(events[..n]).open {
      var i := OpenWasCalled(events, n, key);
    }
    if i: nat :| OpenedBy(events, i, n, key, asked) {
      StaysOpen(events, i, n, key, asked);
    }
  }

  predicate Called(events: seq<Stamped>, n: nat, client: string) {
    n <= |events| && exists i | 0 <= i < n :: events[i].event.Call? && events[i].event.client == client
  }

  predicate Left(events: seq<Stamped>, n: nat, client: string) {
    n <= |events| && exists i | 0 <= i < n :: events[i].event == ClientGone(client)
  }

  /** The clients are those that called, the disconnected those seen leaving. */
  lemma {:induction false} ClientsExactly(events: seq<Stamped>, n: nat, client: string)
    requires n <= |events|
    ensures client in Replay(events[..n]).clients <==> Called(events, n, client)
    ensures client in Replay(events[..n]).gone <==> Left(events, n, client)
  {
    if n > 0 {
      assert events[..n][..n - 1] == events[..n - 1];
      ClientsExactly(events, n - 1, client);
    }
  }

  // ----- what replies are noted with -----

  /** A reply's note, from what the events before it tell: a claim, whose the device was and whether
      that client has left; a denial, whose it was and whether the caller was that; nothing else. */
  predicate NotedRightly(v: View, e: Event) {
    e.Reply? ==>
      var owner := OwnerOf(v.owners, e.device);
      match e.note
      case Plain => e.ok && !e.method_.Claim?
      case Claimed(previous, left) =>
        e.ok && e.method_.Claim? && previous == owner && (left <==> owner.Some? && owner.value in v.gone)
      case Denied(error, last, was) =>
        !e.ok && last == owner && (was.Some? <==> owner.Some?) && (was.Some? ==> was.value == (owner == Some(e.client)))
        && (IsErrorName(error) || error == "OTHER")
  }

  predicate AllNoted(events: seq<Stamped>) {
    forall j | 0 <= j < |events| :: NotedAt(events, j)
  }

  predicate NotedAt(events: seq<Stamped>, j: nat)
    requires j < |events|
  {
    NotedRightly(Replay(events[..j]), events[j].event)
  }

  lemma NotedAppend(events: seq<Stamped>, e: Stamped)
    requires AllNoted(events) && NotedRightly(Replay(events), e.event)
    ensures AllNoted(events + [e])
  {
    forall j | 0 <= j <= |events|
      ensures NotedAt(events + [e], j)
    {
      if j < |events| {
        assert NotedAt(events, j) && (events + [e])[..j] == events[..j];
      } else {
        assert (events + [e])[..j] == events;
      }
    }
  }

  lemma ReplyIsNoted(s: State, m: Value)
    requires Handle(s, m).Yields?
    ensures NotedRightly(ViewOf(s), Handle(s, m).event)
  {
  }

  /** Over every sequence of timed messages, every reply kept is noted as its history says. */
  lemma {:induction false} NotesAreTrue(messages: seq<Value>)
    requires AllTimed(messages)
    ensures AllNoted(FedAll(EMPTY, messages).events)
    decreases |messages|
  {
    if messages != [] {
      var init, m := messages[..|messages| - 1], messages[|messages| - 1];
      NotesAreTrue(init);
      CaptureIsTold(init);
      assert m in messages;
      var s := FedAll(EMPTY, init);
      if Handle(s, m).Yields? {
        ReplyIsNoted(s, m);
        HandleIsSeen(s, m);
        NotedAppend(s.events, Stamped(Handle(s, m).event, Get(m, "timestamp-realtime").i));
      }
    }
  }

  // ----- which message yields which event -----

  function NameOf(method_: Method): string {
    match method_
    case Claim => "Claim"
    case Release => "Release"
    case EnrollStart => "EnrollStart"
    case EnrollStop => "EnrollStop"
    case VerifyStart => "VerifyStart"
    case VerifyStop => "VerifyStop"
  }

  lemma MethodNames(name: string, method_: Method)
    ensures MethodOf(name) == Some(method_) <==> name == NameOf(method_)
  {
    assert |"Claim"| == 5 && |"Release"| == 7 && |"EnrollStart"| == 11 && |"EnrollStop"| == 10;
    assert |"VerifyStart"| == 11 && |"VerifyStop"| == 10;
    assert "EnrollStart"[0] != "VerifyStart"[0] && "EnrollStop"[0] != "VerifyStop"[0];
  }

  /** A message of that kind, whose payload, if it has one, is an object. */
  predicate IsMessage(m: Value, kind: string) {
    m.Object? && Get(m, "type") == Str(kind) && ("payload" in m.fields ==> m.fields["payload"].Object?)
  }

  /** The kind of message that yields such an event. */
  function KindOf(e: Event): string {
    match e
    case Call(_, _, _, _) => "method_call"
    case Reply(_, _, _, _, ok, _) => if ok then "method_return" else "error"
    case _ => "signal"
  }

  lemma KindsDiffer()
    ensures "method_call" != "method_return" && "method_call" != "error" && "method_call" != "signal"
    ensures "method_return" != "error" && "method_return" != "signal" && "error" != "signal"
  {
    assert |"method_call"| == 11 && |"method_return"| == 13 && |"error"| == 5 && |"signal"| == 6;
  }

  /** What handles it, by its kind. */
  function HandledAs(s: State, m: Value, e: Event): Outcome
    requires m.Object?
  {
    match e
    case Call(_, _, _, _) => CallOf(s, m)
    case Reply(_, _, _, _, ok, _) => ReplyOf(s, m, ok)
    case _ => SignalOf(s, m)
  }

  /** A message yields an event if and only if it is of the event's kind and what handles that kind
      yields it. */
  lemma Dispatches(s: State, m: Value, t: State, e: Event)
    ensures Handle(s, m) == Yields(t, e) <==> IsMessage(m, KindOf(e)) && HandledAs(s, m, e) == Yields(t, e)
  {
    KindsDiffer();
  }

  /** The fields of a call of the method, on the device, by the client, under that serial. */
  predicate IsCall(m: Value, client: string, serial: int, method_: Method, device: string, to: string)
    requires m.Object?
  {
    CallsDaemon(m, client, method_, device, to) && Get(m, "cookie") == Int(serial) && serial > 0
  }

  /** All of them but the serial. */
  predicate CallsDaemon(m: Value, client: string, method_: Method, device: string, to: string)
    requires m.Object?
  {
    && Get(m, "interface") == Str(INTERFACE) && Get(m, "member") == Str(NameOf(method_))
    && Get(m, "path") == Str(device) && IsDevice(device)
    && Get(m, "sender") == Str(client) && IsUnique(client)
    && Get(m, "destination") == Str(to) && (to == SERVICE || IsUnique(to))
  }

  function Opened(s: State, client: string, serial: int, method_: Method, device: string, to: string): State {
    s.(clients := s.clients + {client}, pending := s.pending[(client, serial) := Pending(method_, device, to)])
  }

  lemma CallIsHandled(s: State, m: Value, client: string, serial: int, method_: Method, device: string, to: string)
    requires m.Object? && IsCall(m, client, serial, method_, device, to)
    ensures CallOf(s, m)
            == Yields(Opened(s, client, serial, method_, device, to), Call(client, serial, method_, device))
  {
    MethodNames(NameOf(method_), method_);
  }

  lemma CallWasOne(s: State, m: Value)
    requires m.Object? && CallOf(s, m).Yields?
    ensures var e := CallOf(s, m).event;
            e.Call? && exists to :: IsCall(m, e.client, e.serial, e.method_, e.device, to)
  {
    var e := CallOf(s, m).event;
    MethodNames(Get(m, "member").s, e.method_);
    assert IsCall(m, e.client, e.serial, e.method_, e.device, Get(m, "destination").s);
  }

  /** A message yields a call event if and only if it is that call; then the client is known and the
      call open, and nothing else changes. */
  lemma CallsExactly(s: State, m: Value, t: State, client: string, serial: int, method_: Method, device: string)
    ensures Handle(s, m) == Yields(t, Call(client, serial, method_, device)) <==>
            IsMessage(m, "method_call")
            && exists to ::
                 IsCall(m, client, serial, method_, device, to) && t == Opened(s, client, serial, method_, device, to)
  {
    Dispatches(s, m, t, Call(client, serial, method_, device));
    if m.Object? {
      forall to | IsCall(m, client, serial, method_, device, to)
        ensures CallOf(s, m)
                == Yields(Opened(s, client, serial, method_, device, to), Call(client, serial, method_, device))
      {
        CallIsHandled(s, m, client, serial, method_, device, to);
      }
      if CallOf(s, m).Yields? { CallWasOne(s, m); }
    }
  }

  /** The fields of a reply to that serial of the client's, by the daemon that was called, when it was
      called by its unique name. */
  predicate IsReply(m: Value, client: string, serial: int, called: string)
    requires m.Object?
  {
    && Get(m, "destination") == Str(client) && IsUnique(client)
    && Get(m, "reply_cookie") == Int(serial)
    && Unique(Get(m, "sender")) && (IsUnique(called) ==> Get(m, "sender") == Str(called))
  }

  predicate AnswersOpen(s: State, m: Value, client: string, serial: int)
    requires m.Object?
  {
    (client, serial) in s.pending && IsReply(m, client, serial, s.pending[(client, serial)].destination)
  }

  lemma RepliesHandled(s: State, m: Value, ok: bool, client: string, serial: int)
    requires m.Object?
    ensures var o := ReplyOf(s, m, ok);
            (o.Yields? && o.event.client == client && o.event.serial == serial) <==> AnswersOpen(s, m, client, serial)
  {
  }

  lemma ReplyCloses(s: State, m: Value, ok: bool)
    requires m.Object? && ReplyOf(s, m, ok).Yields?
    ensures var t, e := ReplyOf(s, m, ok).state, ReplyOf(s, m, ok).event;
            && e.Reply? && e.ok == ok && (e.client, e.serial) in s.pending
            && s.pending[(e.client, e.serial)].method_ == e.method_
            && s.pending[(e.client, e.serial)].device == e.device
            && t.pending == s.pending - {(e.client, e.serial)}
            && t.clients == s.clients && t.disconnected == s.disconnected
            && (!ok ==> var name := Get(m, "error_name");
                        e.note.Denied?
                        && e.note.error == (if name.Str? && IsErrorName(name.s) then name.s else "OTHER"))
  {
  }

  /** A message yields a reply event if and only if a call is open and it is a reply to it. Then the
      event names that call, which is no longer open, and a denial keeps the daemon's own error name. */
  lemma RepliesExactly(s: State, m: Value, client: string, serial: int, ok: bool)
    ensures (exists t, method_, device, note ::
               Handle(s, m) == Yields(t, Reply(client, serial, method_, device, ok, note))) <==>
            IsMessage(m, if ok then "method_return" else "error") && AnswersOpen(s, m, client, serial)
  {
    if t, method_, device, note :| Handle(s, m) == Yields(t, Reply(client, serial, method_, device, ok, note)) {
      Dispatches(s, m, t, Reply(client, serial, method_, device, ok, note));
      RepliesHandled(s, m, ok, client, serial);
    }
    if IsMessage(m, if ok then "method_return" else "error") && AnswersOpen(s, m, client, serial) {
      RepliesHandled(s, m, ok, client, serial);
      ReplyCloses(s, m, ok);
      var o := ReplyOf(s, m, ok);
      Dispatches(s, m, o.state, o.event);
    }
  }

  /** A list of values in a payload of the given shape. */
  predicate Carries(m: Value, shape: string, data: seq<Value>)
    requires m.Object?
  {
    var payload := Get(m, "payload");
    payload.Object? && Get(payload, "type") == Str(shape) && Get(payload, "data") == List(data)
  }

  lemma CarriesData(m: Value, shape: string, data: seq<Value>)
    requires m.Object? && data != []
    ensures Carries(m, shape, data) <==> DataOf(m, shape) == Some(data)
  {
  }

  predicate IsStatus(m: Value, device: string, signal: string, data: seq<Value>)
    requires m.Object?
  {
    && Get(m, "interface") == Str(INTERFACE)
    && Get(m, "member") == Str(signal) && (signal == "EnrollStatus" || signal == "VerifyStatus")
    && Get(m, "path") == Str(device) && IsDevice(device)
    && Carries(m, "sb", data) && |data| == 2 && data[1].Bool?
  }

  function StatusIn(first: Value): Option<string> {
    if first.Str? && first.s in STATUSES then Some(first.s) else None
  }

  lemma SignalNames()
    ensures INTERFACE != BUS && "EnrollStatus" != "VerifyStatus"
    ensures "EnrollStatus" != "NameOwnerChanged" && "VerifyStatus" != "NameOwnerChanged"
  {
    assert INTERFACE[0] != BUS[0];
    assert "EnrollStatus"[0] != "VerifyStatus"[0];
    assert |"EnrollStatus"| == 12 && |"VerifyStatus"| == 12 && |"NameOwnerChanged"| == 16;
  }

  lemma StatusIsHandled(s: State, m: Value, device: string, signal: string, first: Value, done: bool)
    requires m.Object? && IsStatus(m, device, signal, [first, Bool(done)])
    ensures SignalOf(s, m) == Yields(s, Status(device, signal, StatusIn(first), done))
  {
    CarriesData(m, "sb", [first, Bool(done)]);
  }

  lemma StatusWasOne(s: State, m: Value)
    requires m.Object? && SignalOf(s, m).Yields? && SignalOf(s, m).event.Status?
    ensures var e := SignalOf(s, m).event;
            exists first :: IsStatus(m, e.device, e.signal, [first, Bool(e.done)]) && e.status == StatusIn(first)
    ensures SignalOf(s, m).state == s
  {
    var e, data := SignalOf(s, m).event, DataOf(m, "sb").value;
    assert data == [data[0], Bool(e.done)];
    CarriesData(m, "sb", data);
    assert IsStatus(m, e.device, e.signal, [data[0], Bool(e.done)]);
  }

  /** A message yields a status event if and only if it is one of the two status signals, with its two
      values; then nothing changes. */
  lemma StatusesExactly(s: State, m: Value, t: State, device: string, signal: string, status: Option<string>,
                        done: bool)
    ensures Handle(s, m) == Yields(t, Status(device, signal, status, done)) <==>
            IsMessage(m, "signal") && t == s
            && exists first :: IsStatus(m, device, signal, [first, Bool(done)]) && status == StatusIn(first)
  {
    Dispatches(s, m, t, Status(device, signal, status, done));
    if m.Object? {
      forall first | IsStatus(m, device, signal, [first, Bool(done)])
        ensures SignalOf(s, m) == Yields(s, Status(device, signal, StatusIn(first), done))
      {
        StatusIsHandled(s, m, device, signal, first, done);
      }
      if SignalOf(s, m).Yields? && SignalOf(s, m).event.Status? { StatusWasOne(s, m); }
    }
  }

  /** The bus says that a name changed hands. */
  predicate IsOwnerChange(m: Value, name: string, before: string, after: string)
    requires m.Object?
  {
    && Get(m, "sender") == Str(BUS) && Get(m, "interface") == Str(BUS)
    && Get(m, "member") == Str("NameOwnerChanged")
    && Carries(m, "sss", [Str(name), Str(before), Str(after)])
  }

  predicate NoneOrUnique(name: string) {
    name == "" || IsUnique(name)
  }

  /** What a name changing hands yields. */
  lemma OwnerChangeIsHandled(s: State, m: Value, name: string, before: string, after: string)
    requires m.Object? && IsOwnerChange(m, name, before, after)
    ensures SignalOf(s, m) ==
            if name in s.clients && before == name && after == "" then
              Yields(s.(disconnected := s.disconnected + {name}), ClientGone(name))
            else if name == SERVICE && NoneOrUnique(before) && NoneOrUnique(after) then
              Yields(s.(owners := map[], pending := map[]), DaemonChanged(before, after))
            else Ignored
  {
    SignalNames();
    CarriesData(m, "sss", [Str(name), Str(before), Str(after)]);
  }

  lemma OwnerChangeWasOne(s: State, m: Value)
    requires m.Object? && SignalOf(s, m).Yields? && !SignalOf(s, m).event.Status?
    ensures exists name, before, after :: IsOwnerChange(m, name, before, after)
  {
    var data := DataOf(m, "sss").value;
    assert data == [data[0], data[1], data[2]];
    CarriesData(m, "sss", data);
    assert IsOwnerChange(m, data[0].s, data[1].s, data[2].s);
  }

  /** A client is seen leaving if and only if it is known and the bus says that its own name has no
      owner any more. */
  lemma DeparturesExactly(s: State, m: Value, t: State, client: string)
    ensures Handle(s, m) == Yields(t, ClientGone(client)) <==>
            IsMessage(m, "signal") && IsOwnerChange(m, client, client, "")
            && client in s.clients && t == s.(disconnected := s.disconnected + {client})
  {
    Dispatches(s, m, t, ClientGone(client));
    if m.Object? {
      if IsOwnerChange(m, client, client, "") { OwnerChangeIsHandled(s, m, client, client, ""); }
      if SignalOf(s, m) == Yields(t, ClientGone(client)) {
        OwnerChangeWasOne(s, m);
        var name, before, after :| IsOwnerChange(m, name, before, after);
        OwnerChangeIsHandled(s, m, name, before, after);
      }
    }
  }

  /** The daemon is seen changing if and only if its name changed hands between unique names or none,
      and that is not the leaving of a client under its name. */
  lemma DaemonChangesExactly(s: State, m: Value, t: State, before: string, after: string)
    ensures Handle(s, m) == Yields(t, DaemonChanged(before, after)) <==>
            IsMessage(m, "signal") && IsOwnerChange(m, SERVICE, before, after)
            && NoneOrUnique(before) && NoneOrUnique(after)
            && !(SERVICE in s.clients && before == SERVICE && after == "")
            && t == s.(owners := map[], pending := map[])
  {
    Dispatches(s, m, t, DaemonChanged(before, after));
    if m.Object? {
      if IsOwnerChange(m, SERVICE, before, after) { OwnerChangeIsHandled(s, m, SERVICE, before, after); }
      if SignalOf(s, m) == Yields(t, DaemonChanged(before, after)) {
        OwnerChangeWasOne(s, m);
        var name, b, a :| IsOwnerChange(m, name, b, a);
        OwnerChangeIsHandled(s, m, name, b, a);
      }
    }
  }

  /** An event is kept if and only if its message carries a time, a positive number of the bus's own. */
  lemma KeptExactly(s: State, m: Value, e: Event, at: int)
    ensures (AnswerTo(s, m) == Kept(e) && Fed(s, m).events == Handle(s, m).state.events + [Stamped(e, at)]) <==>
            Handle(s, m).Yields? && Handle(s, m).event == e
            && m.Object? && Get(m, "timestamp-realtime") == Int(at) && at > 0
  {
    if Handle(s, m).Yields? && HasTime(m) {
      var events, time := Handle(s, m).state.events, Get(m, "timestamp-realtime").i;
      assert (events + [Stamped(Handle(s, m).event, time)])[|events|] == Stamped(Handle(s, m).event, time);
      if events + [Stamped(Handle(s, m).event, time)] == events + [Stamped(e, at)] {
        assert (events + [Stamped(e, at)])[|events|] == Stamped(e, at);
      }
    }
  }

  // ----- which messages are refused -----

  /** A call of the daemon whose serial is missing, or one whose method cannot even be looked up. */
  ghost predicate RefusedCall(m: Value)
    requires m.Object?
  {
    || (Get(m, "interface") == Str(INTERFACE) && !Hashable(Get(m, "member")))
    || (!(Get(m, "cookie").Int? && Get(m, "cookie").i > 0)
        && exists client, method_, device, to :: CallsDaemon(m, client, method_, device, to))
  }

  /** A reply to an open call from another than the daemon that was called by its unique name. */
  predicate RefusedReply(s: State, m: Value)
    requires m.Object?
  {
    var client, serial, sender := Get(m, "destination"), Get(m, "reply_cookie"), Get(m, "sender");
    && Unique(client) && serial.Int? && (client.s, serial.i) in s.pending && Unique(sender)
    && IsUnique(s.pending[(client.s, serial.i)].destination)
    && sender != Str(s.pending[(client.s, serial.i)].destination)
  }

  /** A status signal that is not one with its two values, or a name changing hands without its three. */
  ghost predicate RefusedSignal(m: Value)
    requires m.Object?
  {
    var member := Get(m, "member");
    || (Get(m, "interface") == Str(INTERFACE)
        && (!Hashable(member)
            || ((member == Str("EnrollStatus") || member == Str("VerifyStatus"))
                && forall device, data :: !IsStatus(m, device, member.s, data))))
    || (Get(m, "sender") == Str(BUS) && Get(m, "interface") == Str(BUS) && member == Str("NameOwnerChanged")
        && forall data :: Carries(m, "sss", data) ==> |data| != 3)
  }

  lemma CallsRefused(s: State, m: Value)
    requires m.Object?
    ensures CallOf(s, m) == Malformed <==> RefusedCall(m)
  {
    var member, path, sender, to := Get(m, "member"), Get(m, "path"), Get(m, "sender"), Get(m, "destination");
    if CallOf(s, m) == Malformed && Hashable(member) {
      MethodNames(member.s, MethodOf(member.s).value);
      assert CallsDaemon(m, sender.s, MethodOf(member.s).value, path.s, to.s);
    }
    if client, method_, device, to :| CallsDaemon(m, client, method_, device, to) {
      MethodNames(NameOf(method_), method_);
    }
  }

  lemma StatusesRefused(s: State, m: Value, signal: string)
    requires m.Object? && Get(m, "interface") == Str(INTERFACE)
    requires Get(m, "member") == Str(signal) && (signal == "EnrollStatus" || signal == "VerifyStatus")
    ensures StatusOf(s, m, signal) == Malformed <==> forall device, data :: !IsStatus(m, device, signal, data)
  {
    var data := DataOf(m, "sb");
    if StatusOf(s, m, signal) != Malformed {
      CarriesData(m, "sb", data.value);
      assert IsStatus(m, Get(m, "path").s, signal, data.value);
    }
    if device, items :| IsStatus(m, device, signal, items) {
      CarriesData(m, "sb", items);
    }
  }

  lemma OwnerChangesRefused(s: State, m: Value)
    requires m.Object?
    ensures OwnerChangeOf(s, m) == Malformed <==> forall data :: Carries(m, "sss", data) ==> |data| != 3
  {
    var data := DataOf(m, "sss");
    if data.Some? && |data.value| == 3 { CarriesData(m, "sss", data.value); }
    if items :| Carries(m, "sss", items) && |items| == 3 { CarriesData(m, "sss", items); }
  }

  /** Who refuses a signal, by its interface and member. */
  lemma SignalRefusedByName(s: State, m: Value)
    requires m.Object?
    ensures var interface, member := Get(m, "interface"), Get(m, "member");
            SignalOf(s, m) == Malformed <==>
              || (interface == Str(INTERFACE) && !Hashable(member))
              || (interface == Str(INTERFACE) && member == Str("EnrollStatus")
                  && StatusOf(s, m, "EnrollStatus") == Malformed)
              || (interface == Str(INTERFACE) && member == Str("VerifyStatus")
                  && StatusOf(s, m, "VerifyStatus") == Malformed)
              || (Get(m, "sender") == Str(BUS) && interface == Str(BUS) && member == Str("NameOwnerChanged")
                  && OwnerChangeOf(s, m) == Malformed)
  {
    SignalNames();
  }

  lemma SignalsRefused(s: State, m: Value)
    requires m.Object?
    ensures SignalOf(s, m) == Malformed <==> RefusedSignal(m)
  {
    var member := Get(m, "member");
    SignalRefusedByName(s, m);
    OwnerChangesRefused(s, m);
    if Get(m, "interface") == Str(INTERFACE) && (member == Str("EnrollStatus") || member == Str("VerifyStatus")) {
      StatusesRefused(s, m, member.s);
    }
  }

  lemma RepliesRefused(s: State, m: Value, ok: bool)
    requires m.Object?
    ensures ReplyOf(s, m, ok) == Malformed <==> RefusedReply(s, m)
  {
  }

  /** Who refuses a message, by its type. */
  lemma RefusedByType(s: State, m: Value)
    ensures Handle(s, m) == Malformed <==>
            || !m.Object? || ("payload" in m.fields && !m.fields["payload"].Object?)
            || (Get(m, "type") == Str("method_call") && CallOf(s, m) == Malformed)
            || (Get(m, "type") == Str("method_return") && ReplyOf(s, m, true) == Malformed)
            || (Get(m, "type") == Str("error") && ReplyOf(s, m, false) == Malformed)
            || (Get(m, "type") == Str("signal") && SignalOf(s, m) == Malformed)
  {
    KindsDiffer();
  }

  /** A message is refused as malformed if and only if it is no object, its payload is none, or it is a
      call, a reply or a signal that is wrong in one of these ways; a refused message changes nothing. */
  lemma RefusedExactly(s: State, m: Value)
    ensures Handle(s, m) == Malformed <==>
            || !m.Object? || ("payload" in m.fields && !m.fields["payload"].Object?)
            || (Get(m, "type") == Str("method_call") && RefusedCall(m))
            || (Get(m, "type") in [Str("method_return"), Str("error")] && RefusedReply(s, m))
            || (Get(m, "type") == Str("signal") && RefusedSignal(m))
    ensures Handle(s, m) == Malformed ==> Fed(s, m) == s && AnswerTo(s, m) == Refused
  {
    RefusedByType(s, m);
    if m.Object? {
      CallsRefused(s, m);
      RepliesRefused(s, m, true);
      RepliesRefused(s, m, false);
      SignalsRefused(s, m);
    }
  }
}
