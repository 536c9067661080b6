/** What the kept events say: they alone determine who owns what and which calls are open. */
module TraceLaws {
  import opened Trace

  // ----- replaying the events -----

  /** An open call, as the events tell it: they do not keep the destination. */
  datatype Asked = Asked(method_: Method, device: string)

  datatype View = View(clients: set<string>, open: map<Key, Asked>, owners: Owners, gone: set<string>)

  const NOTHING_SEEN: View := View({}, map[], map[], {})

  /** What one event tells about the bus. */
  function Seen(v: View, e: Event): View {
    match e
    case Call(client, serial, method_, device) =>
      v.(clients := v.clients + {client}, open := v.open[(client, serial) := Asked(method_, device)])
    case Reply(client, serial, method_, device, ok, _) =>
      v.(open := v.open - {(client, serial)}, owners := OwnersAfter(v.owners, method_, device, client, ok))
    case Status(_, _, _, _) => v
    case ClientGone(client) => v.(gone := v.gone + {client})
    case DaemonChanged(_, _) => v.(open := map[], owners := map[])
  }

  function Replay(events: seq<Stamped>): View {
    if events == [] then NOTHING_SEEN
    else Seen(Replay(events[..|events| - 1]), events[|events| - 1].event)
  }

  function OpenOf(pending: map<Key, Pending>): map<Key, Asked> {
    map k | k in pending :: Asked(pending[k].method_, pending[k].device)
  }

  function ViewOf(s: State): View {
    View(s.clients, OpenOf(s.pending), s.owners, s.disconnected)
  }

  /** The state is what its own events tell. */
  predicate Told(s: State) {
    Replay(s.events) == ViewOf(s)
  }

  /** Whatever a message changes is told by the event it yields. */
  lemma HandleIsSeen(s: State, m: Value)
    requires Handle(s, m).Yields?
    ensures ViewOf(Handle(s, m).state) == Seen(ViewOf(s), Handle(s, m).event)
    ensures Handle(s, m).state.events == s.events
  {
    var o := Handle(s, m);
    match o.event
    case Call(client, serial, method_, device) =>
      OpenGrows(s.pending, (client, serial), o.state.pending[(client, serial)]);
    case Reply(client, serial, method_, device, ok, _) =>
      OpenShrinks(s.pending, (client, serial));
    case Status(_, _, _, _) =>
    case ClientGone(_) =>
    case DaemonChanged(_, _) =>
  }

  lemma OpenGrows(pending: map<Key, Pending>, key: Key, call: Pending)
    ensures OpenOf(pending[key := call]) == OpenOf(pending)[key := Asked(call.method_, call.device)]
  {
  }

  lemma OpenShrinks(pending: map<Key, Pending>, key: Key)
    ensures OpenOf(pending - {key}) == OpenOf(pending) - {key}
  {
  }

  /** An event that tells nothing the view does not hold already, by its kind. A call does when
      its client is known and the same call is open under the same key; a client's leaving, when
      it is gone already; a change of daemon, when nothing is open or owned; a status always, and
      a reply never. */
  predicate TellsNothing(v: View, e: Event) {
    match e
    case Call(client, serial, method_, device) =>
      client in v.clients && (client, serial) in v.open && v.open[(client, serial)] == Asked(method_, device)
    case Reply(_, _, _, _, _, _) => false
    case Status(_, _, _, _) => true
    case ClientGone(client) => client in v.gone
    case DaemonChanged(_, _) => v.open == map[] && v.owners == map[]
  }

  lemma NewsIsSeen(v: View, e: Event)
    requires Follows(v, e)
    ensures Seen(v, e) == v <==> TellsNothing(v, e)
  {
    match e
    case Call(client, serial, method_, device) =>
      assert Seen(v, e).open[(client, serial)] == Asked(method_, device) && client in Seen(v, e).clients;
      if TellsNothing(v, e) {
        assert v.open[(client, serial) := Asked(method_, device)] == v.open;
        assert v.clients + {client} == v.clients;
      }
    case Reply(client, serial, _, _, _, _) =>
      assert (client, serial) in v.open && (client, serial) !in Seen(v, e).open;
    case Status(_, _, _, _) =>
    case ClientGone(client) =>
      assert client in Seen(v, e).gone;
      assert client in v.gone ==> v.gone + {client} == v.gone;
    case DaemonChanged(_, _) =>
  }

  /** A message keeps the state told exactly when it yields no event, carries a time, or its event
      tells nothing new. */
  lemma FedIsToldExactly(s: State, m: Value)
    requires Told(s)
    ensures Told(Fed(s, m)) <==>
            !Handle(s, m).Yields? || HasTime(m) || TellsNothing(ViewOf(s), Handle(s, m).event)
  {
    if Handle(s, m).Yields? {
      var e := Handle(s, m).event;
      HandleIsSeen(s, m);
      if e.Reply? { ReplyWasOpen(s, m); }
      NewsIsSeen(ViewOf(s), e);
      if HasTime(m) {
        ReplayAppend(s.events, Stamped(e, Get(m, "timestamp-realtime").i));
        SameView(Handle(s, m).state, Fed(s, m));
      }
    }
  }

  lemma ReplayAppend(events: seq<Stamped>, e: Stamped)
    ensures Replay(events + [e]) == Seen(Replay(events), e.event)
  {
    assert (events + [e])[..|events|] == events;
  }

  lemma SameView(s: State, t: State)
    requires s.clients == t.clients && s.pending == t.pending
    requires s.owners == t.owners && s.disconnected == t.disconnected
    ensures ViewOf(s) == ViewOf(t)
  {
  }

  // ----- whole captures -----

  function FedAll(s: State, messages: seq<Value>): State
    decreases |messages|
  {
    if messages == [] then s else Fed(FedAll(s, messages[..|messages| - 1]), messages[|messages| - 1])
  }

  /** Every message carries a time. */
  predicate AllTimed(messages: seq<Value>) {
    forall m | m in messages :: HasTime(m)
  }

  /** Over every sequence of messages with times, the owners, the open calls, the clients and the
      disconnected are what a replay of the kept events alone computes. */
  lemma {:induction false} CaptureIsTold(messages: seq<Value>)
    requires AllTimed(messages)
    ensures Told(FedAll(EMPTY, messages))
    decreases |messages|
  {
    if messages != [] {
      var init, last := messages[..|messages| - 1], messages[|messages| - 1];
      CaptureIsTold(init);
      assert last in messages;
      FedIsToldExactly(FedAll(EMPTY, init), last);
    }
  }

  // ----- replies and their calls -----

  predicate Touches(e: Event, key: Key) {
    match e
    case Call(client, serial, _, _) => (client, serial) == key
    case Reply(client, serial, _, _, _, _) => (client, serial) == key
    case DaemonChanged(_, _) => true
    case _ => false
  }

  /** Event i opened the call that is still open after the first n events. */
  predicate OpenedBy(events: seq<Stamped>, i: nat, n: nat, key: Key, asked: Asked) {
    && i < n <= |events|
    && events[i].event == Call(key.0, key.1, asked.method_, asked.device)
    && forall k | i < k < n :: !Touches(events[k].event, key)
  }

  lemma {:induction false} OpenWasCalled(events: seq<Stamped>, n: nat, key: Key) returns (i: nat)
    requires n <= |events| && key in Replay(events[..n]).open
    ensures OpenedBy(events, i, n, key, Replay(events[..n]).open[key])
  {
    assert events[..n][..n - 1] == events[..n - 1];
    var last := events[n - 1].event;
    if last.Call? && (last.client, last.serial) == key {
      i := n - 1;
    } else {
      i := OpenWasCalled(events, n - 1, key);
    }
  }

  /** A call stays open until an event touches it. */
  lemma {:induction false} StaysOpen(events: seq<Stamped>, i: nat, n: nat, key: Key, asked: Asked)
    requires OpenedBy(events, i, n, key, asked)
    ensures key in Replay(events[..n]).open && Replay(events[..n]).open[key] == asked
    decreases n
  {
    assert events[..n][..n - 1] == events[..n - 1];
    if i < n - 1 {
      StaysOpen(events, i, n - 1, key, asked);
    }
  }

  /** Every reply among the events answers a call that was open. */
  predicate Answered(events: seq<Stamped>, j: nat)
    requires j < |events|
  {
    var e := events[j].event;
    e.Reply? ==> var open := Replay(events[..j]).open;
                 (e.client, e.serial) in open && open[(e.client, e.serial)] == Asked(e.method_, e.device)
  }

  predicate AllAnswered(events: seq<Stamped>) {
    forall j | 0 <= j < |events| :: Answered(events, j)
  }

  /** An event that answers a call still open may follow, and so may any other kind. */
  predicate Follows(v: View, e: Event) {
    e.Reply? ==> (e.client, e.serial) in v.open && v.open[(e.client, e.serial)] == Asked(e.method_, e.device)
  }

  lemma AnsweredAppend(events: seq<Stamped>, e: Stamped)
    requires AllAnswered(events) && Follows(Replay(events), e.event)
    ensures AllAnswered(events + [e])
  {
    forall j | 0 <= j <= |events|
      ensures Answered(events + [e], j)
    {
      if j < |events| {
        assert Answered(events, j) && (events + [e])[..j] == events[..j];
      } else {
        assert (events + [e])[..j] == events;
      }
    }
  }

  lemma FedAnswers(s: State, m: Value)
    requires Told(s) && AllAnswered(s.events)
    ensures AllAnswered(Fed(s, m).events)
  {
    if Handle(s, m).Yields? {
      HandleIsSeen(s, m);
      var e := Handle(s, m).event;
      if e.Reply? { ReplyWasOpen(s, m); }
      if HasTime(m) {
        AnsweredAppend(s.events, Stamped(e, Get(m, "timestamp-realtime").i));
      }
    }
  }

  lemma ReplyWasOpen(s: State, m: Value)
    requires Handle(s, m).Yields? && Handle(s, m).event.Reply?
    ensures var e := Handle(s, m).event;
            && (e.client, e.serial) in s.pending
            && s.pending[(e.client, e.serial)].method_ == e.method_
            && s.pending[(e.client, e.serial)].device == e.device
  {
  }

  lemma {:induction false} CaptureIsAnswered(messages: seq<Value>)
    requires AllTimed(messages)
    ensures AllAnswered(FedAll(EMPTY, messages).events)
    decreases |messages|
  {
    if messages != [] {
      var init := messages[..|messages| - 1];
      CaptureIsAnswered(init);
      CaptureIsTold(init);
      FedAnswers(FedAll(EMPTY, init), messages[|messages| - 1]);
    }
  }

  /** The reply at j consumes the call at i: same client, serial, method and device, and nothing
      between them answers, repeats or clears it. */
  predicate Consumes(events: seq<Stamped>, i: nat, j: nat) {
    && i < j < |events| && events[j].event.Reply?
    && var e := events[j].event; OpenedBy(events, i, j, (e.client, e.serial), Asked(e.method_, e.device))
  }

  /** Every reply event consumes one earlier call, and no call is consumed twice. */
  lemma RepliesConsumeCalls(messages: seq<Value>)
    requires AllTimed(messages)
    ensures var events := FedAll(EMPTY, messages).events;
            && (forall j | 0 <= j < |events| && events[j].event.Reply? :: exists i: nat :: Consumes(events, i, j))
            && (forall i: nat, j: nat, k: nat | Consumes(events, i, j) && Consumes(events, i, k) :: j == k)
            && (forall h: nat, i: nat, j: nat | Consumes(events, h, j) && Consumes(events, i, j) :: h == i)
  {
    CaptureIsAnswered(messages);
    var events := FedAll(EMPTY, messages).events;
    forall j | 0 <= j < |events| && events[j].event.Reply?
      ensures exists i: nat :: Consumes(events, i, j)
    {
      assert Answered(events, j);
      var i := OpenWasCalled(events, j, (events[j].event.client, events[j].event.serial));
      assert Consumes(events, i, j);
    }
    ConsumedOnce(events);
  }

  lemma ConsumedOnce(events: seq<Stamped>)
    ensures forall i: nat, j: nat, k: nat | Consumes(events, i, j) && Consumes(events, i, k) :: j == k
    ensures forall h: nat, i: nat, j: nat | Consumes(events, h, j) && Consumes(events, i, j) :: h == i
  {
    forall i: nat, j: nat, k: nat | Consumes(events, i, j) && Consumes(events, i, k)
      ensures j == k
    {
      var key := (events[i].event.client, events[i].event.serial);
      assert Touches(events[j].event, key) && Touches(events[k].event, key);
    }
    forall h: nat, i: nat, j: nat | Consumes(events, h, j) && Consumes(events, i, j)
      ensures h == i
    {
      var key := (events[j].event.client, events[j].event.serial);
      assert Touches(events[h].event, key) && Touches(events[i].event, key);
    }
  }

  // ----- ownership -----

  predicate GivesUp(e: Event, client: string, device: string) {
    match e
    case Reply(c, _, m, d, ok, _) => ok && d == device && (m.Claim? || (m.Release? && c == client))
    case DaemonChanged(_, _) => true
    case _ => false
  }

  /** Whoever is reported as owning a device claimed it last, and has not released it since, nor
      has the daemon changed hands. */
  lemma {:induction false} OwnerClaimedLast(events: seq<Stamped>, n: nat, device: string) returns (i: nat)
    requires n <= |events| && OwnerOf(Replay(events[..n]).owners, device).Some?
    ensures i < n
    ensures var owner, e := OwnerOf(Replay(events[..n]).owners, device).value, events[i].event;
            && e.Reply? && e.ok && e.method_.Claim? && e.client == owner && e.device == device
            && forall k | i < k < n :: !GivesUp(events[k].event, owner, device)
  {
    assert events[..n][..n - 1] == events[..n - 1];
    var last := events[n - 1].event;
    if last.Reply? && last.ok && last.method_.Claim? && last.device == device {
      i := n - 1;
    } else {
      i := OwnerClaimedLast(events, n - 1, device);
    }
  }

  // ----- when the time is missing -----

  /** Without its time a call is left open that no event tells of. */
  lemma UntimedCallIsUntold() returns (m: Value)
    ensures !HasTime(m) && AnswerTo(EMPTY, m) == Refused && !Told(Fed(EMPTY, m))
  {
    m := Object(map["type" := Str("method_call"), "interface" := Str(INTERFACE), "member" := Str("Claim"),
                    "path" := Str("/net/reactivated/Fprint/Device/0"), "sender" := Str(":1.5"),
                    "destination" := Str(SERVICE), "cookie" := Int(7)]);
    var sender := ":1.5";
    assert IsUnique(sender) by {
      assert sender[0] == ':' && sender[2] == '.' && IsDigits(sender[1..2]) && IsDigits(sender[2 + 1..]);
    }
    var path := "/net/reactivated/Fprint/Device/0";
    assert path[|DEVICE_PREFIX|..] == "0";
    assert IsDevice(path);
    assert Handle(EMPTY, m).Yields?;
    assert (":1.5", 7) in Fed(EMPTY, m).pending;
    assert (":1.5", 7) in ViewOf(Fed(EMPTY, m)).open;
  }
}
