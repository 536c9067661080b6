/** The fingerprint daemon's bus traffic reduced to ownership events
    (src/apex/verification/fingerprinttrace.py), fed one message at a time. */
module Trace {
  import opened Bytes

  // ----- messages -----

  /** A JSON value. */
  datatype Value =
    | Null
    | Bool(b: bool)
    | Int(i: int)
    | Fraction
    | Str(s: string)
    | List(items: seq<Value>)
    | Object(fields: map<string, Value>)

  /** A field of an object; null where there is none. */
  function Get(m: Value, key: string): Value
    requires m.Object?
  {
    if key in m.fields then m.fields[key] else Null
  }

  /** Lists and objects have no hash, so asking whether a set holds one raises. */
  predicate Hashable(v: Value) {
    !v.List? && !v.Object?
  }

  const SERVICE := "net.reactivated.Fprint"
  const INTERFACE := "net.reactivated.Fprint.Device"
  const BUS := "org.freedesktop.DBus"
  const DEVICE_PREFIX := "/net/reactivated/Fprint/Device/"
  const ERROR_PREFIX := "net.reactivated.Fprint.Error."
  const STATUSES: set<string> := {
    "enroll-stage-passed", "enroll-completed", "enroll-failed", "enroll-data-full", "enroll-disconnected",
    "enroll-unknown-error", "enroll-retry-scan", "enroll-swipe-too-short", "enroll-finger-not-centered",
    "enroll-remove-and-retry", "enroll-duplicate", "verify-match", "verify-no-match", "verify-retry-scan",
    "verify-swipe-too-short", "verify-finger-not-centered", "verify-remove-and-retry", "verify-disconnected",
    "verify-unknown-error" }

  datatype Method = Claim | Release | EnrollStart | EnrollStop | VerifyStart | VerifyStop

  function MethodOf(name: string): Option<Method> {
    if name == "Claim" then Some(Claim)
    else if name == "Release" then Some(Release)
    else if name == "EnrollStart" then Some(EnrollStart)
    else if name == "EnrollStop" then Some(EnrollStop)
    else if name == "VerifyStart" then Some(VerifyStart)
    else if name == "VerifyStop" then Some(VerifyStop)
    else None
  }

  predicate IsDigits(s: string) {
    s != "" && forall i | 0 <= i < |s| :: '0' <= s[i] <= '9'
  }

  predicate IsLetters(s: string) {
    s != "" && forall i | 0 <= i < |s| :: 'a' <= s[i] <= 'z' || 'A' <= s[i] <= 'Z'
  }

  predicate Prefixed(s: string, prefix: string, test: string -> bool) {
    prefix <= s && test(s[|prefix|..])
  }

  predicate IsDevice(s: string) {
    Prefixed(s, DEVICE_PREFIX, IsDigits)
  }

  predicate IsErrorName(s: string) {
    Prefixed(s, ERROR_PREFIX, IsLetters)
  }

  /** A unique bus name: a colon, digits, a dot and digits. */
  predicate IsUnique(s: string) {
    exists k | 1 < k < |s| :: s[0] == ':' && s[k] == '.' && IsDigits(s[1..k]) && IsDigits(s[k + 1..])
  }

  predicate Unique(v: Value) {
    v.Str? && IsUnique(v.s)
  }

  // ----- events and state -----

  datatype Note =
    | Plain
    | Claimed(previous: Option<string>, afterDisconnect: bool)
    | Denied(error: string, lastOwner: Option<string>, callerWasLast: Option<bool>)

  datatype Event =
    | Call(client: string, serial: int, method_: Method, device: string)
    | Reply(client: string, serial: int, method_: Method, device: string, ok: bool, note: Note)
    | Status(device: string, signal: string, status: Option<string>, done: bool)
    | ClientGone(client: string)
    | DaemonChanged(before: string, after: string)

  /** An event as it is kept, with the bus's own time. */
  datatype Stamped = Stamped(event: Event, at: int)

  type Key = (string, int)

  datatype Pending = Pending(method_: Method, device: string, destination: string)

  type Owners = map<string, Option<string>>

  datatype State = State(
    clients: set<string>,
    pending: map<Key, Pending>,
    owners: Owners,
    disconnected: set<string>,
    events: seq<Stamped>)

  const EMPTY: State := State({}, map[], map[], {}, [])

  /** What one message does: it is malformed, it is of no interest, or it changes the state and
      yields an event. */
  datatype Outcome = Malformed | Ignored | Yields(state: State, event: Event)

  function OwnerOf(owners: Owners, device: string): Option<string> {
    if device in owners then owners[device] else None
  }

  function CallOf(s: State, m: Value): Outcome
    requires m.Object?
  {
    var member, path, sender, destination :=
      Get(m, "member"), Get(m, "path"), Get(m, "sender"), Get(m, "destination");
    if Get(m, "interface") != Str(INTERFACE) then Ignored
    else if !Hashable(member) then Malformed
    else if !member.Str? || MethodOf(member.s).None? then Ignored
    else if !path.Str? || !IsDevice(path.s) then Ignored
    else if !Unique(sender) || !(destination == Str(SERVICE) || Unique(destination)) then Ignored
    else if !Get(m, "cookie").Int? || Get(m, "cookie").i <= 0 then Malformed
    else
      var serial, call := Get(m, "cookie").i, MethodOf(member.s).value;
      Yields(s.(clients := s.clients + {sender.s},
                pending := s.pending[(sender.s, serial) := Pending(call, path.s, destination.s)]),
             Call(sender.s, serial, call, path.s))
  }

  function ErrorNote(s: State, call: Pending, client: string, name: Value): Note {
    var previous := OwnerOf(s.owners, call.device);
    Denied(if name.Str? && IsErrorName(name.s) then name.s else "OTHER", previous,
           if previous.Some? then Some(previous.value == client) else None)
  }

  /** A claim's note: whose the device was last, and whether that client has left the bus. */
  function ClaimNote(s: State, call: Pending): Note {
    var previous := OwnerOf(s.owners, call.device);
    Claimed(previous, previous.Some? && previous.value in s.disconnected)
  }

  /** Who owns what once a call was answered. */
  function OwnersAfter(owners: Owners, method_: Method, device: string, client: string, ok: bool): Owners {
    if ok && method_.Claim? then owners[device := Some(client)]
    else if ok && method_.Release? && OwnerOf(owners, device) == Some(client) then owners[device := None]
    else owners
  }

  function ReplyOf(s: State, m: Value, ok: bool): Outcome
    requires m.Object?
  {
    var serial, destination, sender := Get(m, "reply_cookie"), Get(m, "destination"), Get(m, "sender");
    if !Unique(destination) || !serial.Int? then Ignored
    else
      var key := (destination.s, serial.i);
      if key !in s.pending || !Unique(sender) then Ignored
      else
        var call := s.pending[key];
        if IsUnique(call.destination) && sender.s != call.destination then Malformed
        else
          var note := if !ok then ErrorNote(s, call, destination.s, Get(m, "error_name"))
                      else if call.method_.Claim? then ClaimNote(s, call)
                      else Plain;
          Yields(s.(pending := s.pending - {key},
                    owners := OwnersAfter(s.owners, call.method_, call.device, destination.s, ok)),
                 Reply(destination.s, serial.i, call.method_, call.device, ok, note))
  }

  /** The data of a payload of the given shape; none when the payload is shaped otherwise. */
  function DataOf(m: Value, shape: string): Option<seq<Value>>
    requires m.Object?
  {
    var payload := Get(m, "payload");
    if !payload.Object? || Get(payload, "type") != Str(shape) then None
    else if "data" !in payload.fields then Some([])
    else if !payload.fields["data"].List? then None
    else Some(payload.fields["data"].items)
  }

  function StatusOf(s: State, m: Value, signal: string): Outcome
    requires m.Object?
  {
    var path, data := Get(m, "path"), DataOf(m, "sb");
    if !path.Str? || !IsDevice(path.s) || data.None? then Malformed
    else if |data.value| != 2 || !data.value[1].Bool? then Malformed
    else
      var first := data.value[0];
      var status := if first.Str? && first.s in STATUSES then Some(first.s) else None;
      Yields(s, Status(path.s, signal, status, data.value[1].b))
  }

  predicate EmptyOrUnique(v: Value) {
    v.Str? && (v.s == "" || IsUnique(v.s))
  }

  /** A name that changed hands. The source compares the texts of the three values; of the values
      that are not strings none has the text of a client, of the service or of nothing. */
  function OwnerChangeOf(s: State, m: Value): Outcome
    requires m.Object?
  {
    var data := DataOf(m, "sss");
    if data.None? || |data.value| != 3 then Malformed
    else
      var name, before, after := data.value[0], data.value[1], data.value[2];
      if name.Str? && name.s in s.clients && before == name && after == Str("") then
        Yields(s.(disconnected := s.disconnected + {name.s}), ClientGone(name.s))
      else if name == Str(SERVICE) && EmptyOrUnique(before) && EmptyOrUnique(after) then
        Yields(s.(owners := map[], pending := map[]), DaemonChanged(before.s, after.s))
      else Ignored
  }

  function SignalOf(s: State, m: Value): Outcome
    requires m.Object?
  {
    var interface, member := Get(m, "interface"), Get(m, "member");
    if interface == Str(INTERFACE) && !Hashable(member) then Malformed
    else if interface == Str(INTERFACE) && member == Str("EnrollStatus") then StatusOf(s, m, "EnrollStatus")
    else if interface == Str(INTERFACE) && member == Str("VerifyStatus") then StatusOf(s, m, "VerifyStatus")
    else if Get(m, "sender") == Str(BUS) && interface == Str(BUS) && member == Str("NameOwnerChanged") then
      OwnerChangeOf(s, m)
    else Ignored
  }

  function Handle(s: State, m: Value): Outcome {
    if !m.Object? then Malformed
    else if "payload" in m.fields && !m.fields["payload"].Object? then Malformed
    else
      var kind := Get(m, "type");
      if kind == Str("method_call") then CallOf(s, m)
      else if kind == Str("method_return") then ReplyOf(s, m, true)
      else if kind == Str("error") then ReplyOf(s, m, false)
      else if kind == Str("signal") then SignalOf(s, m)
      else Ignored
  }

  predicate HasTime(m: Value) {
    m.Object? && Get(m, "timestamp-realtime").Int? && Get(m, "timestamp-realtime").i > 0
  }

  /** The state once a message was fed. The timestamp is looked at last, so a message without one
      has changed the state before it is refused. */
  function Fed(s: State, m: Value): State {
    match Handle(s, m)
    case Malformed => s
    case Ignored => s
    case Yields(t, e) =>
      if HasTime(m) then t.(events := t.events + [Stamped(e, Get(m, "timestamp-realtime").i)]) else t
  }

  datatype Answer = Refused | Nothing | Kept(event: Event)

  function AnswerTo(s: State, m: Value): Answer {
    match Handle(s, m)
    case Malformed => Refused
    case Ignored => Nothing
    case Yields(_, e) => if HasTime(m) then Kept(e) else Refused
  }

  /** What went wrong with a line of the transcript, or with the transcript. */
  datatype Fault = MalformedEvent | SizeLimit | PartialEvent

  // ----- the trace -----

  class Recorder {
    var clients: set<string>
    var pending: map<Key, Pending>
    var owners: Owners
    var disconnected: set<string>
    var events: seq<Stamped>
    var errors: seq<Fault>

    constructor ()
      ensures Contents() == EMPTY && errors == []
    {
      clients, pending, owners, disconnected, events, errors := {}, map[], map[], {}, [], [];
    }

    ghost function Contents(): State
      reads this
    {
      State(clients, pending, owners, disconnected, events)
    }

    /** Feeds one message: the event it yields, nothing, or a refusal. */
    method Feed(m: Value) returns (r: Answer)
      modifies this`clients, this`pending, this`owners, this`disconnected, this`events
      ensures Contents() == Fed(old(Contents()), m)
      ensures r == AnswerTo(old(Contents()), m)
    {
      if !m.Object? { return Refused; }
      if "payload" in m.fields && !m.fields["payload"].Object? { return Refused; }
      var kind, event := Get(m, "type"), Nothing;
      if kind == Str("method_call") {
        event := NoteCall(m);
      } else if kind == Str("method_return") {
        event := NoteReply(m, true);
      } else if kind == Str("error") {
        event := NoteReply(m, false);
      } else if kind == Str("signal") {
        event := NoteSignal(m);
      }
      if !event.Kept? { return event; }
      var time := Get(m, "timestamp-realtime");
      if !time.Int? || time.i <= 0 { return Refused; }
      events := events + [Stamped(event.event, time.i)];
      return event;
    }

    method NoteCall(m: Value) returns (r: Answer)
      requires m.Object?
      modifies this`clients, this`pending
      ensures Answers(r, CallOf(old(Contents()), m), old(Contents()), Contents())
    {
      var member, path, sender, destination :=
        Get(m, "member"), Get(m, "path"), Get(m, "sender"), Get(m, "destination");
      if Get(m, "interface") != Str(INTERFACE) { return Nothing; }
      if !Hashable(member) { return Refused; }
      if !member.Str? || MethodOf(member.s).None? { return Nothing; }
      if !path.Str? || !IsDevice(path.s) { return Nothing; }
      if !Unique(sender) || !(destination == Str(SERVICE) || Unique(destination)) { return Nothing; }
      var serial := Get(m, "cookie");
      if !serial.Int? || serial.i <= 0 { return Refused; }
      var call := MethodOf(member.s).value;
      if sender.s !in clients {
        clients := clients + {sender.s};
      }
      pending := pending[(sender.s, serial.i) := Pending(call, path.s, destination.s)];
      return Kept(Call(sender.s, serial.i, call, path.s));
    }

    method NoteReply(m: Value, ok: bool) returns (r: Answer)
      requires m.Object?
      modifies this`pending, this`owners
      ensures Answers(r, ReplyOf(old(Contents()), m, ok), old(Contents()), Contents())
    {
      var serial, destination, sender := Get(m, "reply_cookie"), Get(m, "destination"), Get(m, "sender");
      if !Unique(destination) || !serial.Int? { return Nothing; }
      var key := (destination.s, serial.i);
      if key !in pending || !Unique(sender) { return Nothing; }
      var call := pending[key];
      if IsUnique(call.destination) && sender.s != call.destination { return Refused; }
      pending := pending - {key};
      var note := Plain;
      var previous := OwnerOf(owners, call.device);
      if !ok {
        var name := Get(m, "error_name");
        note := Denied(if name.Str? && IsErrorName(name.s) then name.s else "OTHER", previous,
                       if previous.Some? then Some(previous.value == destination.s) else None);
      } else if call.method_.Claim? {
        note := Claimed(previous, previous.Some? && previous.value in disconnected);
        owners := owners[call.device := Some(destination.s)];
      } else if call.method_.Release? && previous == Some(destination.s) {
        owners := owners[call.device := None];
      }
      return Kept(Reply(destination.s, serial.i, call.method_, call.device, ok, note));
    }

    method NoteSignal(m: Value) returns (r: Answer)
      requires m.Object?
      modifies this`disconnected, this`owners, this`pending
      ensures Answers(r, SignalOf(old(Contents()), m), old(Contents()), Contents())
    {
      var interface, member := Get(m, "interface"), Get(m, "member");
      if interface == Str(INTERFACE) {
        if !Hashable(member) { return Refused; }
        if member == Str("EnrollStatus") || member == Str("VerifyStatus") {
          var status := StatusOf(EMPTY, m, member.s);
          return if status.Yields? then Kept(status.event) else Refused;
        }
      }
      if Get(m, "sender") == Str(BUS) && interface == Str(BUS) && member == Str("NameOwnerChanged") {
        r := NoteOwnerChange(m);
      } else {
        r := Nothing;
      }
    }

    method NoteOwnerChange(m: Value) returns (r: Answer)
      requires m.Object?
      modifies this`disconnected, this`owners, this`pending
      ensures Answers(r, OwnerChangeOf(old(Contents()), m), old(Contents()), Contents())
    {
      var data := DataOf(m, "sss");
      if data.None? || |data.value| != 3 { return Refused; }
      var name, before, after := data.value[0], data.value[1], data.value[2];
      if name.Str? && name.s in clients && before == name && after == Str("") {
        disconnected := disconnected + {name.s};
        return Kept(ClientGone(name.s));
      }
      if name == Str(SERVICE) && EmptyOrUnique(before) && EmptyOrUnique(after) {
        owners, pending := map[], map[];
        return Kept(DaemonChanged(before.s, after.s));
      }
      return Nothing;
    }
  }

  /** A handler's answer and the state it left, against what the message should do. */
  ghost predicate Answers(r: Answer, outcome: Outcome, before: State, after: State) {
    match outcome
    case Malformed => r == Refused && after == before
    case Ignored => r == Nothing && after == before
    case Yields(t, e) => r == Kept(e) && after == t
  }
}
