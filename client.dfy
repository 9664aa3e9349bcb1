/**
 * The presence client (`DiscordRPCClient` in src-tauri/src/discord_rpc.rs):
 * an optional socket and a `handshake_done` flag, a bounded connect-retry
 * loop, the handshake that sets the flag, and the activity update the flag
 * gates.
 *
 * The socket is an opaque handle. What the operating system and the peer do
 * is an input: the outcome of each connect attempt, and for an exchange
 * whether the socket became ready, whether the write succeeded and which
 * bytes the one read returned. serde_json's text rendering and parsing,
 * `Uuid::new_v4` and `process::id` are inputs too.
 */
module Client {
  import opened Base
  import opened Json
  import Utf8
  import Codec
  import Presence
  import SocketPath

  /** An open Unix-domain socket, as an opaque handle. */
  datatype Socket = Socket(handle: nat)

  /** What one `Socket::connect` attempt returned. */
  datatype ConnectOutcome =
    | Connected(socket: Socket)
    | ConnectionRefused
    | NotFound
    | OtherError   // any other I/O error kind

  /** The two error kinds the loop retries. */
  predicate Transient(o: ConnectOutcome) {
    o.ConnectionRefused? || o.NotFound?
  }

  /**
   * Whether the loop stops after attempt `i` (counting from 0): the attempt
   * connected or failed for good, or it was the `i + 1`-th transient
   * failure and the retry bound is reached (`reconnect_trials >= max_retry`).
   */
  predicate StopsAfter(outcomes: seq<ConnectOutcome>, maxRetry: Option<u32>, i: nat)
    requires i < |outcomes|
  {
    !Transient(outcomes[i]) || (maxRetry.Some? && i + 1 >= maxRetry.value)
  }

  /**
   * How many attempts the loop makes in all when attempts before `from` did
   * not stop it; None when the outcomes run out before it stops.
   */
  function AttemptsFrom(outcomes: seq<ConnectOutcome>, maxRetry: Option<u32>, from: nat): (r: Option<nat>)
    ensures r.Some? ==> from < r.value <= |outcomes|
    decreases |outcomes| - from
  {
    if from >= |outcomes| then None
    else if StopsAfter(outcomes, maxRetry, from) then Some(from + 1)
    else AttemptsFrom(outcomes, maxRetry, from + 1)
  }

  /** How many connect attempts `try_connecting` makes on these outcomes. */
  function Attempts(outcomes: seq<ConnectOutcome>, maxRetry: Option<u32>): (r: Option<nat>)
    ensures r.Some? ==> 1 <= r.value <= |outcomes|
    ensures r == Some(1) <==> |outcomes| > 0 && StopsAfter(outcomes, maxRetry, 0)
  {
    AttemptsFrom(outcomes, maxRetry, 0)
  }

  /** The loop makes `n` attempts exactly when attempt `n - 1` is the first that stops it. */
  lemma {:induction false} AttemptsFromIsFirstStop(outcomes: seq<ConnectOutcome>, maxRetry: Option<u32>, from: nat, n: nat)
    ensures AttemptsFrom(outcomes, maxRetry, from) == Some(n)
        <==> from < n <= |outcomes| && StopsAfter(outcomes, maxRetry, n - 1)
             && forall j :: from <= j < n - 1 ==> !StopsAfter(outcomes, maxRetry, j)
    decreases |outcomes| - from
  {
    if from < |outcomes| && !StopsAfter(outcomes, maxRetry, from) {
      AttemptsFromIsFirstStop(outcomes, maxRetry, from + 1, n);
    }
  }

  /**
   * With a bound of N and every attempt refused or not found, the loop makes
   * exactly max(N, 1) attempts (a bound of 0 still makes one).
   */
  lemma BoundedRefusals(outcomes: seq<ConnectOutcome>, bound: u32)
    requires forall i :: 0 <= i < |outcomes| ==> Transient(outcomes[i])
    requires |outcomes| >= (if bound == 0 then 1 else bound)
    ensures Attempts(outcomes, Some(bound)) == Some(if bound == 0 then 1 else bound)
  {
    AttemptsFromIsFirstStop(outcomes, Some(bound), 0, if bound == 0 then 1 else bound);
  }

  /** Without a bound the loop retries until the first attempt that connects or fails for good. */
  lemma UnboundedRetries(outcomes: seq<ConnectOutcome>, k: nat)
    requires k < |outcomes| && !Transient(outcomes[k])
    requires forall i :: 0 <= i < k ==> Transient(outcomes[i])
    ensures Attempts(outcomes, None) == Some(k + 1)
  {
    AttemptsFromIsFirstStop(outcomes, None, 0, k + 1);
  }

  /** An error other than refused or not found ends the loop at that attempt, whatever the bound. */
  lemma OtherErrorStops(outcomes: seq<ConnectOutcome>, maxRetry: Option<u32>, k: nat)
    requires k < |outcomes| && outcomes[k] == OtherError
    requires forall i :: 0 <= i < k ==> Transient(outcomes[i])
    requires maxRetry.Some? ==> k == 0 || k < maxRetry.value
    ensures Attempts(outcomes, maxRetry) == Some(k + 1)
  {
    AttemptsFromIsFirstStop(outcomes, maxRetry, 0, k + 1);
  }

  /** The size of the buffer the one read of an exchange reads into. */
  const RecvBufferSize: nat := 2048

  /**
   * What the socket does during one request/response exchange: whether it
   * became ready, whether the frame was written, and what the one read
   * returned (None: the read failed).
   */
  datatype Exchange = Exchange(ready: bool, written: bool, received: Option<seq<byte>>) {
    /** One read returns at most a buffer's worth of bytes. */
    predicate Valid() {
      received.Some? ==> |received.value| <= RecvBufferSize
    }
  }

  /** Why a client operation failed. */
  datatype ClientError =
    | NotConnected            // "Socket Not Connected": no socket is open
    | HandshakeNotCompleted   // "Handshake not completed"
    | Io                      // readiness, the write or the read failed
    | Codec(error: Codec.CodecError)
    | MalformedJson           // the reply is not JSON
    | NoUser                  // the reply has no well-formed `data.user`

  /** The handshake payload: the client id, protocol version 1 and a nonce. */
  function HandshakeRequest(clientId: string, nonce: string): (j: Json)
    ensures Index(j, "client_id") == JStr(clientId)
    ensures Index(j, "v") == JNum(1)
    ensures Index(j, "nonce") == JStr(nonce)
  {
    var members := [("client_id", JStr(clientId)), ("v", JNum(1)), ("nonce", JStr(nonce))];
    assert Lookup(members, "v") == Lookup(members[1..], "v");
    assert Lookup(members, "nonce") == Lookup(members[1..], "nonce") == Lookup(members[2..], "nonce");
    JObj(members)
  }

  /**
   * The activity update payload: the `SET_ACTIVITY` command, the process
   * id, the activity (or null) and a nonce. None when `json!` cannot turn
   * the activity into a value (a timestamp above `u64::MAX`), where the
   * source's `to_value(..).unwrap()` panics.
   */
  function ActivityRequest(pid: u32, activity: Option<Presence.Activity>, nonce: string): (r: Option<Json>)
    ensures r.Some? <==> activity.None? || Presence.SerialisableActivity(activity.value)
    ensures r.Some? ==> Index(r.value, "cmd") == JStr("SET_ACTIVITY")
    ensures r.Some? ==> Index(Index(r.value, "args"), "pid") == JNum(pid)
    ensures r.Some? ==>
              Index(Index(r.value, "args"), "activity")
              == if activity.Some? then Presence.ActivityJson(activity.value) else JNull
    ensures r.Some? ==> Index(r.value, "nonce") == JStr(nonce)
  {
    if activity.Some? && !Presence.SerialisableActivity(activity.value) then None
    else
      var activityJson := if activity.Some? then Presence.ActivityJson(activity.value) else JNull;
      var args := [("pid", JNum(pid)), ("activity", activityJson)];
      var members := [("cmd", JStr("SET_ACTIVITY")), ("args", JObj(args)), ("nonce", JStr(nonce))];
      assert Lookup(args, "activity") == Lookup(args[1..], "activity");
      assert Lookup(members, "args") == Lookup(members[1..], "args");
      assert Lookup(members, "nonce") == Lookup(members[1..], "nonce") == Lookup(members[2..], "nonce");
      Some(JObj(members))
  }

  /**
   * The user a handshake reply carries: the frame's payload, parsed as
   * JSON, at `data.user`, with missing members read as null. This is the
   * corrected form of the lookup; `ReadUserAsWritten` is the source's.
   */
  function ReadUser(received: seq<byte>, parse: string -> Option<Json>): (r: Result<Presence.User, ClientError>)
    ensures r.Ok? <==> Codec.DecodedPayload(received).Ok? && parse(Codec.DecodedPayload(received).value).Some?
                       && Presence.UserFromJson(Index(Index(parse(Codec.DecodedPayload(received).value).value, "data"), "user")).Some?
    ensures r.Ok? ==> Presence.UserFromJson(Index(Index(parse(Codec.DecodedPayload(received).value).value, "data"), "user")) == Some(r.value)
  {
    match Codec.DecodedPayload(received)
    case Err(e) => Err(Codec(e))
    case Ok(text) =>
      match parse(text)
      case None => Err(MalformedJson)
      case Some(reply) =>
        match Presence.UserFromJson(Index(Index(reply, "data"), "user"))
        case None => Err(NoUser)
        case Some(user) => Ok(user)
  }

  /** How a call that can panic ends: it returns a result, or it panics. */
  datatype Outcome<+T> = Returned(result: Result<T, ClientError>) | Panicked

  /**
   * The handshake reply as the source reads it:
   * `recv_payload["data"]["user"].take()` goes through serde_json's mutable
   * indexing, which panics when the reply or its `data` member is neither an
   * object nor null.
   */
  function ReadUserAsWritten(received: seq<byte>, parse: string -> Option<Json>): Outcome<Presence.User> {
    match Codec.DecodedPayload(received)
    case Err(e) => Returned(Err(Codec(e)))
    case Ok(text) =>
      match parse(text)
      case None => Returned(Err(MalformedJson))
      case Some(reply) =>
        match IndexMut(reply, "data")
        case Panic => Panicked
        case Value(data) =>
          match IndexMut(data, "user")
          case Panic => Panicked
          case Value(user) =>
            match Presence.UserFromJson(user)
            case None => Returned(Err(NoUser))
            case Some(u) => Returned(Ok(u))
  }

  /**
   * Where the source's lookup returns, it returns what `ReadUser` does; it
   * panics exactly when the reply parses to a value that is not an object
   * or null, or whose `data` is not, and there `ReadUser` reports NoUser.
   */
  lemma ReadUserCorrectsPanic(received: seq<byte>, parse: string -> Option<Json>)
    ensures ReadUserAsWritten(received, parse).Returned? ==> ReadUserAsWritten(received, parse).result == ReadUser(received, parse)
    ensures ReadUserAsWritten(received, parse).Panicked?
        <==> Codec.DecodedPayload(received).Ok? && parse(Codec.DecodedPayload(received).value).Some?
             && var reply := parse(Codec.DecodedPayload(received).value).value;
                !(reply.JObj? || reply.JNull?) || !(Index(reply, "data").JObj? || Index(reply, "data").JNull?)
    ensures ReadUserAsWritten(received, parse).Panicked? ==> ReadUser(received, parse) == Err(NoUser)
  {
  }

  /**
   * A reply whose payload parses to `{"data": "x"}` panics the source's
   * handshake; the corrected lookup reports NoUser.
   */
  lemma NonObjectDataPanics(text: string, parse: string -> Option<Json>)
    requires Codec.Encodable(text)
    requires parse(text) == Some(JObj([("data", JStr("x"))]))
    ensures ReadUserAsWritten(Codec.EncodedFrame(Codec.Handshake, text).value, parse) == Panicked
    ensures ReadUser(Codec.EncodedFrame(Codec.Handshake, text).value, parse) == Err(NoUser)
  {
    Codec.DecodeEncodedFrame(Codec.Handshake, text);
    Presence.NullIsNoUser();
  }

  /**
   * A handshake reply frame whose payload parses to an object with
   * `data.user` = {id "1", username "a", discriminator "0", avatar "", flags 0}
   * yields that user.
   */
  lemma HandshakeReplyYieldsUser(text: string, parse: string -> Option<Json>)
    requires Codec.Encodable(text)
    requires parse(text) == Some(JObj([("data", JObj([("user", Presence.UserJson(Presence.User("1", "a", "0", "", 0)))]))]))
    ensures ReadUser(Codec.EncodedFrame(Codec.Handshake, text).value, parse) == Ok(Presence.User("1", "a", "0", "", 0))
  {
    Codec.DecodeEncodedFrame(Codec.Handshake, text);
    Presence.ReadWrittenUser(Presence.User("1", "a", "0", "", 0));
  }

  class DiscordRpcClient {
    var socket: Option<Socket>
    var handshakeDone: bool

    /** The flag is only ever set while a socket is open. */
    ghost predicate Valid()
      reads this
    {
      handshakeDone ==> socket.Some?
    }

    /** `DiscordRPCClient::default()`: no socket, no handshake. */
    constructor ()
      ensures socket == None && !handshakeDone
      ensures Valid()
    {
      socket := None;
      handshakeDone := false;
    }

    /**
     * `try_connecting`: with a socket already open, does nothing. Otherwise
     * connects to the socket path again and again while attempts are
     * refused or find no socket, sleeping between attempts, until an attempt
     * connects, fails otherwise, or the retry bound is reached. Always Ok;
     * the socket is the one the last attempt established, if it established one.
     * Returns the paths dialled, one per attempt, and the number of sleeps.
     */
    method TryConnecting(env: SocketPath.Environment, outcomes: seq<ConnectOutcome>, maxRetry: Option<u32>)
      returns (r: Result<(), ClientError>, dialled: seq<string>, sleeps: nat)
      requires Valid()
      requires socket.None? ==> Attempts(outcomes, maxRetry).Some?
      modifies this`socket
      ensures Valid()
      ensures r == Ok(())
      ensures old(socket).Some? ==> socket == old(socket) && dialled == [] && sleeps == 0
      ensures old(socket).None? ==>
        && Attempts(outcomes, maxRetry) == Some(|dialled|)
        && 1 <= |dialled| <= |outcomes|
        && sleeps == |dialled| - 1
        && (forall i :: 0 <= i < |dialled| ==> dialled[i] == SocketPath.SocketPathOf(env))
        && socket == (if outcomes[|dialled| - 1].Connected? then Some(outcomes[|dialled| - 1].socket) else None)
    {
      if socket.Some? {
        return Ok(()), [], 0;
      }
      var reconnectTrials: nat := 0;
      var established: Option<Socket> := None;
      dialled, sleeps := [], 0;
      while true
        invariant |dialled| == reconnectTrials == sleeps
        invariant AttemptsFrom(outcomes, maxRetry, reconnectTrials) == Attempts(outcomes, maxRetry)
        invariant Attempts(outcomes, maxRetry).Some?
        invariant forall i :: 0 <= i < |dialled| ==> dialled[i] == SocketPath.SocketPathOf(env)
        decreases |outcomes| - reconnectTrials
      {
        dialled := dialled + [SocketPath.SocketPathOf(env)];
        match outcomes[reconnectTrials]
        case Connected(s) =>
          established := Some(s);
          break;
        case ConnectionRefused | NotFound =>
          reconnectTrials := reconnectTrials + 1;
          if maxRetry.Some? && reconnectTrials >= maxRetry.value {
            break;
          }
          sleeps := sleeps + 1;
        case OtherError =>
          break;
      }
      socket := established;
      r := Ok(());
    }

    /**
     * `handshake`: without a socket, fails with NotConnected. Otherwise
     * waits for readiness, writes the handshake frame, reads one reply and
     * takes the user from it with `ReadUser`, the corrected lookup (where
     * the source panics, this returns NoUser); the flag is set exactly when
     * a user is returned. The socket never changes. Returns the frame it wrote, if it
     * got that far.
     */
    method Handshake(clientId: string, nonce: string, io: Exchange,
                     render: Json -> string, parse: string -> Option<Json>)
      returns (r: Result<Presence.User, ClientError>, sent: Option<seq<byte>>)
      requires Valid()
      requires io.Valid()
      modifies this`handshakeDone
      ensures Valid()
      ensures old(socket).None? ==> r == Err(NotConnected) && sent.None?
      ensures r == Err(NotConnected) <==> old(socket).None?
      ensures old(socket).Some? && !io.ready ==> r == Err(Io)
      ensures old(socket).Some? && io.ready && !Codec.Encodable(render(HandshakeRequest(clientId, nonce)))
              ==> r == Err(Codec(Codec.PayloadTooLong))
      ensures sent.Some? && !(io.written && io.received.Some?) ==> r == Err(Io)
      ensures handshakeDone == (old(handshakeDone) || r.Ok?)
      ensures sent.Some? <==> socket.Some? && io.ready && Codec.Encodable(render(HandshakeRequest(clientId, nonce)))
      ensures sent.Some? ==> Codec.EncodedFrame(Codec.Handshake, render(HandshakeRequest(clientId, nonce))) == Ok(sent.value)
      ensures sent.Some? && io.written && io.received.Some? ==> r == ReadUser(io.received.value, parse)
      ensures r.Ok? ==> sent.Some? && io.written && io.received.Some?
    {
      if socket.None? {
        return Err(NotConnected), None;
      }
      if !io.ready {
        return Err(Io), None;
      }
      var payload := render(HandshakeRequest(clientId, nonce));
      var frame := Codec.EncodeMessage(Codec.Handshake, payload);
      if frame.Err? {
        return Err(Codec(frame.error)), None;
      }
      sent := Some(frame.value);
      if !io.written || io.received.None? {
        return Err(Io), sent;
      }
      r := ReadUser(io.received.value, parse);
      if r.Ok? {
        handshakeDone := true;
      }
    }

    /**
     * `set_activity`: fails with HandshakeNotCompleted before a handshake,
     * checked before the socket. Otherwise builds the request, which panics
     * when the activity cannot be made a JSON value, writes the activity
     * frame, reads one reply and returns its payload as text. Changes nothing.
     */
    method SetActivity(activity: Option<Presence.Activity>, pid: u32, nonce: string, io: Exchange,
                       render: Json -> string)
      returns (r: Outcome<string>, sent: Option<seq<byte>>)
      requires io.Valid()
      ensures !handshakeDone ==> r == Returned(Err(HandshakeNotCompleted)) && sent.None?
      ensures handshakeDone && socket.None? ==> r == Returned(Err(NotConnected)) && sent.None?
      ensures Valid() ==> r != Returned(Err(NotConnected))
      ensures r == Returned(Err(HandshakeNotCompleted)) <==> !handshakeDone
      ensures r == Returned(Err(NotConnected)) <==> handshakeDone && socket.None?
      ensures handshakeDone && socket.Some? && ActivityRequest(pid, activity, nonce).Some?
              && !Codec.Encodable(render(ActivityRequest(pid, activity, nonce).value))
              ==> r == Returned(Err(Codec(Codec.PayloadTooLong)))
      ensures sent.Some? && !(io.written && io.received.Some?) ==> r == Returned(Err(Io))
      ensures sent.Some? && io.written && io.received.Some? && Codec.DecodedPayload(io.received.value).Err?
              ==> r == Returned(Err(Codec(Codec.DecodedPayload(io.received.value).error)))
      ensures r.Panicked? <==> handshakeDone && socket.Some? && ActivityRequest(pid, activity, nonce).None?
      ensures sent.Some? <==> handshakeDone && socket.Some? && ActivityRequest(pid, activity, nonce).Some?
                              && Codec.Encodable(render(ActivityRequest(pid, activity, nonce).value))
      ensures sent.Some? ==> Codec.EncodedFrame(Codec.Frame, render(ActivityRequest(pid, activity, nonce).value)) == Ok(sent.value)
      ensures r.Returned? && r.result.Ok?
          <==> sent.Some? && io.written && io.received.Some? && Codec.DecodedPayload(io.received.value).Ok?
      ensures r.Returned? && r.result.Ok? ==> Codec.DecodedPayload(io.received.value) == Ok(r.result.value)
    {
      if !handshakeDone {
        return Returned(Err(HandshakeNotCompleted)), None;
      }
      if socket.None? {
        return Returned(Err(NotConnected)), None;
      }
      var request := ActivityRequest(pid, activity, nonce);
      if request.None? {
        return Panicked, None;
      }
      var payload := render(request.value);
      var frame := Codec.EncodeMessage(Codec.Frame, payload);
      if frame.Err? {
        return Returned(Err(Codec(frame.error))), None;
      }
      sent := Some(frame.value);
      if !io.written || io.received.None? {
        return Returned(Err(Io)), sent;
      }
      var text := Codec.DecodeMessage(io.received.value);
      if text.Err? {
        return Returned(Err(Codec(text.error))), sent;
      }
      r := Returned(Ok(text.value));
    }
  }

  /**
   * A session as the surrounding application drives it: an update before
   * the handshake is refused, even once connected; after two refused
   * attempts the third connects; the handshake then succeeds and the update
   * goes through; an update with a timestamp past `u64::MAX` panics.
   */
  method Session(env: SocketPath.Environment, s: Socket, replyText: string, ackText: string)
    requires Codec.Encodable(replyText) && Codec.Encodable(ackText)
    requires |Utf8.Encode(replyText)| + 8 <= RecvBufferSize && |Utf8.Encode(ackText)| + 8 <= RecvBufferSize
  {
    var render := (j: Json) => "{}";
    var user := Presence.User("1", "a", "0", "", 0);
    var parse := (t: string) => Some(JObj([("data", JObj([("user", Presence.UserJson(user))]))]));
    var reply := Codec.EncodedFrame(Codec.Handshake, replyText).value;
    var ack := Codec.EncodedFrame(Codec.Frame, ackText).value;
    var acked := Exchange(true, true, Some(ack));
    var client := new DiscordRpcClient();

    var update, sent := client.SetActivity(Some(Presence.DefaultActivity), 42, "n0", acked, render);
    assert update == Returned(Err(HandshakeNotCompleted));

    var outcomes := [ConnectionRefused, NotFound, Connected(s), OtherError];
    RetriesUntilConnected(outcomes, s);
    var connected, dialled, sleeps := client.TryConnecting(env, outcomes, Some(5));
    assert |dialled| == 3 && sleeps == 2 && client.socket == Some(s);

    update, sent := client.SetActivity(None, 42, "n1", acked, render);
    assert update == Returned(Err(HandshakeNotCompleted));

    HandshakeReplyYieldsUser(replyText, parse);
    var shaken, _ := client.Handshake("client", "n2", Exchange(true, true, Some(reply)), render, parse);
    assert shaken == Ok(user) && client.handshakeDone;

    UpdatesAfterHandshake(client, ackText);
  }

  /**
   * Updates on a client that has completed its handshake: a default
   * activity goes through and the acknowledgement is returned; an activity
   * whose start time is 2^64 panics before anything is written.
   */
  method UpdatesAfterHandshake(client: DiscordRpcClient, ackText: string)
    requires client.handshakeDone && client.socket.Some?
    requires Codec.Encodable(ackText) && |Utf8.Encode(ackText)| + 8 <= RecvBufferSize
  {
    var render := (j: Json) => "{}";
    var acked := Exchange(true, true, Some(Codec.EncodedFrame(Codec.Frame, ackText).value));
    Codec.DecodeEncodedFrame(Codec.Frame, ackText);
    var update, sent := client.SetActivity(Some(Presence.DefaultActivity), 42, "n3", acked, render);
    assert update == Returned(Ok(ackText));

    var late := Presence.DefaultActivity.(timestamps := Presence.ActivityTimestamps(0x1_0000_0000_0000_0000, 0));
    WideTimestampHasNoRequest(late, 42, "n4");
    update, sent := client.SetActivity(Some(late), 42, "n4", acked, render);
    assert update.Panicked? && sent.None?;
  }

  /** Two transient failures and then a connection: three attempts under a bound of 5. */
  lemma RetriesUntilConnected(outcomes: seq<ConnectOutcome>, s: Socket)
    requires outcomes == [ConnectionRefused, NotFound, Connected(s), OtherError]
    ensures Attempts(outcomes, Some(5)) == Some(3)
  {
    assert StopsAfter(outcomes, Some(5), 2);
    AttemptsFromIsFirstStop(outcomes, Some(5), 0, 3);
  }

  /** A start time of 2^64 cannot be made a JSON value, so the update has no request. */
  lemma WideTimestampHasNoRequest(a: Presence.Activity, pid: u32, nonce: string)
    requires a.timestamps.start == 0x1_0000_0000_0000_0000
    ensures ActivityRequest(pid, Some(a), nonce) == None
  {
  }
}
