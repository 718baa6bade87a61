/** The reading half of a connection, `serveTCP`: the handshake (`authTCP`) under its timer,
    registration of the session key, the read loop feeding the inbound queue, and the teardown.
    The bucket is a map from session key to connection; the queues are plain sequences. */
module Serve {
  import opened Wrappers
  import opened BigEndian
  import opened Proto
  import opened Codec

  /** What the operator's `Connect` grants: the session key and the heartbeat interval. */
  datatype Grant = Grant(key: string, heartbeat: int)

  /** Why a handshake failed. `HandshakeTimerFailed` is the handshake timer of `serveTCP`; the others
      are the failures of `authTCP`, in the order it can meet them. */
  datatype HandshakeError =
    | HandshakeTimerFailed
    | ReadFailed(cause: CodecError)
    | ErrOperation
    | ConnectFailed
    | ReplyWriteFailed

  /** A completed handshake: the granted key and interval, the reply sent, the unread input. */
  datatype Authed = Authed(key: string, heartbeat: int, reply: Frame, rest: seq<byte>)

  /** The collaborators of the handshake: the reserved codes, whether the handshake timer could
      be added, the operator's fallible `Connect`, and whether writing the reply succeeds. */
  datatype HandshakeEnv = HandshakeEnv(
    codes: OpCodes,
    timerOk: bool,
    connect: Frame -> Option<Grant>,
    replyWriteOk: bool)

  /** `authTCP`: read the first frame, insist on `OP_AUTH`, ask `Connect`, and answer with the
      same frame turned into an `OP_AUTH_REPLY` without body. */
  function Auth(env: HandshakeEnv, input: seq<byte>): (r: Result<Authed, HandshakeError>)
    ensures Decode(input).Err? ==> r == Err(ReadFailed(Decode(input).error))
    ensures Decode(input).Ok? && Decode(input).value.0.op != env.codes.auth ==> r == Err(ErrOperation)
    ensures r == Err(ConnectFailed) <==>
      Decode(input).Ok? && Decode(input).value.0.op == env.codes.auth && env.connect(Decode(input).value.0).None?
    ensures r == Err(ReplyWriteFailed) <==>
      && Decode(input).Ok? && Decode(input).value.0.op == env.codes.auth
      && env.connect(Decode(input).value.0).Some? && !env.replyWriteOk
    ensures r.Ok? <==>
      && Decode(input).Ok? && Decode(input).value.0.op == env.codes.auth
      && env.connect(Decode(input).value.0).Some? && env.replyWriteOk
    ensures r.Ok? ==>
      var (f, rest) := Decode(input).value;
      && f.op == env.codes.auth
      && env.connect(f) == Some(Grant(r.value.key, r.value.heartbeat))
      && r.value.reply.ver == f.ver && r.value.reply.seqId == f.seqId
      && r.value.reply.body.None? && r.value.reply.op == env.codes.authReply
      && r.value.rest == rest
  {
    match Decode(input)
    case Err(e) => Err(ReadFailed(e))
    case Ok((f, rest)) =>
      if f.op != env.codes.auth then Err(ErrOperation)
      else match env.connect(f)
        case None => Err(ConnectFailed)
        case Some(g) =>
          var reply := f.(body := None, op := env.codes.authReply);
          if !env.replyWriteOk then Err(ReplyWriteFailed)
          else Ok(Authed(g.key, g.heartbeat, reply, rest))
  }

  /** A first frame that is not `OP_AUTH` is refused without consulting `Connect`: the outcome is
      the same whatever `Connect` would have answered. */
  lemma AuthSkipsConnect(env: HandshakeEnv, other: Frame -> Option<Grant>, input: seq<byte>)
    requires Decode(input).Ok? && Decode(input).value.0.op != env.codes.auth
    ensures Auth(env, input) == Auth(env.(connect := other), input) == Err(ErrOperation)
  {
  }

  /** The serving side's view of the connection registry (the buckets): session key to connection. */
  type Registry = map<string, nat>

  /** `serveTCP` up to registration: add the handshake timer, run `authTCP`, delete the timer;
      on failure close the connection, on success `Put` the key. */
  function Admit(env: HandshakeEnv, reg: Registry, conn: nat, input: seq<byte>)
    : (r: (Result<Authed, HandshakeError>, Registry))
    ensures !env.timerOk ==> r.0 == Err(HandshakeTimerFailed)
    ensures env.timerOk ==> r.0 == Auth(env, input)
    ensures r.0.Ok? <==> env.timerOk && Auth(env, input).Ok?
    ensures r.0.Err? ==> r.1 == reg
    ensures r.0.Ok? ==> r.1.Keys == reg.Keys + {r.0.value.key} && r.1[r.0.value.key] == conn
    ensures r.0.Ok? ==> forall k :: k in reg && k != r.0.value.key ==> k in r.1 && r.1[k] == reg[k]
  {
    if !env.timerOk then (Err(HandshakeTimerFailed), reg)
    else
      var a := Auth(env, input);
      if a.Err? then (a, reg) else (a, reg[a.value.key := conn])
  }

  /** The read loop: decode frames back to back until a decode fails, committing each decoded
      frame to the inbound queue. Returns the committed frames and the error that ended it. */
  function ReadLoop(s: seq<byte>): (r: (seq<Frame>, CodecError))
    ensures forall i :: 0 <= i < |r.0| ==> |BodyBytes(r.0[i])| <= MaxBodyLen
    decreases |s|
  {
    match Decode(s)
    case Err(e) => ([], e)
    case Ok((f, rest)) =>
      var (fs, e) := ReadLoop(rest);
      ([f] + fs, e)
  }

  /** Frames written back to back are read back in order, each as `Normalize` leaves it; the read
      loop ends with a short read when the stream ends. */
  lemma {:induction false} ReadLoopEncoded(fs: seq<Frame>)
    requires forall i :: 0 <= i < |fs| ==> |BodyBytes(fs[i])| <= MaxBodyLen
    ensures |ReadLoop(EncodeAll(fs)).0| == |fs|
    ensures forall i :: 0 <= i < |fs| ==> ReadLoop(EncodeAll(fs)).0[i] == Normalize(fs[i])
    ensures ReadLoop(EncodeAll(fs)).1 == ShortRead
  {
    if |fs| == 0 {
      assert Decode([]) == Err(ShortRead);
    } else {
      RoundTrip(fs[0], EncodeAll(fs[1..]));
      ReadLoopEncoded(fs[1..]);
    }
  }

  /** Everything one connection does to the registry and the operator. */
  datatype Session = Session(
    handshake: Result<Authed, HandshakeError>,
    during: Registry,          // the registry while the connection is served
    inbound: seq<Frame>,       // frames committed to the inbound queue, in arrival order
    after: Registry,           // the registry after the teardown
    disconnected: seq<string>) // the keys passed to the operator's `Disconnect`

  /** `serveTCP` from start to teardown. After a successful handshake the read loop runs until a
      read fails; the teardown then closes the connection, `Del`s the key and calls `Disconnect`.
      After a failed handshake the connection is only closed. */
  function ServeConn(env: HandshakeEnv, reg: Registry, conn: nat, input: seq<byte>): (r: Session)
    ensures r.handshake == Admit(env, reg, conn, input).0
    ensures r.handshake.Ok? <==> env.timerOk && Auth(env, input).Ok?
    ensures r.handshake.Ok? ==>
      r.during == Admit(env, reg, conn, input).1 && r.inbound == ReadLoop(r.handshake.value.rest).0
    ensures r.handshake.Err? ==>
      r.during == reg && r.after == reg && r.inbound == [] && r.disconnected == []
    ensures r.handshake.Ok? ==>
      var key := r.handshake.value.key;
      && key in r.during && r.during[key] == conn
      && key !in r.after
      && (forall k :: k in reg && k != key ==> k in r.after && r.after[k] == reg[k])
      && r.after.Keys == reg.Keys - {key}
      && r.disconnected == [key]
  {
    var (h, during) := Admit(env, reg, conn, input);
    match h
    case Err(_) => Session(h, reg, [], reg, [])
    case Ok(a) =>
      var (frames, _) := ReadLoop(a.rest);
      Session(h, during, frames, during - {a.key}, [a.key])
  }
}
