/** Both halves of one connection, composed: the reading half (`serveTCP`) and one wake-up of
    the writing half (`dispatchTCP`) over the frames the reader committed. */
module Connection {
  import opened Wrappers
  import opened BigEndian
  import opened Proto
  import opened Codec
  import opened Serve
  import opened Dispatch

  /** The scenario of a well-behaved client: `OP_AUTH` with sequence id 1, a heartbeat with
      sequence id 2, then a request with sequence id 3 whose body the operator turns into its
      reply. The client gets `OP_AUTH_REPLY` with sequence id 1 and no body, the heartbeat reply
      with sequence id 2 and no body, then the operator's reply; the key is registered while the
      connection is served, removed afterwards, and disconnected exactly once. */
  lemma EndToEnd(henv: HandshakeEnv, denv: Env, reg: Registry, conn: nat,
                 key: string, interval: int, ver: int16, custom: int32, ping: seq<byte>, pong: seq<byte>)
    requires henv.codes == denv.codes && henv.codes.Distinct()
    requires custom != henv.codes.heartbeat
    requires henv.timerOk && henv.replyWriteOk && denv.startOk
    requires forall n :: denv.writeOk(n)
    requires forall i :: denv.rearmOk(i)
    requires 0 < |ping| <= MaxBodyLen
    requires henv.connect(Frame(ver, henv.codes.auth, 1, None)) == Some(Grant(key, interval))
    requires denv.operate(Frame(ver, custom, 3, Some(ping))) == Some(Frame(ver, custom, 3, Some(pong)))
    ensures var input := EncodeAll([Frame(ver, henv.codes.auth, 1, None),
                                    Frame(ver, henv.codes.heartbeat, 2, None),
                                    Frame(ver, custom, 3, Some(ping))]);
      var s := ServeConn(henv, reg, conn, input);
      && s.handshake.Ok?
      && s.handshake.value.reply == Frame(ver, henv.codes.authReply, 1, None)
      && s.during == reg[key := conn]
      && s.inbound == [Frame(ver, henv.codes.heartbeat, 2, None), Frame(ver, custom, 3, Some(ping))]
      && DispatchTCP(denv, [Ready(s.inbound, [])]).0.out
           == [Frame(ver, henv.codes.heartbeatReply, 2, None), Frame(ver, custom, 3, Some(pong))]
      && key !in s.after
      && s.disconnected == [key]
  {
    var auth := Frame(ver, henv.codes.auth, 1, None);
    var hb := Frame(ver, henv.codes.heartbeat, 2, None);
    var req := Frame(ver, custom, 3, Some(ping));
    var s := ServeConn(henv, reg, conn, EncodeAll([auth, hb, req]));
    ServeScenario(henv, reg, conn, auth, hb, req, key, interval);
    DispatchScenario(denv, hb, req, pong);
  }

  /** The reading half of the scenario: the handshake succeeds and the two following frames
      reach the inbound queue unchanged. */
  lemma ServeScenario(henv: HandshakeEnv, reg: Registry, conn: nat, auth: Frame, hb: Frame, req: Frame,
                      key: string, interval: int)
    requires henv.timerOk && henv.replyWriteOk
    requires auth.op == henv.codes.auth && auth.body.None?
    requires hb.body.None? && req.body.Some? && 0 < |req.body.value| <= MaxBodyLen
    requires henv.connect(auth) == Some(Grant(key, interval))
    ensures var s := ServeConn(henv, reg, conn, EncodeAll([auth, hb, req]));
      && s.handshake == Ok(Authed(key, interval, auth.(op := henv.codes.authReply), EncodeAll([hb, req])))
      && s.during == reg[key := conn]
      && s.inbound == [hb, req]
  {
    var fs := [auth, hb, req];
    assert fs[1..] == [hb, req];
    assert [hb, req][1..] == [req];
    var input := EncodeAll(fs);
    assert input == Encode(auth) + EncodeAll([hb, req]);
    RoundTrip(auth, EncodeAll([hb, req]));
    assert Normalize(auth) == auth;
    Handshake(henv, reg, conn, input, auth, EncodeAll([hb, req]), Grant(key, interval));
    ReadLoopEncoded([hb, req]);
    var r := ReadLoop(EncodeAll([hb, req])).0;
    assert r == [hb, req];
  }

  /** A connection whose first frame is an `OP_AUTH` that `Connect` accepts is registered under
      the granted key, answered with `OP_AUTH_REPLY`, and read on from the bytes after it. */
  lemma Handshake(henv: HandshakeEnv, reg: Registry, conn: nat, input: seq<byte>,
                  auth: Frame, rest: seq<byte>, g: Grant)
    requires henv.timerOk && henv.replyWriteOk
    requires Decode(input) == Ok((auth, rest)) && auth.op == henv.codes.auth
    requires henv.connect(auth) == Some(g)
    ensures var s := ServeConn(henv, reg, conn, input);
      && s.handshake == Ok(Authed(g.key, g.heartbeat, auth.(body := None, op := henv.codes.authReply), rest))
      && s.during == reg[g.key := conn]
      && s.inbound == ReadLoop(rest).0
  {
    assert Auth(henv, input).Ok?;
  }

  /** The writing half of the scenario: the heartbeat is answered locally and the request by
      the operator, in that order. */
  lemma DispatchScenario(denv: Env, hb: Frame, req: Frame, pong: seq<byte>)
    requires denv.startOk
    requires forall n :: denv.writeOk(n)
    requires forall i :: denv.rearmOk(i)
    requires hb.op == denv.codes.heartbeat && req.op != denv.codes.heartbeat
    requires denv.operate(req) == Some(req.(body := Some(pong)))
    ensures DispatchTCP(denv, [Ready([hb, req], [])]).0.out
      == [hb.(body := None, op := denv.codes.heartbeatReply), req.(body := Some(pong))]
  {
    var t := Task([], 0, 0);
    var cli := [hb, req];
    DrainClientAnswers(denv, t, cli);
    var (t1, e1) := DrainClient(denv, t, cli);
    assert denv.rearmOk(t1.handled) && denv.writeOk(|t1.out|);
    assert e1.None? by {
      if e1.Some? {
        match e1.value
        case TimerAddFailed =>
        case OperateFailed =>
        case WriteFailed =>
      }
    }
    RoundOrder(denv, t, cli, []);
    assert Loop(denv, t, [Ready(cli, [])]).0 == Round(denv, t, cli, []).0;
  }
}
