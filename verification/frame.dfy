/** The protocol message (`Proto` in the server) and the constants of its fixed header. */
module Proto {
  import opened Wrappers
  import opened BigEndian

  /** Largest accepted total packet length, `maxPackLen = 1 << 10`. */
  const MaxPackLen: int32 := 1024
  /** Length of the fixed header, `rawHeaderLen`. */
  const RawHeaderLen: int16 := 16

  /** Widths of the header fields; they add up to `RawHeaderLen`. */
  const PackLenSize: nat := 4
  const HeaderLenSize: nat := 2
  const VerSize: nat := 2
  const OperationSize: nat := 4
  const SeqIdSize: nat := 4

  /** Largest body that fits in a packet of `MaxPackLen` bytes. */
  const MaxBodyLen: nat := 1008

  /** One frame: version, operation code, sequence id, and a body that may be nil (`None`). */
  datatype Frame = Frame(ver: int16, op: int32, seqId: int32, body: Option<seq<byte>>)

  /** The bytes of a body; a nil body has none. */
  function BodyBytes(f: Frame): seq<byte>
  {
    match f.body
    case None => []
    case Some(b) => b
  }

  /** The frame as it comes back from the wire: an empty body, nil or not, is read back as nil. */
  function Normalize(f: Frame): (g: Frame)
    ensures g.ver == f.ver && g.op == f.op && g.seqId == f.seqId
    ensures BodyBytes(g) == BodyBytes(f)
    ensures g.body.None? <==> |BodyBytes(f)| == 0
  {
    if |BodyBytes(f)| == 0 then f.(body := None) else f.(body := Some(BodyBytes(f)))
  }

  /** The reserved operation codes (`OP_AUTH`, `OP_AUTH_REPLY`, `OP_HEARTBEAT`, `OP_HEARTBEAT_REPLY`).
      Their numeric values live outside this model, so they are a parameter. */
  datatype OpCodes = OpCodes(auth: int32, authReply: int32, heartbeat: int32, heartbeatReply: int32)
  {
    /** The four codes are pairwise different. */
    predicate Distinct()
    {
      && auth != authReply && auth != heartbeat && auth != heartbeatReply
      && authReply != heartbeat && authReply != heartbeatReply
      && heartbeat != heartbeatReply
    }
  }

  lemma HeaderSizes()
    ensures PackLenSize + HeaderLenSize + VerSize + OperationSize + SeqIdSize == RawHeaderLen as int
    ensures RawHeaderLen as int + MaxBodyLen == MaxPackLen as int
  {
  }
}
