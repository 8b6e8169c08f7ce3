/** kcp_impl.c: one datagram in and one ikcp_update for every call of kcp_send and kcp_recv. */
module KcpLink {
  import opened Serial
  import opened Types
  import opened Headers
  import opened Wire
  import opened Endpoint
  import opened Receive

  const RECV_BUF := 1500

  /** What recvfrom leaves in a buffer of 1500 bytes; an empty list stands for no datagram. */
  function Truncated(from: bytes): bytes {
    from[..Min(|from|, RECV_BUF)]
  }

  /** kcp_update_loop; the clock is cast to IUINT32. */
  function UpdateLoop(k: Kcb, now: u64, from: bytes): Kcb
    requires k.cfg.mss > 0
  {
    var k1 := Update(Wrap, k, U32(now));
    if from == [] then k1 else Input(Wrap, k1, Parse(k.cfg.conv, Truncated(from)))
  }

  datatype Result = Result(kcb: Kcb, code: int, data: bytes)

  /** kcp_send. */
  function KcpSend(k: Kcb, msg: bytes, now: u64, from: bytes): Result
    requires k.cfg.mss > 0
  {
    var (k1, rc) := Endpoint.Send(k, msg);
    if rc < 0 then Result(k1, ERR_IO, []) else Result(UpdateLoop(k1, now, from), |msg|, [])
  }

  /** kcp_recv: 0 for every failure of ikcp_recv. */
  function KcpRecv(k: Kcb, len: nat, now: u64, from: bytes): Result
    requires k.cfg.mss > 0
  {
    var k1 := UpdateLoop(k, now, from);
    var r := Recv(Wrap, k1.cfg.rcvWnd, k1.rcv, len);
    Result(Received(Wrap, k1, len), Max(r.code, 0), r.data)
  }

  lemma {:induction false} UpdateCfg(k: Kcb, now: u32)
    ensures Update(Wrap, k, now).cfg == k.cfg
  {
  }
}
