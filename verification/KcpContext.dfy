/** kcp_impl.c as it is written, over the control block of ikcp.c. */
module KcpContexts {
  import opened Serial
  import opened Types
  import opened Headers
  import opened Wire
  import opened Endpoint
  import opened AckLists
  import opened Packers
  import opened KcpClass
  import opened KcpLink
  import Receive

  class KcpContext {
    const kcp: Kcp
    var lastXmit: u32

    ghost predicate Valid()
      reads this, kcp, kcp.acks, kcp.acks.list, kcp.pack, kcp.pack.buffer
    {
      kcp.Valid()
    }

    /** kcp_init, behind the socket. */
    constructor (conv: u32)
      ensures Valid() && kcp.View() == Create(KcpImplCfg(conv)) && kcp.pack.sent == []
    {
      ConfigCallsOk(DefaultCfg(conv), 1, 10, 2, 1);
      kcp := new Kcp(KcpImplCfg(conv));
      lastXmit := 0;
    }

    /** kcp_update_loop. */
    method UpdateLoop(now: u64, from: bytes)
      requires Valid()
      modifies this, kcp, kcp.acks, kcp.acks.list, kcp.pack, kcp.pack.buffer
      ensures Valid() && kcp.mss > 0 && kcp.View() == KcpLink.UpdateLoop(old(kcp.View()), now, from)
      ensures kcp.pack.sent
           == old(kcp.pack.sent) + EncodeEach(kcp.conv, UpdateDatagrams(Wrap, old(kcp.View()), U32(now)))
      ensures lastXmit == kcp.xmit && (kcp.acks.list == old(kcp.acks.list) || fresh(kcp.acks.list))
    {
      OkMss(kcp.View());
      UpdateCfg(kcp.View(), U32(now));
      hide KcbOk, Packer.Valid, AckList.Valid, AckList.Contents, Update, Input, UpdateDatagrams, Parse;
      kcp.Update(U32(now));
      if from != [] {
        var _ := kcp.Input(Truncated(from));
      }
      lastXmit := kcp.xmit;
    }

    /** kcp_send. */
    method Send(msg: bytes, now: u64, from: bytes) returns (code: int)
      requires Valid()
      modifies this, kcp, kcp.acks, kcp.acks.list, kcp.pack, kcp.pack.buffer
      ensures Valid() && kcp.mss > 0 && Result(kcp.View(), code, []) == KcpSend(old(kcp.View()), msg, now, from)
    {
      hide KcbOk, Packer.Valid, AckList.Valid, AckList.Contents, KcpLink.UpdateLoop, Endpoint.Send;
      var rc := kcp.Send(msg);
      if rc < 0 {
        return ERR_IO;
      }
      UpdateLoop(now, from);
      return |msg|;
    }

    /** kcp_recv. */
    method Recv(len: nat, now: u64, from: bytes) returns (code: int, data: bytes)
      requires Valid()
      modifies this, kcp, kcp.acks, kcp.acks.list, kcp.pack, kcp.pack.buffer
      ensures Valid() && kcp.mss > 0 && Result(kcp.View(), code, data) == KcpRecv(old(kcp.View()), len, now, from)
    {
      hide KcbOk, Packer.Valid, AckList.Valid, AckList.Contents, KcpLink.UpdateLoop, Receive.Recv;
      UpdateLoop(now, from);
      var n;
      n, data := kcp.Recv(len);
      code := if n < 0 then 0 else n;
    }
  }
}
