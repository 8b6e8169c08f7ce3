/** ikcp.c as it is written: one control block whose members the functions update in place.  Every method is proved
    against the function of the same name on `Kcb`, so what is proved about those functions holds of the program. */
module KcpClass {
  import opened Serial
  import opened Types
  import opened Wire
  import opened Transmit
  import opened Receive
  import opened Timers
  import opened Endpoint
  import opened AckLists
  import opened Packers
  import Congestion
  import Messages

  class Kcp {
    const conv: u32
    const mtu: nat
    const mss: nat
    const sndWnd: nat
    const rcvWnd: nat
    const interval: nat
    const nodelay: nat
    const rxMinrto: nat
    const fastresend: int
    const fastlimit: int
    const nocwnd: bool
    const stream: bool
    const deadLink: nat
    var sndUna: nat
    var sndNxt: nat
    var rcvNxt: nat
    var ssthresh: u32
    var rxRttval: int
    var rxSrtt: int
    var rxRto: u32
    var rmtWnd: nat
    var cwnd: u32
    var incr: u32
    /** IKCP_ASK_SEND and IKCP_ASK_TELL of `probe`. */
    var askSend: bool
    var askTell: bool
    var current: u32
    var tsFlush: u32
    var xmit: u32
    var nrcvBuf: nat
    var nsndBuf: nat
    var nrcvQue: nat
    var nsndQue: nat
    var updated: bool
    var tsProbe: u32
    var probeWait: u32
    /** state == -1. */
    var dead: bool
    var sndQueue: seq<Frag>
    var rcvQueue: seq<Part>
    var sndBuf: seq<Flight>
    var rcvBuf: seq<Part>
    const acks: AckList
    const pack: Packer

    // ----- the value of the control block

    ghost function View(): Kcb
      requires acks.Valid()
      reads this, acks, acks.list
    {
      Kcb(Cfg(conv, mtu, mss, sndWnd, rcvWnd, interval, nodelay, rxMinrto, fastresend, fastlimit, nocwnd, stream,
              deadLink),
          Snd(sndUna, sndNxt, sndQueue, sndBuf),
          Rcv(rcvNxt, rcvQueue, rcvBuf, acks.Contents()),
          Cc(cwnd, incr, ssthresh), Rtt(rxSrtt, rxRttval, rxRto),
          Probe(rmtWnd, askSend, askTell, tsProbe, probeWait), Clock(current, tsFlush, updated), xmit, dead)
    }

    /** The four counters count, and the parts of the control block are in order between calls. */
    ghost predicate Shape()
      reads this, acks, pack, pack.buffer
    {
      && nsndBuf == |sndBuf| && nsndQue == |sndQueue| && nrcvBuf == |rcvBuf| && nrcvQue == |rcvQueue|
      && acks.Valid() && pack.Valid() && acks.list as object != pack.buffer
      && pack.conv == conv && pack.mtu == mtu
    }

    ghost predicate Valid()
      reads this, acks, acks.list, pack, pack.buffer
    {
      Shape() && pack.packing.cur == [] && KcbOk(Wrap, View())
    }

    /** ikcp_create, with the configuration ikcp_setmtu, ikcp_nodelay and ikcp_wndsize may set before traffic. */
    constructor (cfg: Cfg)
      requires CfgOk(cfg)
      ensures acks.Valid() && View() == Create(cfg) && pack.sent == []
      ensures Valid() && fresh(acks) && fresh(acks.list) && fresh(pack) && fresh(pack.buffer)
    {
      hide KcbOk;
      conv, mtu, mss, sndWnd, rcvWnd := cfg.conv, cfg.mtu, cfg.mss, cfg.sndWnd, cfg.rcvWnd;
      interval, nodelay, rxMinrto := cfg.interval, cfg.nodelay, cfg.minrto;
      fastresend, fastlimit, nocwnd, stream := cfg.fastresend, cfg.fastlimit, cfg.nocwnd, cfg.stream;
      deadLink := cfg.deadLink;
      sndUna, sndNxt, rcvNxt := 0, 0, 0;
      tsProbe, probeWait := 0, 0;
      rmtWnd := WND_RCV;
      cwnd, incr := 0, 0;
      askSend, askTell := false, false;
      sndQueue, rcvQueue, sndBuf, rcvBuf := [], [], [], [];
      nrcvBuf, nsndBuf, nrcvQue, nsndQue := 0, 0, 0, 0;
      dead := false;
      acks := new AckList();
      pack := new Packer(cfg.conv, cfg.mtu);
      rxSrtt, rxRttval, rxRto := 0, 0, RTO_DEF;
      current, tsFlush := 0, INTERVAL;
      updated := false;
      ssthresh := THRESH_INIT;
      xmit := 0;
      new;
      CreateOk(Wrap, cfg);
    }

    // ----- acknowledgements

    /** ikcp_update_ack. */
    method UpdateAck(rtt: nat)
      modifies this`rxSrtt, this`rxRttval, this`rxRto
      ensures Rtt(rxSrtt, rxRttval, rxRto)
           == Timers.UpdateAck(old(Rtt(rxSrtt, rxRttval, rxRto)), interval, rxMinrto, rtt)
    {
      if rxSrtt == 0 {
        rxSrtt := rtt;
        rxRttval := rtt / 2;
      } else {
        var delta := rtt - rxSrtt;
        if delta < 0 {
          delta := -delta;
        }
        rxRttval := (3 * rxRttval + delta) / 4;
        rxSrtt := (7 * rxSrtt + rtt) / 8;
        if rxSrtt < 1 {
          rxSrtt := 1;
        }
      }
      var rto := U32(rxSrtt + Max(interval, U32(4 * rxRttval)));
      rxRto := U32(Min(Max(rxMinrto, rto), RTO_MAX));
    }

    /** ikcp_shrink_buf. */
    method ShrinkBuf()
      modifies this`sndUna
      ensures Snd(sndUna, sndNxt, sndQueue, sndBuf) == Shrink(old(Snd(sndUna, sndNxt, sndQueue, sndBuf)))
    {
      if sndBuf != [] {
        sndUna := sndBuf[0].sn;
      } else {
        sndUna := sndNxt;
      }
    }

    /** The loop of ikcp_parse_ack. */
    method RemoveAcked(sn: nat)
      requires nsndBuf == |sndBuf|
      modifies this`sndBuf, this`nsndBuf
      ensures nsndBuf == |sndBuf| && sndBuf == RemoveSn(Wrap, old(sndBuf), sn)
    {
      hide S32, RemoveSn;
      var i := 0;
      assert [] + RemoveSn(Wrap, sndBuf[0..], sn) == RemoveSn(Wrap, sndBuf, sn);
      while i < |sndBuf|
        invariant i <= |sndBuf| && sndBuf == old(sndBuf) && nsndBuf == |sndBuf|
        invariant RemoveSn(Wrap, old(sndBuf), sn) == sndBuf[..i] + RemoveSn(Wrap, sndBuf[i..], sn)
      {
        RemoveStep(sndBuf, i, sn);
        if sn == sndBuf[i].sn {
          sndBuf := sndBuf[..i] + sndBuf[i + 1..];
          nsndBuf := nsndBuf - 1;
          return;
        }
        if TimeDiff(sn, sndBuf[i].sn) < 0 {
          assert sndBuf[..i] + sndBuf[i..] == sndBuf;
          return;
        }
        assert sndBuf[..i] + ([sndBuf[i]] + RemoveSn(Wrap, sndBuf[i + 1..], sn))
            == sndBuf[..i + 1] + RemoveSn(Wrap, sndBuf[i + 1..], sn);
        i := i + 1;
      }
      RemoveNone(sn);
      assert sndBuf[i..] == [] && sndBuf[..i] + [] == sndBuf;
    }

    /** ikcp_parse_ack. */
    method ParseAck(sn: nat)
      requires nsndBuf == |sndBuf|
      modifies this`sndBuf, this`nsndBuf
      ensures nsndBuf == |sndBuf|
      ensures Snd(sndUna, sndNxt, sndQueue, sndBuf)
           == Transmit.ParseAck(Wrap, old(Snd(sndUna, sndNxt, sndQueue, sndBuf)), sn)
    {
      if TimeDiff(sn, sndUna) < 0 || TimeDiff(sn, sndNxt) >= 0 {
        return;
      }
      RemoveAcked(sn);
    }

    /** ikcp_parse_una. */
    method ParseUna(una: nat)
      requires nsndBuf == |sndBuf|
      modifies this`sndBuf, this`nsndBuf
      ensures nsndBuf == |sndBuf| && sndBuf == Transmit.ParseUna(Wrap, old(sndBuf), una)
    {
      while sndBuf != [] && TimeDiff(una, sndBuf[0].sn) > 0
        invariant nsndBuf == |sndBuf|
        invariant Transmit.ParseUna(Wrap, sndBuf, una) == Transmit.ParseUna(Wrap, old(sndBuf), una)
        decreases |sndBuf|
      {
        sndBuf := sndBuf[1..];
        nsndBuf := nsndBuf - 1;
      }
    }

    /** The loop of ikcp_parse_fastack. */
    method SkipSegments(sn: nat, ts: u32)
      modifies this`sndBuf
      ensures |sndBuf| == old(|sndBuf|) && sndBuf == Skip(Wrap, old(sndBuf), sn, ts)
    {
      hide S32, U32, Skip;
      ghost var b := sndBuf;
      var i := 0;
      assert [] + b[0..] == b;
      while i < |sndBuf|
        invariant i <= |sndBuf| == |b|
        invariant Skip(Wrap, b, sn, ts) == sndBuf[..i] + Skip(Wrap, sndBuf[i..], sn, ts)
      {
        var f := sndBuf[i];
        SkipStep(sndBuf, i, sn, ts);
        if TimeDiff(sn, f.sn) < 0 {
          assert sndBuf[..i] + sndBuf[i..] == sndBuf;
          return;
        }
        if sn != f.sn && TimeDiff(ts, f.ts) >= 0 {
          f := f.(fastack := U32(f.fastack + 1));
        }
        UpdateSplit(sndBuf, i, f, Skip(Wrap, sndBuf[i + 1..], sn, ts));
        sndBuf := sndBuf[i := f];
        i := i + 1;
      }
      SkipNone(sn, ts);
      assert sndBuf[..i] + [] == sndBuf && sndBuf[i..] == [];
    }

    /** ikcp_parse_fastack. */
    method ParseFastack(sn: nat, ts: u32)
      requires nsndBuf == |sndBuf|
      modifies this`sndBuf
      ensures nsndBuf == |sndBuf|
      ensures Snd(sndUna, sndNxt, sndQueue, sndBuf)
           == Transmit.ParseFastack(Wrap, old(Snd(sndUna, sndNxt, sndQueue, sndBuf)), sn, ts)
    {
      if TimeDiff(sn, sndUna) < 0 || TimeDiff(sn, sndNxt) >= 0 {
        return;
      }
      SkipSegments(sn, ts);
    }

    // ----- received data

    /** "move available data from rcv_buf -> rcv_queue", in ikcp_parse_data and in ikcp_recv. */
    method MoveAvailable()
      requires Shape()
      modifies this`rcvBuf, this`nrcvBuf, this`rcvQueue, this`nrcvQue, this`rcvNxt
      ensures Shape() && Rcv(rcvNxt, rcvQueue, rcvBuf, acks.Contents())
                      == MoveReady(Wrap, rcvWnd, old(Rcv(rcvNxt, rcvQueue, rcvBuf, acks.Contents())))
    {
      hide Packer.Valid, AckList.Valid, AckList.Contents;
      while rcvBuf != [] && rcvBuf[0].sn == rcvNxt && nrcvQue < rcvWnd
        invariant Shape() && acks.Contents() == old(acks.Contents())
        invariant MoveReady(Wrap, rcvWnd, Rcv(rcvNxt, rcvQueue, rcvBuf, acks.Contents()))
               == MoveReady(Wrap, rcvWnd, old(Rcv(rcvNxt, rcvQueue, rcvBuf, acks.Contents())))
        decreases |rcvBuf|
      {
        var seg := rcvBuf[0];
        rcvBuf := rcvBuf[1..];
        nrcvBuf := nrcvBuf - 1;
        rcvQueue := rcvQueue + [seg];
        nrcvQue := nrcvQue + 1;
        rcvNxt := Add(Wrap, rcvNxt, 1);
      }
    }

    /** The search and insertion of ikcp_parse_data. */
    method InsertSegment(seg: Part)
      requires nrcvBuf == |rcvBuf|
      modifies this`rcvBuf, this`nrcvBuf
      ensures nrcvBuf == |rcvBuf| && rcvBuf == Insert(Wrap, old(rcvBuf), seg)
    {
      hide S32, U32;
      var repeated := false;
      var i := |rcvBuf|;
      assert rcvBuf[..i] + rcvBuf[i..] == rcvBuf && rcvBuf[..i] == rcvBuf;
      while i > 0
        modifies {}
        invariant 0 <= i <= |rcvBuf| && !repeated
        invariant Insert(Wrap, rcvBuf, seg) == Insert(Wrap, rcvBuf[..i], seg) + rcvBuf[i..]
      {
        assert rcvBuf[..i][..i - 1] == rcvBuf[..i - 1];
        if rcvBuf[i - 1].sn == seg.sn {
          repeated := true;
          assert rcvBuf[..i] + rcvBuf[i..] == rcvBuf;
          break;
        }
        if TimeDiff(seg.sn, rcvBuf[i - 1].sn) > 0 {
          break;
        }
        assert [rcvBuf[i - 1]] + rcvBuf[i..] == rcvBuf[i - 1..];
        i := i - 1;
      }
      if !repeated {
        assert Insert(Wrap, rcvBuf, seg) == rcvBuf[..i] + [seg] + rcvBuf[i..];
        rcvBuf := rcvBuf[..i] + [seg] + rcvBuf[i..];
        nrcvBuf := nrcvBuf + 1;
      }
    }

    /** ikcp_parse_data. */
    method ParseData(seg: Part)
      requires Shape()
      modifies this`rcvBuf, this`nrcvBuf, this`rcvQueue, this`nrcvQue, this`rcvNxt
      ensures Shape() && Rcv(rcvNxt, rcvQueue, rcvBuf, acks.Contents())
                      == Receive.ParseData(Wrap, rcvWnd, old(Rcv(rcvNxt, rcvQueue, rcvBuf, acks.Contents())), seg)
    {
      hide Packer.Valid, AckList.Valid, AckList.Contents, MoveReady, Insert, S32, U32;
      if TimeDiff(seg.sn, Add(Wrap, rcvNxt, rcvWnd)) >= 0 || TimeDiff(seg.sn, rcvNxt) < 0 {
        return;
      }
      InsertSegment(seg);
      MoveAvailable();
    }

    /** ikcp_peeksize. */
    method Peeksize() returns (length: int)
      requires nrcvQue == |rcvQueue|
      ensures length == PeekSize(rcvQueue)
    {
      if rcvQueue == [] {
        return -1;
      }
      if rcvQueue[0].frg == 0 {
        return |rcvQueue[0].data|;
      }
      if nrcvQue < rcvQueue[0].frg + 1 {
        return -1;
      }
      length := 0;
      var i := 0;
      while i < |rcvQueue|
        invariant i <= MergeCount(rcvQueue) && length == |Join(Frags(rcvQueue[..i]))|
        invariant i + MergeCount(rcvQueue[i..]) == MergeCount(rcvQueue)
      {
        assert rcvQueue[i..][1..] == rcvQueue[i + 1..];
        JoinNext(rcvQueue, i);
        length := length + |rcvQueue[i].data|;
        i := i + 1;
        if rcvQueue[i - 1].frg == 0 {
          break;
        }
      }
      MergeCountEnd(rcvQueue, i);
    }

    // ----- windows

    /** ikcp_wnd_unused. */
    method WndUnused() returns (w: nat)
      requires Shape()
      ensures w == Unused(rcvWnd, Rcv(rcvNxt, rcvQueue, rcvBuf, acks.Contents()))
    {
      if nrcvQue < rcvWnd {
        return rcvWnd - nrcvQue;
      }
      return 0;
    }

    /** ikcp_waitsnd. */
    method Waitsnd() returns (n: nat)
      requires Shape()
      ensures n == WaitSnd(View())
    {
      return nsndBuf + nsndQue;
    }

    // ----- ikcp_recv and ikcp_send

    /** "merge fragment": copies out the first message, and removes it unless peeking. */
    method MergeFragments(ispeek: bool) returns (data: bytes)
      requires nrcvQue == |rcvQueue|
      modifies this`rcvQueue, this`nrcvQue
      ensures nrcvQue == |rcvQueue| && data == Merged(old(rcvQueue))
      ensures rcvQueue == if ispeek then old(rcvQueue) else old(rcvQueue)[MergeCount(old(rcvQueue))..]
    {
      hide Join, Frags, MergeCount;
      ghost var q, n := rcvQueue, 0;
      data := [];
      NothingMerged(q);
      var p := 0;
      while p < |rcvQueue|
        invariant n <= |q| && p == (if ispeek then n else 0) && nrcvQue == |rcvQueue|
        invariant rcvQueue == if ispeek then q else q[n..]
        invariant data == Join(Frags(q[..n])) && n + MergeCount(q[n..]) == MergeCount(q)
        decreases |q| - n
      {
        var seg := rcvQueue[p];
        assert seg == q[n];
        JoinNext(q, n);
        CountNext(q, n);
        data := data + seg.data;
        if ispeek {
          p := p + 1;
        } else {
          rcvQueue := rcvQueue[1..];
          nrcvQue := nrcvQue - 1;
        }
        n := n + 1;
        if seg.frg == 0 {
          return;
        }
      }
      MergeCountEnd(q, n);
    }

    /** ikcp_recv on the members it touches. */
    method RecvMembers(len: int) returns (code: int, data: bytes)
      requires Shape()
      modifies this`rcvBuf, this`nrcvBuf, this`rcvQueue, this`nrcvQue, this`rcvNxt, this`askTell
      ensures Shape()
      ensures var r := Receive.Recv(Wrap, rcvWnd, old(Rcv(rcvNxt, rcvQueue, rcvBuf, acks.Contents())), len);
        && code == r.code && data == r.data && Rcv(rcvNxt, rcvQueue, rcvBuf, acks.Contents()) == r.rcv
        && askTell == (old(askTell) || r.tell)
    {
      hide Packer.Valid, AckList.Valid, AckList.Contents, MoveReady, MergeCount, Merged, PeekSize;
      PeekSizeIsMerged(rcvQueue);
      code, data := -1, [];
      if rcvQueue != [] {
        var peeksize := Peeksize();
        if peeksize < 0 {
          code := -2;
        } else if peeksize > (if len < 0 then -len else len) {
          code := -3;
        } else {
          var recover := nrcvQue >= rcvWnd;
          data := MergeFragments(len < 0);
          code := |data|;
          assert code == peeksize;
          MoveAvailable();
          if nrcvQue < rcvWnd && recover {
            askTell := true;
          }
        }
      }
    }

    /** ikcp_recv. */
    method Recv(len: int) returns (code: int, data: bytes)
      requires Valid()
      modifies this`rcvBuf, this`nrcvBuf, this`rcvQueue, this`nrcvQue, this`rcvNxt, this`askTell
      ensures var r := Receive.Recv(Wrap, rcvWnd, old(View()).rcv, len); code == r.code && data == r.data
      ensures acks.Valid() && View() == Received(Wrap, old(View()), len)
      ensures Valid()
    {
      hide KcbOk, Packer.Valid, AckList.Valid, AckList.Contents, Receive.Recv;
      ReceivedOk(Wrap, View(), len);
      code, data := RecvMembers(len);
    }

    /** The stream branch of ikcp_send: fill up the last queued fragment. */
    method ExtendLast(buffer: bytes) returns (sent: nat)
      requires nsndQue == |sndQueue| && mss > 0
      modifies this`sndQueue
      ensures nsndQue == |sndQueue|
      ensures forall cfg: Cfg :: cfg.stream == stream && cfg.mss == mss ==>
        sent == Messages.Extend(cfg, old(sndQueue), buffer) && sndQueue == Messages.Extended(cfg, old(sndQueue), buffer)
    {
      sent := 0;
      if stream && sndQueue != [] {
        var old' := sndQueue[|sndQueue| - 1];
        if |old'.data| < mss {
          var capacity := mss - |old'.data|;
          var extend := if |buffer| < capacity then |buffer| else capacity;
          sndQueue := sndQueue[..|sndQueue| - 1] + [Frag(0, old'.data + buffer[..extend])];
          sent := extend;
        }
      }
    }

    /** The fragment loop of ikcp_send. */
    method QueueFragments(buffer: bytes, count: nat)
      requires nsndQue == |sndQueue| && mss > 0
      modifies this`sndQueue, this`nsndQue
      ensures nsndQue == |sndQueue|
      ensures sndQueue == old(sndQueue) + Messages.Cut(mss, buffer, count, stream)
    {
      var i, rest := 0, buffer;
      assert sndQueue + Messages.Cut(mss, rest, count, stream)
          == old(sndQueue) + Messages.Cut(mss, buffer, count, stream);
      while i < count
        invariant 0 <= i <= count && nsndQue == |sndQueue|
        invariant sndQueue + Messages.Cut(mss, rest, count - i, stream)
               == old(sndQueue) + Messages.Cut(mss, buffer, count, stream)
      {
        var size := Min(|rest|, mss);
        var seg := Frag(if !stream then count - i - 1 else 0, rest[..size]);
        assert sndQueue + ([seg] + Messages.Cut(mss, rest[size..], count - i - 1, stream))
            == sndQueue + [seg] + Messages.Cut(mss, rest[size..], count - i - 1, stream);
        sndQueue := sndQueue + [seg];
        nsndQue := nsndQue + 1;
        rest := rest[size..];
        i := i + 1;
      }
    }

    /** ikcp_send on the members it touches. */
    method SendMembers(buffer: bytes) returns (code: int)
      requires nsndQue == |sndQueue| && mss > 0
      modifies this`sndQueue, this`nsndQue
      ensures nsndQue == |sndQueue|
      ensures forall cfg: Cfg :: cfg.stream == stream && cfg.mss == mss ==>
        Messages.SendResult(sndQueue, code) == Messages.Send(cfg, old(sndQueue), buffer)
    {
      hide Messages.Extend, Messages.Extended, Messages.Cut;
      ghost var q := sndQueue;
      var sent := ExtendLast(buffer);
      ExtendBounds(stream, mss, q, buffer, sent);
      var rest := buffer[sent..];
      if stream && rest == [] {
        return sent;
      }
      var count := if |rest| <= mss then 1 else (|rest| + mss - 1) / mss;
      if count >= WND_RCV {
        if stream && sent > 0 {
          return sent;
        }
        return -2;
      }
      QueueFragments(rest, count);
      return |buffer|;
    }

    /** ikcp_send. */
    method Send(buffer: bytes) returns (code: int)
      requires Valid()
      modifies this`sndQueue, this`nsndQue
      ensures mss > 0 && (View(), code) == Endpoint.Send(old(View()), buffer)
      ensures Valid()
    {
      OkMss(View());
      SendOk(Wrap, View(), buffer);
      hide KcbOk, Packer.Valid, AckList.Valid, AckList.Contents, Messages.Send;
      ghost var cfg := View().cfg;
      code := SendMembers(buffer);
      assert Messages.SendResult(sndQueue, code) == Messages.Send(cfg, old(sndQueue), buffer);
    }

    // ----- ikcp_input

    method TakeHeader(q: Seg)
      requires nsndBuf == |sndBuf|
      modifies this`rmtWnd, this`sndBuf, this`nsndBuf, this`sndUna
      ensures nsndBuf == |sndBuf| && rmtWnd == q.wnd
      ensures Snd(sndUna, sndNxt, sndQueue, sndBuf)
           == Shrink(old(Snd(sndUna, sndNxt, sndQueue, Transmit.ParseUna(Wrap, sndBuf, q.una))))
    {
      rmtWnd := q.wnd;
      ParseUna(q.una);
      ShrinkBuf();
    }

    method TakeAck(q: Seg)
      requires nsndBuf == |sndBuf|
      modifies this`rxSrtt, this`rxRttval, this`rxRto, this`sndBuf, this`nsndBuf, this`sndUna
      ensures nsndBuf == |sndBuf|
      ensures var d := TimeDiff(current, q.ts);
        Rtt(rxSrtt, rxRttval, rxRto) ==
          if d >= 0 then Timers.UpdateAck(old(Rtt(rxSrtt, rxRttval, rxRto)), interval, rxMinrto, d)
          else old(Rtt(rxSrtt, rxRttval, rxRto))
      ensures Snd(sndUna, sndNxt, sndQueue, sndBuf)
           == Shrink(Transmit.ParseAck(Wrap, old(Snd(sndUna, sndNxt, sndQueue, sndBuf)), q.sn))
    {
      hide Timers.UpdateAck, S32;
      if TimeDiff(current, q.ts) >= 0 {
        UpdateAck(TimeDiff(current, q.ts));
      }
      ParseAck(q.sn);
      ShrinkBuf();
    }

    method TakePush(q: Seg)
      requires Shape() && q.sn < MOD
      modifies this`rcvBuf, this`nrcvBuf, this`rcvQueue, this`nrcvQue, this`rcvNxt, acks, acks.list
      ensures Shape() && (acks.list == old(acks.list) || fresh(acks.list))
      ensures Rcv(rcvNxt, rcvQueue, rcvBuf, acks.Contents())
           == Endpoint.TakePush(Wrap, rcvWnd, old(Rcv(rcvNxt, rcvQueue, rcvBuf, acks.Contents())), q)
    {
      hide Packer.Valid, AckList.Contents, Receive.ParseData, S32, U32;
      if TimeDiff(q.sn, Add(Wrap, rcvNxt, rcvWnd)) < 0 {
        acks.Push(q.sn, q.ts);
        if TimeDiff(q.sn, rcvNxt) >= 0 {
          ParseData(Part(q.sn, q.frg, q.data));
        }
      }
    }

    /** The choice of maxack and latest_ts. */
    method ChooseAck(q: Seg, best: Best) returns (best': Best)
      ensures best' == BetterAck(Wrap, best, q)
    {
      hide S32;
      best' := best;
      if !best.flag {
        best' := Best(true, q.sn, q.ts);
      } else if TimeDiff(q.sn, best.maxack) > 0 {
        if TimeDiff(q.ts, best.ts) > 0 {
          best' := best.(maxack := q.sn, ts := q.ts);
        }
      }
    }

    method HeaderStep(q: Seg)
      requires Shape()
      modifies this`rmtWnd, this`sndBuf, this`nsndBuf, this`sndUna
      ensures Shape() && View() == Endpoint.TakeHeader(Wrap, old(View()), q)
    {
      hide Packer.Valid, AckList.Valid, AckList.Contents, Shrink, Transmit.ParseUna;
      TakeHeader(q);
    }

    method AckStep(q: Seg)
      requires Shape()
      modifies this`rxSrtt, this`rxRttval, this`rxRto, this`sndBuf, this`nsndBuf, this`sndUna
      ensures Shape() && View() == Endpoint.TakeAck(Wrap, old(View()), q)
    {
      hide Packer.Valid, AckList.Valid, AckList.Contents, Shrink, Transmit.ParseAck, S32, Timers.UpdateAck;
      TakeAck(q);
    }

    method PushStep(q: Seg)
      requires Shape() && q.sn < MOD
      modifies this`rcvBuf, this`nrcvBuf, this`rcvQueue, this`nrcvQue, this`rcvNxt, acks, acks.list
      ensures Shape() && (acks.list == old(acks.list) || fresh(acks.list))
      ensures View() == old(View()).(rcv := Endpoint.TakePush(Wrap, rcvWnd, old(View()).rcv, q))
    {
      hide Packer.Valid, AckList.Contents, Endpoint.TakePush;
      TakePush(q);
    }

    method TellStep()
      requires Shape()
      modifies this`askTell
      ensures Shape() && View() == old(View()).(prb := old(View()).prb.(askTell := true))
    {
      askTell := true;
    }

    /** One turn of the loop of ikcp_input, behind the decoding. */
    method ProcessSegment(q: Seg, best: Best) returns (best': Best)
      requires Shape() && Readable(Wrap, q)
      modifies this, acks, acks.list
      ensures Shape() && (acks.list == old(acks.list) || fresh(acks.list))
      ensures Inner(View(), best') == Process(Wrap, Inner(old(View()), best), q)
    {
      hide Packer.Valid, AckList.Valid, AckList.Contents, Endpoint.TakePush, Endpoint.TakeHeader, Endpoint.TakeAck,
           BetterAck;
      best' := best;
      HeaderStep(q);
      match q.cmd {
        case Ack =>
          AckStep(q);
          best' := ChooseAck(q, best);
        case Push =>
          PushStep(q);
        case Wask =>
          TellStep();
        case Wins =>
      }
    }

    /** What ikcp_input does behind its loop. */
    method FinishInput(best: Best, prevUna: nat)
      requires Shape() && mss > 0
      modifies this`sndBuf, this`cwnd, this`incr
      ensures Shape() && View() == Finish(Wrap, Inner(old(View()), best), prevUna)
    {
      hide Packer.Valid, AckList.Valid, AckList.Contents, Transmit.ParseFastack, S32;
      if best.flag {
        ParseFastack(best.maxack, best.ts);
      }
      if TimeDiff(sndUna, prevUna) > 0 {
        CountAck();
      }
    }

    /** The congestion window of ikcp_input. */
    method CountAck()
      requires mss > 0
      modifies this`cwnd, this`incr
      ensures Cc(cwnd, incr, ssthresh) == Congestion.OnAck(old(Cc(cwnd, incr, ssthresh)), rmtWnd, mss)
    {
      hide S32, U32, Congestion.Quot;
      if cwnd < rmtWnd {
        if cwnd < ssthresh {
          cwnd := U32(cwnd + 1);
          incr := U32(incr + mss);
        } else {
          if incr < mss {
            incr := U32(mss);
          }
          if incr != 0 {
            incr := U32(incr + Congestion.Quot(U32(mss * mss), incr) + mss / 16);
          }
          if U32(U32(cwnd + 1) * mss) <= incr {
            cwnd := U32(Congestion.Quot(U32(incr + mss - 1), mss));
          }
        }
        if cwnd > rmtWnd {
          cwnd := U32(rmtWnd);
          incr := U32(rmtWnd * mss);
        }
      }
    }

    /** ikcp_input. */
    method Input(data: bytes) returns (code: int)
      requires Valid()
      modifies this, acks, acks.list
      ensures acks.Valid() && mss > 0 && View() == Endpoint.Input(Wrap, old(View()), Parse(conv, data))
      ensures code == Parse(conv, data).code
      ensures Valid() && (acks.list == old(acks.list) || fresh(acks.list))
    {
      OkMss(View());
      BytesOk(View(), data);
      hide KcbOk, Packer.Valid, AckList.Valid, AckList.Contents, Process, Finish, StopCode, DecodeSeg;
      var prevUna := sndUna;
      var best := NO_ACK;
      ghost var st := Inner(View(), NO_ACK);
      if S32(|data|) < OVERHEAD {
        return -1;
      }
      var rest := data;
      while true
        invariant Shape() && (acks.list == old(acks.list) || fresh(acks.list))
        invariant ProcessAll(Wrap, Inner(View(), best), Decode(conv, rest).segs)
               == ProcessAll(Wrap, st, Decode(conv, data).segs)
        invariant Decode(conv, rest).code == Decode(conv, data).code
        decreases |rest|
      {
        var stop := StopCode(conv, rest);
        if stop < 0 {
          return stop;
        }
        if stop == 0 {
          break;
        }
        var q := DecodeSeg(rest);
        DecodeReadable(conv, rest);
        DecodeStep(conv, rest);
        best := ProcessSegment(q, best);
        rest := rest[24 + FromLe32(rest, 20)..];
      }
      DecodeEnd(conv, rest);
      FinishInput(best, prevUna);
      code := 0;
    }

    // ----- ikcp_flush

    /** "flush acknowledges". */
    method FlushAcks(wnd: nat, una: nat) returns (last: AckItem)
      requires acks.Valid() && pack.Valid() && acks.list as object != pack.buffer && pack.mtu == mtu >= OVERHEAD
      modifies acks`count, pack, pack.buffer
      ensures acks.Valid() && pack.Valid() && acks.Contents() == [] && last == Leftover(old(acks.Contents()))
      ensures pack.packing == PutAll(mtu, old(pack.packing), AckSegs(wnd, una, old(acks.Contents())))
    {
      hide Packer.Valid, AckList.Contents, Wire.Put, U32, S32;
      ghost var all := acks.Contents();
      ghost var p := pack.packing;
      ghost var segs := AckSegs(wnd, una, all);
      last := AckItem(0, 0);
      var i := 0;
      while i < acks.count
        invariant i <= acks.count == |all| && acks.Valid() && pack.Valid() && acks.Contents() == all
        invariant last == Leftover(all[..i])
        invariant pack.packing == PutAll(mtu, p, segs[..i])
      {
        var sn, ts := acks.Get(i);
        last := AckItem(sn, ts);
        assert segs[..i + 1] == segs[..i] + [AckSeg(wnd, una, last)] && all[..i + 1] == all[..i] + [last];
        PutAllSnoc(mtu, p, segs[..i], AckSeg(wnd, una, last));
        pack.Put(AckSeg(wnd, una, last));
        i := i + 1;
      }
      assert all[..i] == all && segs[..i] == segs;
      acks.Clear();
    }

    /** "probe window size (if remote window size equals zero)". */
    method TickProbe()
      modifies this`askSend, this`tsProbe, this`probeWait
      ensures Probe(rmtWnd, askSend, askTell, tsProbe, probeWait)
           == ProbeTick(old(Probe(rmtWnd, askSend, askTell, tsProbe, probeWait)), current)
    {
      hide S32, U32;
      if rmtWnd == 0 {
        if probeWait == 0 {
          probeWait := PROBE_INIT;
          tsProbe := U32(current + probeWait);
        } else if TimeDiff(current, tsProbe) >= 0 {
          if probeWait < PROBE_INIT {
            probeWait := PROBE_INIT;
          }
          probeWait := U32(probeWait + probeWait / 2);
          probeWait := U32(Min(probeWait, PROBE_LIMIT));
          tsProbe := U32(current + probeWait);
          askSend := true;
        }
      } else {
        tsProbe := 0;
        probeWait := 0;
      }
    }

    /** "flush window probing commands", twice. */
    method FlushProbes(wnd: nat, una: nat, a: AckItem)
      requires pack.Valid() && pack.mtu == mtu >= OVERHEAD
      modifies this`askSend, this`askTell, pack, pack.buffer
      ensures pack.Valid() && !askSend && !askTell
      ensures pack.packing == PutAll(mtu, old(pack.packing),
                ProbeSegs(old(Probe(rmtWnd, askSend, askTell, tsProbe, probeWait)), wnd, una, a))
    {
      hide Packer.Valid, Wire.Put;
      ghost var p := pack.packing;
      ghost var w := if askSend then [Seg(Wask, 0, wnd, a.ts, a.sn, una, [])] else [];
      if askSend {
        PutAllSnoc(mtu, p, [], Seg(Wask, 0, wnd, a.ts, a.sn, una, []));
        assert [] + w == w;
        pack.Put(Seg(Wask, 0, wnd, a.ts, a.sn, una, []));
      }
      if askTell {
        PutAllSnoc(mtu, p, w, Seg(Wins, 0, wnd, a.ts, a.sn, una, []));
        pack.Put(Seg(Wins, 0, wnd, a.ts, a.sn, una, []));
      } else {
        assert w + [] == w;
      }
      askSend, askTell := false, false;
    }

    /** "move data from snd_queue to snd_buf". */
    method FillWindow(window: nat)
      requires nsndBuf == |sndBuf| && nsndQue == |sndQueue|
      modifies this`sndQueue, this`nsndQue, this`sndBuf, this`nsndBuf, this`sndNxt
      ensures nsndBuf == |sndBuf| && nsndQue == |sndQueue|
      ensures Snd(sndUna, sndNxt, sndQueue, sndBuf)
           == Fill(Wrap, old(Snd(sndUna, sndNxt, sndQueue, sndBuf)), window, current, rxRto)
    {
      hide S32, U32;
      while TimeDiff(sndNxt, Add(Wrap, sndUna, window)) < 0 && sndQueue != []
        invariant nsndBuf == |sndBuf| && nsndQue == |sndQueue|
        invariant Fill(Wrap, Snd(sndUna, sndNxt, sndQueue, sndBuf), window, current, rxRto)
               == Fill(Wrap, old(Snd(sndUna, sndNxt, sndQueue, sndBuf)), window, current, rxRto)
        decreases |sndQueue|
      {
        var seg := sndQueue[0];
        sndQueue := sndQueue[1..];
        nsndQue := nsndQue - 1;
        sndBuf := sndBuf + [Flight(sndNxt, seg.frg, seg.data, current, current, rxRto, 0, 0)];
        nsndBuf := nsndBuf + 1;
        sndNxt := Add(Wrap, sndNxt, 1);
      }
    }

    /** The decision of ikcp_flush about one segment, and the segment afterwards. */
    method Consider(c: Ctx, f: Flight) returns (f': Flight, why: Reason)
      ensures f' == Touch(c, f) && why == Decide(c, f)
    {
      hide S32, U32, Half;
      f', why := f, Idle;
      if f.xmit == 0 {
        why := First;
        f' := f.(xmit := 1, rto := c.rto, resendts := U32(c.current + c.rto + RtoMin(c)), ts := c.current);
      } else if TimeDiff(c.current, f.resendts) >= 0 {
        why := Timeout;
        var rto := f.rto;
        if c.nodelay == 0 {
          rto := U32(rto + Max(rto, c.rto));
        } else {
          var step := if c.nodelay < 2 then S32(rto) else S32(c.rto);
          rto := U32(rto + Half(step));
        }
        f' := f.(xmit := U32(f.xmit + 1), rto := rto, resendts := U32(c.current + rto), ts := c.current);
      } else if f.fastack >= c.resent {
        if S32(f.xmit) <= c.fastlimit || c.fastlimit <= 0 {
          why := Fast;
          f' := f.(xmit := U32(f.xmit + 1), fastack := 0, resendts := U32(c.current + f.rto), ts := c.current);
        }
      }
    }

    /** One turn of the data loop: decide, count, encode. */
    method FlushSegment(c: Ctx, wnd: nat, una: nat, f: Flight) returns (segment: Flight, why: Reason)
      requires pack.Valid() && pack.mtu == mtu && OVERHEAD + |f.data| <= mtu
      modifies this`xmit, this`dead, pack, pack.buffer
      ensures pack.Valid() && segment == Touch(c, f) && why == Decide(c, f)
      ensures xmit == if why == Timeout then U32(old(xmit) + 1) else old(xmit)
      ensures dead == (old(dead) || (why != Idle && segment.xmit >= deadLink))
      ensures pack.packing == if why == Idle then old(pack.packing)
                              else Wire.Put(mtu, old(pack.packing), DataSeg(wnd, una, segment))
    {
      hide Packer.Valid, Wire.Put, Touch, Decide, U32;
      segment, why := Consider(c, f);
      TouchKeepsData(c, f);
      if why == Timeout {
        xmit := U32(xmit + 1);
      }
      if why != Idle {
        pack.Put(DataSeg(wnd, una, segment));
        if segment.xmit >= deadLink {
          dead := true;
        }
      }
    }

    /** "flush data segments". */
    method FlushData(c: Ctx, wnd: nat, una: nat) returns (change: nat, lost: bool)
      requires pack.Valid() && pack.mtu == mtu == mss + OVERHEAD && SmallFlights(mss, sndBuf)
      modifies this`sndBuf, this`xmit, this`dead, pack, pack.buffer
      ensures pack.Valid() && sndBuf == TouchAll(c, old(sndBuf))
      ensures FlushedData(c, wnd, una, deadLink, mtu, old(sndBuf),
                          Sums(0, false, old(xmit), old(dead), old(pack.packing)),
                          Sums(change, lost, xmit, dead, pack.packing))
    {
      hide Packer.Valid, Wire.Put, Touch, Decide, U32, TouchAll, FlushedData;
      ghost var b, s0 := sndBuf, Sums(0, false, xmit, dead, pack.packing);
      change, lost := 0, false;
      FlushedNone(c, wnd, una, deadLink, mtu, s0);
      var i := 0;
      assert [] + b[0..] == b && b[..0] == [];
      while i < |sndBuf|
        invariant i <= |sndBuf| == |b| && pack.Valid()
        invariant sndBuf == TouchAll(c, b[..i]) + b[i..]
        invariant FlushedData(c, wnd, una, deadLink, mtu, b[..i], s0, Sums(change, lost, xmit, dead, pack.packing))
      {
        FlushedNext(c, wnd, una, deadLink, mtu, b, i, s0, Sums(change, lost, xmit, dead, pack.packing));
        ReplaceNext(TouchAll(c, b[..i]), b, i, Touch(c, b[i]));
        assert sndBuf[i] == b[i];
        var segment, why := FlushSegment(c, wnd, una, sndBuf[i]);
        sndBuf := sndBuf[i := segment];
        change := change + if why == Fast then 1 else 0;
        lost := lost || why == Timeout;
        i := i + 1;
      }
      assert b[..i] == b && b[i..] == [];
    }

    /** "update ssthresh" and what follows it. */
    method EndFlush(change: nat, lost: bool, resent: u32, window: u32)
      modifies this`ssthresh, this`cwnd, this`incr
      ensures Cc(cwnd, incr, ssthresh) == Congestion.AfterFlush(old(Cc(cwnd, incr, ssthresh)), change > 0, lost,
                                                                U32(sndNxt - sndUna), resent, window, mss)
    {
      hide U32;
      if change > 0 {
        var inflight := U32(sndNxt - sndUna);
        ssthresh := U32(Max(inflight / 2, THRESH_MIN));
        cwnd := U32(ssthresh + resent);
        incr := U32(cwnd * mss);
      }
      if lost {
        ssthresh := U32(Max(window / 2, THRESH_MIN));
        cwnd := 1;
        incr := U32(mss);
      }
      if cwnd < 1 {
        cwnd := 1;
        incr := U32(mss);
      }
    }

    /** The first half of ikcp_flush: acknowledgements and probes. */
    method FlushSignals(wnd: nat)
      requires acks.Valid() && pack.Valid() && acks.list as object != pack.buffer && pack.mtu == mtu >= OVERHEAD
      modifies this`askSend, this`askTell, this`tsProbe, this`probeWait, acks`count, pack, pack.buffer
      ensures acks.Valid() && pack.Valid() && acks.Contents() == []
      ensures var p := ProbeTick(old(Probe(rmtWnd, askSend, askTell, tsProbe, probeWait)), current);
        && Probe(rmtWnd, askSend, askTell, tsProbe, probeWait) == p.(askSend := false, askTell := false)
        && pack.packing == PutAll(mtu, old(pack.packing), AckSegs(wnd, rcvNxt, old(acks.Contents()))
                                       + ProbeSegs(p, wnd, rcvNxt, Leftover(old(acks.Contents()))))
    {
      hide Packer.Valid, AckList.Valid, AckList.Contents, ProbeTick, Wire.Put, PutAll, ProbeSegs, AckSegs, Leftover;
      ghost var p := ProbeTick(Probe(rmtWnd, askSend, askTell, tsProbe, probeWait), current);
      PutAllConcat(mtu, pack.packing, AckSegs(wnd, rcvNxt, acks.Contents()),
                   ProbeSegs(p, wnd, rcvNxt, Leftover(acks.Contents())));
      var last := FlushAcks(wnd, rcvNxt);
      TickProbe();
      FlushProbes(wnd, rcvNxt, last);
    }

    /** The window ikcp_flush works with. */
    method SendWindow() returns (window: u32)
      requires rmtWnd <= 65535
      ensures forall k: Kcb {:trigger Window(k)} ::
        k.cfg.sndWnd == sndWnd && k.prb.rmtWnd == rmtWnd && k.cfg.nocwnd == nocwnd && k.cc.cwnd == cwnd ==>
        window == Window(k) == U32(Window(k))
    {
      var w := Min(sndWnd, rmtWnd);
      if !nocwnd {
        w := Min(cwnd, w);
      }
      window := w;
    }

    /** The second half of ikcp_flush: data segments and the congestion window. */
    method FlushSegments(c: Ctx, wnd: nat, window: u32)
      requires nsndBuf == |sndBuf| && nsndQue == |sndQueue| && pack.Valid() && pack.mtu == mtu == mss + OVERHEAD
      requires SmallFlights(mss, sndBuf) && Messages.Small(mss, sndQueue)
      modifies this`sndQueue, this`nsndQue, this`sndBuf, this`nsndBuf, this`sndNxt, this`xmit, this`dead,
               this`ssthresh, this`cwnd, this`incr, pack, pack.buffer
      ensures nsndBuf == |sndBuf| && nsndQue == |sndQueue| && pack.Valid()
      ensures var s := Fill(Wrap, old(Snd(sndUna, sndNxt, sndQueue, sndBuf)), window, current, rxRto);
        && Snd(sndUna, sndNxt, sndQueue, sndBuf) == s.(buf := TouchAll(c, s.buf))
        && Cc(cwnd, incr, ssthresh) == Congestion.AfterFlush(old(Cc(cwnd, incr, ssthresh)), Count(c, Fast, s.buf) > 0,
             Count(c, Timeout, s.buf) > 0, U32(s.nxt - s.una), c.resent, window, mss)
        && xmit == U32(old(xmit) + Count(c, Timeout, s.buf))
        && dead == (old(dead) || Died(c, deadLink, s.buf))
        && pack.packing == PutAll(mtu, old(pack.packing), DataSegs(c, wnd, rcvNxt, s.buf))
    {
      hide Packer.Valid, Fill, Count, Died, DataSegs, PutAll, Congestion.AfterFlush, U32;
      FillSmall(Wrap, Snd(sndUna, sndNxt, sndQueue, sndBuf), window, current, rxRto, mss);
      FillWindow(window);
      var change, lost := FlushData(c, wnd, rcvNxt);
      EndFlush(change, lost, c.resent, window);
    }

    /** The part of ikcp_flush behind the probes; k is the value before the flush. */
    method FlushTail(ghost k: Kcb, wnd: nat)
      requires nsndBuf == |sndBuf| && nsndQue == |sndQueue| && pack.Valid() && pack.mtu == mtu == mss + OVERHEAD
      requires SmallFlights(mss, sndBuf) && Messages.Small(mss, sndQueue) && rmtWnd <= 65535
      requires k.snd == Snd(sndUna, sndNxt, sndQueue, sndBuf) && k.cc == Cc(cwnd, incr, ssthresh) && k.xmit == xmit
      requires k.dead == dead && k.clk.current == current && k.rtt.rto == rxRto && k.prb.rmtWnd == rmtWnd
      requires k.cfg == Cfg(conv, mtu, mss, sndWnd, rcvWnd, interval, nodelay, rxMinrto, fastresend, fastlimit, nocwnd,
                            stream, deadLink)
      modifies this`sndQueue, this`nsndQue, this`sndBuf, this`nsndBuf, this`sndNxt, this`xmit, this`dead,
               this`ssthresh, this`cwnd, this`incr, pack, pack.buffer
      ensures nsndBuf == |sndBuf| && nsndQue == |sndQueue| && pack.Valid()
      ensures var k' := Flushed(k);
        && Snd(sndUna, sndNxt, sndQueue, sndBuf) == k'.snd && Cc(cwnd, incr, ssthresh) == k'.cc
        && xmit == k'.xmit && dead == k'.dead
      ensures pack.packing == PutAll(mtu, old(pack.packing), DataSegs(MakeCtx(k), wnd, rcvNxt, Filled(Wrap, k).buf))
    {
      hide Packer.Valid, Fill, Count, Died, DataSegs, PutAll, Congestion.AfterFlush, U32, TouchAll, ProbeTick, Window;
      var window := SendWindow();
      assert window == Window(k) == U32(Window(k));
      var c := Ctx(current, rxRto, nodelay, if fastresend > 0 then U32(fastresend) else 0xffff_ffff, fastlimit);
      FlushSegments(c, wnd, window);
    }

    /** The body of ikcp_flush behind the check of `updated`, on the members it touches; k is the value before. */
    method FlushUpdated(ghost k: Kcb)
      requires Shape() && k == View() && rmtWnd <= 65535 && mtu == mss + OVERHEAD && k.clk.updated
      requires SmallFlights(mss, sndBuf) && Messages.Small(mss, sndQueue)
      modifies this`askSend, this`askTell, this`tsProbe, this`probeWait, acks`count, pack, pack.buffer,
               this`sndQueue, this`nsndQue, this`sndBuf, this`nsndBuf, this`sndNxt, this`xmit, this`dead,
               this`ssthresh, this`cwnd, this`incr
      ensures nsndBuf == |sndBuf| && nsndQue == |sndQueue| && acks.Valid() && pack.Valid() && acks.Contents() == []
      ensures var k' := Flushed(k);
        && Probe(rmtWnd, askSend, askTell, tsProbe, probeWait) == k'.prb
        && Snd(sndUna, sndNxt, sndQueue, sndBuf) == k'.snd && Cc(cwnd, incr, ssthresh) == k'.cc
        && xmit == k'.xmit && dead == k'.dead
      ensures pack.packing == PutAll(mtu, old(pack.packing), Emitted(Wrap, k))
    {
      FlushedProbe(k);
      hide Packer.Valid, AckList.Valid, AckList.Contents, DataSegs, PutAll, ProbeTick, AckSegs, ProbeSegs, Leftover,
           Flushed, Filled, MakeCtx;
      ghost var p := pack.packing;
      var wnd := WndUnused();
      ghost var signals := AckSegs(wnd, rcvNxt, k.rcv.acks)
                           + ProbeSegs(ProbeTick(k.prb, current), wnd, rcvNxt, Leftover(k.rcv.acks));
      PutAllConcat(mtu, p, signals, DataSegs(MakeCtx(k), wnd, rcvNxt, Filled(Wrap, k).buf));
      FlushSignals(wnd);
      FlushTail(k, wnd);
    }

    /** All of ikcp_flush behind the check of `updated`. */
    method FlushBody(ghost k: Kcb)
      requires Shape() && k == View() && rmtWnd <= 65535 && mtu == mss + OVERHEAD && k.clk.updated
      requires SmallFlights(mss, sndBuf) && Messages.Small(mss, sndQueue) && pack.packing.cur == []
      modifies this`askSend, this`askTell, this`tsProbe, this`probeWait, acks`count, pack, pack.buffer,
               this`sndQueue, this`nsndQue, this`sndBuf, this`nsndBuf, this`sndNxt, this`xmit, this`dead,
               this`ssthresh, this`cwnd, this`incr
      ensures nsndBuf == |sndBuf| && nsndQue == |sndQueue| && acks.Valid() && pack.Valid() && acks.Contents() == []
      ensures var k' := Flushed(k);
        && Probe(rmtWnd, askSend, askTell, tsProbe, probeWait) == k'.prb
        && Snd(sndUna, sndNxt, sndQueue, sndBuf) == k'.snd && Cc(cwnd, incr, ssthresh) == k'.cc
        && xmit == k'.xmit && dead == k'.dead
      ensures pack.packing == Packing(old(pack.packing.out) + Datagrams(Wrap, k), [])
    {
      CloseBehind(mtu, pack.packing.out, Emitted(Wrap, k));
      hide Packer.Valid, AckList.Valid, AckList.Contents, Emitted, PutAll, Flushed, SmallFlights, Messages.Small, Pack,
           Close;
      FlushUpdated(k);
      pack.Finish();
    }

    method FlushView(ghost k: Kcb)
      requires Shape() && k == View() && rmtWnd <= 65535 && mtu == mss + OVERHEAD && k.clk.updated
      requires SmallFlights(mss, sndBuf) && Messages.Small(mss, sndQueue) && pack.packing.cur == []
      modifies this`askSend, this`askTell, this`tsProbe, this`probeWait, acks`count, pack, pack.buffer,
               this`sndQueue, this`nsndQue, this`sndBuf, this`nsndBuf, this`sndNxt, this`xmit, this`dead,
               this`ssthresh, this`cwnd, this`incr
      ensures Shape() && View() == Flushed(k)
      ensures pack.packing == Packing(old(pack.packing.out) + Datagrams(Wrap, k), [])
    {
      FlushedRest(k);
      hide Packer.Valid, AckList.Valid, AckList.Contents, Flushed, Datagrams, SmallFlights, Messages.Small;
      FlushBody(k);
    }

    /** ikcp_flush. */
    method Flush()
      requires Valid()
      modifies this, acks`count, pack, pack.buffer
      ensures acks.Valid() && View() == Endpoint.Flush(Wrap, old(View()))
      ensures pack.sent == old(pack.sent) + EncodeEach(conv, Datagrams(Wrap, old(View())))
      ensures Valid()
    {
      ghost var k, out := View(), pack.packing.out;
      FlushOk(Wrap, k);
      ReadyToFlush(k);
      FlushedIsFlush(k);
      EncodeEachConcat(conv, out, Datagrams(Wrap, k));
      hide AckList.Valid, AckList.Contents, KcbOk, Endpoint.Flush, Flushed, Datagrams, EncodeEach;
      if !updated {
        NothingEmitted(k);
        assert pack.sent + [] == pack.sent;
        return;
      }
      FlushView(k);
    }

    // ----- ikcp_update and ikcp_check

    /** ikcp_update up to the call of ikcp_flush. */
    method TickMembers(now: u32) returns (due: bool)
      modifies this`current, this`tsFlush, this`updated
      ensures (Clock(current, tsFlush, updated), due) == Tick(old(Clock(current, tsFlush, updated)), interval, now)
    {
      hide U32, S32;
      current := now;
      if !updated {
        updated := true;
        tsFlush := current;
      }
      var slap := TimeDiff(current, tsFlush);
      due := false;
      if slap >= 10000 || slap < -10000 {
        tsFlush := current;
        slap := 0;
      }
      if slap >= 0 {
        tsFlush := U32(tsFlush + interval);
        if TimeDiff(current, tsFlush) >= 0 {
          tsFlush := U32(current + interval);
        }
        due := true;
      }
    }

    method TickView(now: u32) returns (due: bool)
      requires Valid()
      modifies this`current, this`tsFlush, this`updated
      ensures Valid() && View() == old(View()).(clk := Tick(old(View()).clk, interval, now).0)
      ensures due == Tick(old(View()).clk, interval, now).1
    {
      ClockOk(View(), Tick(View().clk, interval, now).0);
      hide KcbOk, Packer.Valid, AckList.Valid, AckList.Contents, Tick;
      due := TickMembers(now);
    }

    /** ikcp_update. */
    method Update(now: u32)
      requires Valid()
      modifies this, acks`count, pack, pack.buffer
      ensures acks.Valid() && View() == Endpoint.Update(Wrap, old(View()), now)
      ensures pack.sent == old(pack.sent) + EncodeEach(conv, UpdateDatagrams(Wrap, old(View()), now))
      ensures Valid()
    {
      hide KcbOk, Packer.Valid, AckList.Valid, AckList.Contents, Tick, Datagrams, Endpoint.Flush;
      ghost var k, sent := View(), pack.sent;
      var due := TickView(now);
      if due {
        Flush();
      } else {
        assert EncodeEach(conv, []) == [] && sent + [] == sent;
      }
    }

    /** ikcp_check. */
    method Check(now: u32) returns (next: u32)
      requires Valid()
      ensures next == Endpoint.Check(View(), now)
    {
      NoTime(now);
      hide KcbOk, Packer.Valid, AckList.Valid, AckList.Contents, U32, S32;
      if !updated {
        return now;
      }
      var ts := tsFlush;
      if TimeDiff(now, ts) >= 10000 || TimeDiff(now, ts) < -10000 {
        ts := now;
      }
      if TimeDiff(now, ts) >= 0 {
        return now;
      }
      var tmFlush, tmPacket := TimeDiff(ts, now), 0x7fff_ffff;
      var i := 0;
      assert sndBuf[..0] == [];
      while i < |sndBuf|
        invariant i <= |sndBuf| && NextResend(sndBuf[..i], now) == In(tmPacket)
      {
        NextResendStep(sndBuf, i, now);
        var diff := TimeDiff(sndBuf[i].resendts, now);
        if diff <= 0 {
          NextResendDue(sndBuf, i + 1, now);
          return now;
        }
        if diff < tmPacket {
          tmPacket := diff;
        }
        i := i + 1;
      }
      assert sndBuf[..i] == sndBuf;
      var minimal := if tmPacket < tmFlush then tmPacket else tmFlush;
      if minimal >= interval {
        minimal := interval;
      }
      return U32(now + minimal);
    }
  }

  lemma {:induction false} NoTime(now: u32)
    ensures TimeDiff(now, now) == 0
  {
  }

  lemma {:induction false} NextResendStep(buf: seq<Flight>, i: nat, now: u32)
    requires i < |buf|
    ensures NextResend(buf[..i + 1], now) ==
      var rest, d := NextResend(buf[..i], now), TimeDiff(buf[i].resendts, now);
      if rest.Due? || d <= 0 then Due else In(Min(d, rest.ms))
  {
    assert buf[..i + 1][..i] == buf[..i] && buf[..i + 1][i] == buf[i];
  }

  /** One segment that is due decides, whatever stands behind it. */
  lemma {:induction false} NextResendDue(buf: seq<Flight>, i: nat, now: u32)
    requires i <= |buf| && NextResend(buf[..i], now) == Due
    ensures NextResend(buf, now) == Due
    decreases |buf| - i
  {
    if i < |buf| {
      NextResendStep(buf, i, now);
      NextResendDue(buf, i + 1, now);
    } else {
      assert buf[..i] == buf;
    }
  }

  /** One turn of the loop of ikcp_parse_ack. */
  lemma {:induction false} RemoveStep(b: seq<Flight>, i: nat, sn: nat)
    requires i < |b|
    ensures RemoveSn(Wrap, b[i..], sn) ==
      if sn == b[i].sn then b[i + 1..]
      else if TimeDiff(sn, b[i].sn) < 0 then b[i..]
      else [b[i]] + RemoveSn(Wrap, b[i + 1..], sn)
  {
    assert b[i..][1..] == b[i + 1..] && b[i..][0] == b[i];
  }

  lemma {:induction false} RemoveNone(sn: nat)
    ensures RemoveSn(Wrap, [], sn) == []
  {
  }

  /** One turn of the loop of ikcp_parse_fastack. */
  lemma {:induction false} SkipStep(b: seq<Flight>, i: nat, sn: nat, ts: u32)
    requires i < |b|
    ensures Skip(Wrap, b[i..], sn, ts) ==
      if TimeDiff(sn, b[i].sn) < 0 then b[i..]
      else [if sn != b[i].sn && TimeDiff(ts, b[i].ts) >= 0 then b[i].(fastack := U32(b[i].fastack + 1)) else b[i]]
           + Skip(Wrap, b[i + 1..], sn, ts)
  {
    assert b[i..][1..] == b[i + 1..] && b[i..][0] == b[i];
  }

  lemma {:induction false} SkipNone(sn: nat, ts: u32)
    ensures Skip(Wrap, [], sn, ts) == []
  {
  }

  lemma {:induction false} UpdateSplit<T>(s: seq<T>, i: nat, f: T, rest: seq<T>)
    requires i < |s|
    ensures s[i := f][i + 1..] == s[i + 1..]
    ensures s[i := f][..i + 1] + rest == s[..i] + ([f] + rest)
  {
    assert s[i := f][..i + 1] == s[..i] + [f];
  }

  lemma {:induction false} ExtendBounds(stream: bool, mss: nat, queue: seq<Frag>, msg: bytes, sent: nat)
    requires forall cfg: Cfg :: cfg.stream == stream && cfg.mss == mss ==> sent == Messages.Extend(cfg, queue, msg)
    ensures sent <= |msg|
  {
    var cfg := DefaultCfg(0).(stream := stream, mss := mss);
    assert sent == Messages.Extend(cfg, queue, msg);
  }

  lemma {:induction false} DecodeStep(conv: u32, b: bytes)
    requires StopCode(conv, b) > 0
    ensures Decode(conv, b).segs != [] && Decode(conv, b).segs[0] == DecodeSeg(b)
    ensures var rest := Decode(conv, b[24 + FromLe32(b, 20)..]);
            Decode(conv, b).segs[1..] == rest.segs && Decode(conv, b).code == rest.code
  {
  }

  lemma {:induction false} DecodeEnd(conv: u32, b: bytes)
    requires StopCode(conv, b) <= 0
    ensures Decode(conv, b) == Parsed([], StopCode(conv, b))
  {
  }

  /** The accumulators of the data loop: change, lost, kcp->xmit, state, and what was packed. */
  datatype Sums = Sums(change: nat, lost: bool, xmit: u32, dead: bool, packing: Packing)

  /** The accumulators after the segments b. */
  ghost predicate FlushedData(c: Ctx, wnd: nat, una: nat, deadLink: nat, mtu: nat, b: seq<Flight>, s0: Sums, s: Sums) {
    && s.change == Count(c, Fast, b) && s.lost == (Count(c, Timeout, b) > 0)
    && s.xmit == U32(s0.xmit + Count(c, Timeout, b))
    && s.dead == (s0.dead || Died(c, deadLink, b))
    && s.packing == PutAll(mtu, s0.packing, DataSegs(c, wnd, una, b))
  }

  lemma {:induction false} FlushedNone(c: Ctx, wnd: nat, una: nat, deadLink: nat, mtu: nat, s0: Sums)
    requires s0.change == 0 && !s0.lost
    ensures FlushedData(c, wnd, una, deadLink, mtu, [], s0, s0) && TouchAll(c, []) == []
  {
    assert U32(s0.xmit) == s0.xmit;
  }

  /** One turn: what it does to the accumulators. */
  lemma {:induction false} FlushedNext(c: Ctx, wnd: nat, una: nat, deadLink: nat, mtu: nat, b: seq<Flight>, i: nat,
                                       s0: Sums, s: Sums)
    requires i < |b| && FlushedData(c, wnd, una, deadLink, mtu, b[..i], s0, s)
    ensures var f, why := Touch(c, b[i]), Decide(c, b[i]);
      FlushedData(c, wnd, una, deadLink, mtu, b[..i + 1], s0,
        Sums(s.change + if why == Fast then 1 else 0, s.lost || why == Timeout,
             if why == Timeout then U32(s.xmit + 1) else s.xmit,
             s.dead || (why != Idle && f.xmit >= deadLink),
             if why == Idle then s.packing else Wire.Put(mtu, s.packing, DataSeg(wnd, una, f))))
    ensures TouchAll(c, b[..i + 1]) == TouchAll(c, b[..i]) + [Touch(c, b[i])]
  {
    hide Wire.Put, Touch, Decide, U32, Count, Died, DataSegs, PutAll;
    FlushDataStep(c, wnd, una, deadLink, b, i);
    NextCount(s0.xmit, Count(c, Timeout, b[..i]));
    PutAllSnoc(mtu, s0.packing, DataSegs(c, wnd, una, b[..i]), DataSeg(wnd, una, Touch(c, b[i])));
  }

  lemma {:induction false} ReplaceNext<T>(front: seq<T>, b: seq<T>, i: nat, x: T)
    requires |front| == i < |b|
    ensures (front + b[i..])[i := x] == (front + [x]) + b[i + 1..]
  {
  }

  lemma {:induction false} NextCount(xmit: int, n: int)
    ensures U32(U32(xmit + n) + 1) == U32(xmit + (n + 1))
  {
    assert xmit + n == MOD * ((xmit + n) / MOD) + U32(xmit + n);
    ModShift(U32(xmit + n) + 1, (xmit + n) / MOD);
  }

  lemma {:induction false} TouchKeepsData(c: Ctx, f: Flight)
    ensures Touch(c, f).data == f.data
  {
  }

  /** What one more segment adds to the accumulators of the data loop. */
  lemma {:induction false} FlushDataStep(c: Ctx, wnd: nat, una: nat, deadLink: nat, b: seq<Flight>, i: nat)
    requires i < |b|
    ensures TouchAll(c, b[..i + 1]) == TouchAll(c, b[..i]) + [Touch(c, b[i])]
    ensures Count(c, Fast, b[..i + 1]) == Count(c, Fast, b[..i]) + if Decide(c, b[i]) == Fast then 1 else 0
    ensures Count(c, Timeout, b[..i + 1]) == Count(c, Timeout, b[..i]) + if Decide(c, b[i]) == Timeout then 1 else 0
    ensures Died(c, deadLink, b[..i + 1])
       <==> Died(c, deadLink, b[..i]) || (Decide(c, b[i]) != Idle && Touch(c, b[i]).xmit >= deadLink)
    ensures DataSegs(c, wnd, una, b[..i + 1]) ==
      if Decide(c, b[i]) == Idle then DataSegs(c, wnd, una, b[..i])
      else DataSegs(c, wnd, una, b[..i]) + [DataSeg(wnd, una, Touch(c, b[i]))]
  {
    hide Touch, Decide;
    assert b[..i + 1][..i] == b[..i] && b[..i + 1][i] == b[i];
    DiedStep(c, deadLink, b, i);
  }

  lemma {:induction false} DiedStep(c: Ctx, deadLink: nat, b: seq<Flight>, i: nat)
    requires i < |b|
    ensures Died(c, deadLink, b[..i + 1])
       <==> Died(c, deadLink, b[..i]) || (Decide(c, b[i]) != Idle && Touch(c, b[i]).xmit >= deadLink)
  {
    hide Touch, Decide;
    if Died(c, deadLink, b[..i]) {
      var k :| 0 <= k < i && Sent(c, b[..i][k]) && Touch(c, b[..i][k]).xmit >= deadLink;
      assert b[..i + 1][k] == b[..i][k];
    }
    if Died(c, deadLink, b[..i + 1]) {
      var k :| 0 <= k < i + 1 && Sent(c, b[..i + 1][k]) && Touch(c, b[..i + 1][k]).xmit >= deadLink;
      if k < i { assert b[..i + 1][k] == b[..i][k]; }
    }
    if Decide(c, b[i]) != Idle && Touch(c, b[i]).xmit >= deadLink {
      assert Sent(c, b[..i + 1][i]) && Touch(c, b[..i + 1][i]).xmit >= deadLink;
    }
  }

  // ----- the body of ikcp_flush

  /** ikcp_flush of an updated endpoint. */
  ghost function Flushed(k: Kcb): Kcb {
    var c, s := MakeCtx(k), Filled(Wrap, k);
    k.(rcv := k.rcv.(acks := []), prb := ProbeTick(k.prb, k.clk.current).(askSend := false, askTell := false),
       snd := s.(buf := TouchAll(c, s.buf)),
       cc := Congestion.AfterFlush(k.cc, Count(c, Fast, s.buf) > 0, Count(c, Timeout, s.buf) > 0,
                                   U32(s.nxt - s.una), c.resent, U32(Window(k)), k.cfg.mss),
       xmit := U32(k.xmit + Count(c, Timeout, s.buf)),
       dead := k.dead || Died(c, k.cfg.deadLink, s.buf))
  }

  lemma {:induction false} FlushedProbe(k: Kcb)
    ensures Flushed(k).prb == ProbeTick(k.prb, k.clk.current).(askSend := false, askTell := false)
  {
  }

  lemma {:induction false} FlushedRest(k: Kcb)
    ensures var k' := Flushed(k);
      k' == k.(rcv := k.rcv.(acks := []), prb := k'.prb, snd := k'.snd, cc := k'.cc, xmit := k'.xmit, dead := k'.dead)
  {
  }

  lemma {:induction false} ReadyToFlush(k: Kcb)
    requires KcbOk(Wrap, k)
    ensures Window(k) <= 65535 && k.prb.rmtWnd <= 65535 && k.cfg.mtu == k.cfg.mss + OVERHEAD
    ensures SmallFlights(k.cfg.mss, k.snd.buf) && Messages.Small(k.cfg.mss, k.snd.queue)
  {
  }

  lemma {:induction false} FlushedIsFlush(k: Kcb)
    ensures k.clk.updated ==> Endpoint.Flush(Wrap, k) == Flushed(k)
  {
    hide Filled, MakeCtx, TouchAll, Count, Died, ProbeTick, Congestion.AfterFlush, Window, U32, Off;
    var s := Filled(Wrap, k);
    OffTwice(s.nxt, s.una);
  }

  lemma {:induction false} OffTwice(a: nat, b: nat)
    ensures U32(Off(Wrap, a, b)) == U32(a - b)
  {
  }

  lemma {:induction false} EncodeEachConcat(conv: u32, a: seq<seq<Seg>>, b: seq<seq<Seg>>)
    ensures EncodeEach(conv, a + b) == EncodeEach(conv, a) + EncodeEach(conv, b)
  {
  }

  lemma {:induction false} NothingEmitted(k: Kcb)
    requires !k.clk.updated
    ensures Endpoint.Flush(Wrap, k) == k && Datagrams(Wrap, k) == [] && EncodeEach(k.cfg.conv, []) == []
  {
  }

  lemma {:induction false} JoinNext(q: seq<Part>, i: nat)
    requires i < |q|
    ensures Join(Frags(q[..i + 1])) == Join(Frags(q[..i])) + q[i].data
  {
    var fs := Frags(q[..i + 1]);
    assert fs[..i] == Frags(q[..i]);
  }

  lemma {:induction false} CountNext(q: seq<Part>, n: nat)
    requires n < |q|
    ensures MergeCount(q[n..]) == if q[n].frg == 0 then 1 else 1 + MergeCount(q[n + 1..])
  {
    assert q[n..][1..] == q[n + 1..];
  }

  lemma {:induction false} NothingMerged(q: seq<Part>)
    ensures Join(Frags(q[..0])) == [] && q[0..] == q
  {
  }

  lemma {:induction false} MergeCountEnd(q: seq<Part>, i: nat)
    requires i <= |q|
    ensures i == |q| ==> MergeCount(q[i..]) == 0
  {
  }
}
