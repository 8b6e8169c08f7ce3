/** The file transfer from the client's file to the server's, over TCP and over KCP. */
module EndToEnd {
  import opened Serial
  import opened Types
  import opened Headers
  import Messages
  import Receive
  import Tcp
  import opened Transfer
  import Endpoint
  import opened System
  import Refinement
  import opened Liveness
  import opened Delivery
  import opened KcpCalls

  // ----- over TCP

  /** The frames as tcp_send stamps them. */
  function Stamped(fs: seq<bytes>, times: seq<u64>): (ms: seq<Tcp.Message>)
    requires |fs| == |times|
    ensures |ms| == |fs| && forall i :: 0 <= i < |fs| ==> ms[i] == Tcp.Message(fs[i], times[i])
  {
    seq(|fs|, i requires 0 <= i < |fs| => Tcp.Message(fs[i], times[i]))
  }

  /** The results of tcp_recv or kcp_recv as the server meets them. */
  function OnDisk(rs: seq<Arrival>, disks: seq<nat>): (xs: seq<Incoming>)
    requires |rs| == |disks|
    ensures |xs| == |rs| && forall i :: 0 <= i < |rs| ==> xs[i] == Incoming(rs[i].code, rs[i].data, disks[i])
  {
    seq(|rs|, i requires 0 <= i < |rs| => Incoming(rs[i].code, rs[i].data, disks[i]))
  }

  /** One connection: the client's and the server's machine, the clock of tcp_send, what the calls of write and of read
      do, the bytes that get through, and how many times the server calls tcp_recv with how much room on its disk. */
  datatype Connection = Connection(client: Host, server: Host, times: seq<u64>, writing: seq<Tcp.Turn>,
                                   through: bytes, reading: seq<Tcp.Turn>, disks: seq<nat>)

  function SentOver(c: Connection, s: Sender): Tcp.Sends
    requires |s.handed| == |c.times|
  {
    Tcp.SendAll(c.client, Tcp.Stream([], c.writing), Stamped(s.handed, c.times))
  }

  /** The client's answers came from tcp_send, and what gets through is what was written, possibly cut off. */
  predicate OverTcp(c: Connection, s: Sender) {
    && |s.handed| == |c.times| && s.replies == SentOver(c, s).codes && c.through <= SentOver(c, s).rest.data
  }

  /** The server's side of the connection. */
  function ServedTcp(c: Connection): Server {
    var rs := Tcp.RecvAll(c.server, Tcp.Stream(c.through, c.reading), SERVER_FRAME_BUF_SIZE, |c.disks|);
    Serve(c.server, true, SERVER_START, OnDisk(rs, c.disks))
  }

  lemma {:induction false} UploadSendable(h: Host, file: bytes, chunk: nat, fs: seq<bytes>, times: seq<u64>)
    requires Upload(h, file, chunk, fs) && chunk <= MAX_CHUNK && |fs| == |times|
    ensures Tcp.Sendable(Stamped(fs, times), SERVER_FRAME_BUF_SIZE)
  {
    UploadFits(h, file, chunk, fs);
  }

  lemma {:induction false} FeedTcp(xs: seq<Incoming>, fs: seq<bytes>, k: nat)
    requires k <= |fs| && k <= |xs| && (k < |xs| ==> xs[k].code <= 0)
    requires forall i :: 0 <= i < k ==> xs[i].code > 0 && xs[i].data == fs[i]
    ensures Feed(true, xs, fs)
    ensures k == |fs| && (forall i :: 0 <= i < k ==> xs[i].disk >= |fs[i]|) ==> Complete(true, xs, fs)
    decreases k
  {
    if k > 0 { FeedTcp(xs[1..], fs[1..], k - 1); }
  }

  /** For every file and chunk size, every script of reads and stops, any short, interrupted or failing transfers on
      both sides, and a stream cut off anywhere: what the server has written is a prefix of the file, and the whole file
      once transfer_done is set. */
  lemma {:induction false} FileOverTcp(file: bytes, chunk: nat, script: Script, c: Connection)
    requires 1 <= chunk <= MAX_CHUNK && OverTcp(c, SendFile(c.client, file, chunk, script))
    ensures var s := ServedTcp(c);
      s.out <= file && s.written <= |s.out| && (s.done ==> s.out == file && s.written == |file|)
  {
    hide Serve, Upload, Tcp.RecvAll, Tcp.SendAll, SendFile, Feed, Tcp.Sendable;
    var fs := SendFile(c.client, file, chunk, script).handed;
    SendFileUploads(c.client, c.server, file, chunk, script);
    UploadSendable(c.server, file, chunk, fs, c.times);
    UploadFits(c.server, file, chunk, fs);
    var k, _ := Tcp.SendToRecv(c.client, c.server, Stamped(fs, c.times), c.writing, c.through, c.reading,
                               SERVER_FRAME_BUF_SIZE, |c.disks|);
    var rs := Tcp.RecvAll(c.server, Tcp.Stream(c.through, c.reading), SERVER_FRAME_BUF_SIZE, |c.disks|);
    FeedTcp(OnDisk(rs, c.disks), fs, k);
    ServedIsPrefix(c.server, true, file, chunk, fs, OnDisk(rs, c.disks));
  }

  /** If nothing stops the client, nothing is cut off, no read fails, the server keeps calling and its disk has room,
      the transfer is done. */
  lemma {:induction false} FileOverTcpCompletes(file: bytes, chunk: nat, script: Script, c: Connection)
    requires 1 <= chunk <= MAX_CHUNK && OverTcp(c, SendFile(c.client, file, chunk, script))
    requires Smooth(c.client, file, chunk, SENDER_START, script.passes)
    requires script.alive && script.reply == MSG_HEADER_SIZE
    requires c.through == SentOver(c, SendFile(c.client, file, chunk, script)).rest.data && Tcp.Sound(c.reading)
    requires |c.disks| > |c.times| && forall i :: 0 <= i < |c.disks| ==> c.disks[i] >= SERVER_FRAME_BUF_SIZE
    ensures ServedTcp(c).done && ServedTcp(c).out == file
  {
    hide Serve, Tcp.RecvAll, Tcp.SendAll, SendFile, Feed, Complete, Tcp.Sendable, Smooth, EndFrame, ChunkFrame,
         Payloads;
    FileOverTcp(file, chunk, script, c);
    var fs := SendFile(c.client, file, chunk, script).handed;
    SendFileUploads(c.client, c.server, file, chunk, script);
    SmoothUpload(c.client, c.server, file, chunk, script);
    UploadSendable(c.server, file, chunk, fs, c.times);
    UploadFits(c.server, file, chunk, fs);
    var k, n := Tcp.SendToRecv(c.client, c.server, Stamped(fs, c.times), c.writing, c.through, c.reading,
                               SERVER_FRAME_BUF_SIZE, |c.disks|);
    AllAnswered(fs, SendFile(c.client, file, chunk, script).replies, n);
    var rs := Tcp.RecvAll(c.server, Tcp.Stream(c.through, c.reading), SERVER_FRAME_BUF_SIZE, |c.disks|);
    FeedTcp(OnDisk(rs, c.disks), fs, k);
    CompleteIsDone(c.server, true, chunk, fs, SERVER_START, OnDisk(rs, c.disks));
  }

  /** For every file, chunk size and pair of machines there is such a run: the assumptions above can be met together,
      and the file arrives. */
  lemma {:induction false} SomeTransfer(file: bytes, chunk: nat, client: Host, server: Host)
    returns (script: Script, c: Connection)
    requires 1 <= chunk <= MAX_CHUNK
    ensures c.client == client && c.server == server && OverTcp(c, SendFile(client, file, chunk, script))
    ensures ServedTcp(c).done && ServedTcp(c).out == file
  {
    hide SendFile, Tcp.SendAll, ServedTcp, Smooth, FullPasses, EndFrame, Payloads, Upload, Tcp.Wire, Tcp.Frame;
    script := Script(FullPasses(file, chunk, 0), true, 0, MSG_HEADER_SIZE);
    FullPassesSmooth(client, file, chunk, SENDER_START);
    SmoothUpload(client, server, file, chunk, script);
    var s := SendFile(client, file, chunk, script);
    var times: seq<u64> := seq(|s.handed|, _ => 0);
    var ms := Stamped(s.handed, times);
    var n, _ := Tcp.SentFrames(client, Tcp.Stream([], []), ms);
    var sent := Tcp.SendAll(client, Tcp.Stream([], []), ms);
    assert n == |ms|;
    assert s.replies == sent.codes;
    c := Connection(client, server, times, [], sent.rest.data, [], seq(|times| + 1, _ => SERVER_FRAME_BUF_SIZE));
    FileOverTcpCompletes(file, chunk, script, c);
  }

  lemma {:induction false} AllAnswered(fs: seq<bytes>, replies: seq<int>, n: nat)
    requires Answered(fs, replies, |fs|) && n <= |fs| && (n < |fs| ==> replies[n] == ERR_IO)
    ensures n == |fs|
  {
  }

  // ----- over KCP

  lemma {:induction false} PositiveCons(xs: seq<Arrival>)
    requires xs != []
    ensures Positive(xs) == (if xs[0].code > 0 then [xs[0].data] else []) + Positive(xs[1..])
  {
    var n := |xs| - 1;
    if n == 0 {
      assert xs[..0] == [] && xs[1..] == [];
    } else {
      PositiveCons(xs[..n]);
      assert xs[..n][1..] == xs[1..][..n - 1] && xs[..n] + [xs[n]] == xs && xs[1..][..n - 1] + [xs[n]] == xs[1..];
      PositiveSnoc(xs[..n], xs[n]);
      PositiveSnoc(xs[1..][..n - 1], xs[n]);
      hide Positive;
    }
  }

  lemma {:induction false} FeedKcp(xs: seq<Arrival>, disks: seq<nat>, fs: seq<bytes>)
    requires |xs| == |disks| && Positive(xs) <= fs && forall i :: 0 <= i < |xs| ==> xs[i].code >= 0
    ensures Feed(false, OnDisk(xs, disks), fs)
    decreases |xs|
  {
    hide Positive;
    if xs != [] {
      PositiveCons(xs);
      assert OnDisk(xs, disks)[1..] == OnDisk(xs[1..], disks[1..]);
      if xs[0].code > 0 {
        assert fs[0] == xs[0].data && Positive(xs[1..]) <= fs[1..];
        FeedKcp(xs[1..], disks[1..], fs[1..]);
      } else {
        FeedKcp(xs[1..], disks[1..], fs);
      }
    }
  }

  lemma {:induction false} CompleteKcp(xs: seq<Arrival>, disks: seq<nat>, fs: seq<bytes>)
    requires |xs| == |disks| && Positive(xs) == fs && forall i :: 0 <= i < |xs| ==> xs[i].code >= 0
    requires forall i :: 0 <= i < |fs| ==> |fs[i]| <= SERVER_FRAME_BUF_SIZE
    requires forall i :: 0 <= i < |disks| ==> disks[i] >= SERVER_FRAME_BUF_SIZE
    ensures Complete(false, OnDisk(xs, disks), fs)
    decreases |xs|
  {
    if xs != [] {
      hide Positive;
      PositiveCons(xs);
      assert OnDisk(xs, disks)[1..] == OnDisk(xs[1..], disks[1..]);
      CompleteKcp(xs[1..], disks[1..], if xs[0].code > 0 then fs[1..] else fs);
    }
  }

  lemma {:induction false} AcceptedPrefix(fs: seq<bytes>, replies: seq<int>)
    requires |fs| == |replies| && Answered(fs, replies, |fs| - 1)
    ensures AcceptedOf(fs, replies) <= fs
    ensures Answered(fs, replies, |fs|) ==> AcceptedOf(fs, replies) == fs
  {
    if fs != [] {
      var n := |fs| - 1;
      assert Answered(fs[..n], replies[..n], n);
      AcceptedPrefix(fs[..n], replies[..n]);
      AcceptedSnoc(fs[..n], replies[..n], fs[n], replies[n]);
      hide AcceptedOf;
      assert fs[..n] + [fs[n]] == fs && replies[..n] + [replies[n]] == replies;
      assert fs[..n] + [] == fs[..n];
    }
  }

  lemma {:induction false} VisibleAll(ms: seq<bytes>)
    requires forall i :: 0 <= i < |ms| ==> ms[i] != []
    ensures Visible(ms) == ms
  {
    if ms != [] {
      VisibleAll(ms[..|ms| - 1]);
      assert ms[..|ms| - 1] + [ms[|ms| - 1]] == ms;
    }
  }

  lemma {:induction false} ArrivalsNotNegative(ca: Cfg, cb: Cfg, calls: seq<Caller>)
    requires ValidPair(ca, cb)
    ensures forall i :: 0 <= i < |Play(ca, cb, calls).arrivals| ==> Play(ca, cb, calls).arrivals[i].code >= 0
  {
    if calls != [] {
      hide After;
      ArrivalsNotNegative(ca, cb, calls[..|calls| - 1]);
    }
  }

  /** The client has come some way through a run of its program, and kcp_send gave it its answers. */
  predicate OverKcp(w: World, s: Sender) {
    w.handed <= s.handed && w.replies <= s.replies && |w.handed| == |w.replies|
  }

  /** Two endpoints in message mode whose deliveries are fresh. */
  ghost predicate Transport(ca: Cfg, cb: Cfg, calls: seq<Caller>) {
    && ValidPair(ca, cb) && !ca.stream
    && Refinement.FreshRun(ca, cb, Play(ca, cb, calls).moves)
  }

  /** What the client handed over and kcp_send accepted is an upload, and the server got a prefix of it. */
  lemma {:induction false} KcpUpload(ca: Cfg, cb: Cfg, calls: seq<Caller>, h: Host, h': Host, file: bytes, chunk: nat,
                                     script: Script)
    requires 1 <= chunk <= MAX_CHUNK && Transport(ca, cb, calls)
    requires OverKcp(Play(ca, cb, calls), SendFile(h, file, chunk, script))
    ensures var w := Play(ca, cb, calls);
      && w.s == Run(Wrap, ca, cb, w.moves) && w.s.a.kcb.cfg == ca
      && w.s.a.accepted <= w.handed && Upload(h', file, chunk, w.s.a.accepted)
      && (Answered(w.handed, w.replies, |w.handed|) ==> w.s.a.accepted == w.handed)
      && Positive(w.arrivals) == w.s.b.got <= w.s.a.accepted
  {
    hide Play, Upload, SendFile, AcceptedOf, Visible, Positive, Run;
    var w, s := Play(ca, cb, calls), SendFile(h, file, chunk, script);
    PlayBooks(ca, cb, calls);
    SendFileUploads(h, h', file, chunk, script);
    assert forall i :: 0 <= i < |w.handed| ==> w.handed[i] == s.handed[i] && w.replies[i] == s.replies[i];
    AcceptedPrefix(w.handed, w.replies);
    var accepted := w.s.a.accepted;
    assert accepted == s.handed[..|accepted|];
    UploadPrefix(h', file, chunk, s.handed, |accepted|);
    DeliveredInOrder(ca, cb, w.moves);
    UploadFits(h', file, chunk, accepted);
    VisibleAll(w.s.b.got);
  }

  /** For every file and chunk size, over a network that loses, duplicates and reorders datagrams but delivers none that
      is half the number space old, and for any calls of kcp_send and kcp_recv on both sides at any times: what the
      server has written is a prefix of the file, and the whole file once transfer_done is set. */
  lemma {:induction false} FileOverKcp(ca: Cfg, cb: Cfg, calls: seq<Caller>, h: Host, h': Host, file: bytes, chunk: nat,
                                       script: Script, disks: seq<nat>)
    requires 1 <= chunk <= MAX_CHUNK && Transport(ca, cb, calls)
    requires OverKcp(Play(ca, cb, calls), SendFile(h, file, chunk, script))
    requires |disks| == |Play(ca, cb, calls).arrivals|
    ensures var s := Serve(h', false, SERVER_START, OnDisk(Play(ca, cb, calls).arrivals, disks));
      s.out <= file && s.written <= |s.out| && (s.done ==> s.out == file && s.written == |file|)
  {
    hide Play, Upload, SendFile, Positive, Feed, Run;
    KcpUpload(ca, cb, calls, h, h', file, chunk, script);
    ArrivalsNotNegative(ca, cb, calls);
    var w := Play(ca, cb, calls);
    FeedKcp(w.arrivals, disks, w.s.a.accepted);
    ServedIsPrefix(h', false, file, chunk, w.s.a.accepted, OnDisk(w.arrivals, disks));
  }

  /** The server's buffer of 65552 bytes is room enough: draining with it always leaves a window to advertise. */
  lemma {:induction false} ServerWindowOpens(ca: Cfg, cb: Cfg, calls: seq<Caller>, h: Host, file: bytes, chunk: nat,
                                             script: Script)
    requires 1 <= chunk <= MAX_CHUNK && Transport(ca, cb, calls)
    requires OverKcp(Play(ca, cb, calls), SendFile(h, file, chunk, script))
    ensures var p := Drain(Wrap, Play(ca, cb, calls).s.b, SERVER_FRAME_BUF_SIZE);
      Receive.Unused(p.kcb.cfg.rcvWnd, p.kcb.rcv) > 0
  {
    hide Play, Upload, SendFile, Positive, Run, Drain;
    KcpUpload(ca, cb, calls, h, h, file, chunk, script);
    var w := Play(ca, cb, calls);
    UploadFits(h, file, chunk, w.s.a.accepted);
    WindowOpens(ca, cb, w.moves, SERVER_FRAME_BUF_SIZE);
  }

  /** Runs in which neither side numbers more than 2^31 - 131070 fragments need no assumption on the network. */
  lemma {:induction false} ShortTransport(ca: Cfg, cb: Cfg, calls: seq<Caller>)
    requires ValidPair(ca, cb) && !ca.stream && Short(Play(ca, cb, calls).s)
    ensures Transport(ca, cb, calls)
  {
    hide Run, Play;
    PlayBooks(ca, cb, calls);
    ShortIsFresh(ca, cb, Play(ca, cb, calls).moves);
  }

  /** The same with no assumption on the network at all, up to 2^31 - 131070 fragments a side. */
  lemma {:induction false} FileOverKcpShort(ca: Cfg, cb: Cfg, calls: seq<Caller>, h: Host, h': Host, file: bytes,
                                            chunk: nat, script: Script, disks: seq<nat>)
    requires 1 <= chunk <= MAX_CHUNK && ValidPair(ca, cb) && !ca.stream && Short(Play(ca, cb, calls).s)
    requires OverKcp(Play(ca, cb, calls), SendFile(h, file, chunk, script))
    requires |disks| == |Play(ca, cb, calls).arrivals|
    ensures var s := Serve(h', false, SERVER_START, OnDisk(Play(ca, cb, calls).arrivals, disks));
      s.out <= file && s.written <= |s.out| && (s.done ==> s.out == file && s.written == |file|)
  {
    hide Play, SendFile;
    ShortTransport(ca, cb, calls);
    FileOverKcp(ca, cb, calls, h, h', file, chunk, script, disks);
  }

  /** If nothing stops the client, then as soon as its ikcp_waitsnd is zero and ikcp_recv of the server has nothing more
      to give, the transfer is done. */
  lemma {:induction false} FileOverKcpCompletes(ca: Cfg, cb: Cfg, calls: seq<Caller>, h: Host, h': Host, file: bytes,
                                                chunk: nat, script: Script, disks: seq<nat>)
    requires 1 <= chunk <= MAX_CHUNK && Transport(ca, cb, calls)
    requires var w, s := Play(ca, cb, calls), SendFile(h, file, chunk, script);
      && w.handed == s.handed && w.replies == s.replies && |disks| == |w.arrivals|
      && Endpoint.WaitSnd(w.s.a.kcb) == 0
      && Receive.Recv(Wrap, w.s.b.kcb.cfg.rcvWnd, w.s.b.kcb.rcv, SERVER_FRAME_BUF_SIZE).code < 0
    requires Smooth(h, file, chunk, SENDER_START, script.passes) && script.alive && script.reply == MSG_HEADER_SIZE
    requires forall i :: 0 <= i < |disks| ==> disks[i] >= SERVER_FRAME_BUF_SIZE
    ensures var s := Serve(h', false, SERVER_START, OnDisk(Play(ca, cb, calls).arrivals, disks));
      s.done && s.out == file
  {
    hide Play, SendFile, Positive, Feed, Run, Serve, Smooth, Payloads, EndFrame, ChunkFrame, Receive.Recv;
    var w := Play(ca, cb, calls);
    SendFileUploads(h, h', file, chunk, script);
    SmoothUpload(h, h', file, chunk, script);
    KcpUpload(ca, cb, calls, h, h', file, chunk, script);
    var fs := w.s.a.accepted;
    UploadFits(h', file, chunk, fs);
    WaitSndZeroGot(ca, cb, w.moves, SERVER_FRAME_BUF_SIZE);
    ArrivalsNotNegative(ca, cb, calls);
    CompleteKcp(w.arrivals, disks, fs);
    CompleteIsDone(h', false, chunk, fs, SERVER_START, OnDisk(w.arrivals, disks));
    FileOverKcp(ca, cb, calls, h, h', file, chunk, script, disks);
  }

  /** With the configuration of kcp_init a frame of the client is cut into fewer than 128 fragments, so kcp_send never
      turns it down, whatever is queued. */
  lemma {:induction false} FramesAccepted(k: Kcb, f: bytes)
    requires k.cfg == KcpImplCfg(k.cfg.conv) && |f| <= SERVER_FRAME_BUF_SIZE
    ensures SendAnswer(k, f) == |f| && |Endpoint.Send(k, f).0.snd.queue| <= |k.snd.queue| + 48
  {
    Messages.CutOk(k.cfg.mss, f[0..], Messages.FragCount(k.cfg.mss, |f|), false);
  }
}
