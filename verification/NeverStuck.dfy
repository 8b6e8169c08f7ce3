/** The program is never stuck: whatever happened so far, further calls of kcp_recv on both sides bring every accepted
    message across, and further calls of the client complete its file. */
module NeverStuck {
  import opened Serial
  import opened Types
  import opened Headers
  import opened Receive
  import opened Endpoint
  import opened System
  import opened Safety
  import opened Image
  import opened Refinement
  import opened Liveness
  import opened Delivery
  import opened KcpCalls
  import opened Polls
  import opened Transfer
  import opened EndToEnd
  import Messages

  // ----- polls as events

  function PollMoves(len: nat, ps: seq<Poll>): seq<Move>
    decreases |ps|
  {
    if ps == [] then []
    else Moves(ps[0].first, LoopEvents(ps[0].now, ps[0].take) + [EvRecv(len)]) + PollMoves(len, ps[1..])
  }

  lemma {:induction false} FirstMoves(s: Sys, len: nat, now: u32, take: Take)
    requires Runnable(s)
    ensures After(Exact, s, Moves(true, LoopEvents(now, take) + [EvRecv(len)])) == PollFirst(s, len, now, take)
  {
    hide Act, After;
    assert U32(now) == now;
    var u, r := ByA(EvUpdate(now)), ByA(EvRecv(len));
    OneMove(Exact, s, u);
    var s1 := After(Exact, s, [u]);
    if take.Nth? {
      var d := ByA(EvDeliver(take.n));
      assert Moves(true, LoopEvents(now, take) + [EvRecv(len)]) == [u] + [d] + [r];
      OneMove(Exact, s1, d);
      AfterConcat(Exact, s, [u], [d]);
      AfterConcat(Exact, s, [u] + [d], [r]);
      OneMove(Exact, After(Exact, s1, [d]), r);
    } else {
      assert Moves(true, LoopEvents(now, take) + [EvRecv(len)]) == [u] + [r];
      AfterConcat(Exact, s, [u], [r]);
      OneMove(Exact, s1, r);
    }
  }

  lemma {:induction false} PollAllMoves(s: Sys, len: nat, ps: seq<Poll>)
    requires Runnable(s)
    ensures After(Exact, s, PollMoves(len, ps)) == PollAll(s, len, ps)
    decreases |ps|
  {
    hide After, PollFirst, LoopEvents;
    if ps == [] {
      NoMove(Exact, s);
    } else {
      var p := ps[0];
      var es := LoopEvents(p.now, p.take) + [EvRecv(len)];
      if p.first {
        FirstMoves(s, len, p.now, p.take);
      } else {
        FirstMoves(Swap(s), len, p.now, p.take);
        AfterMirror(Exact, Swap(s), Moves(true, es));
        assert Mirror(Moves(true, es)) == Moves(false, es);
      }
      AfterConcat(Exact, s, Moves(p.first, es), PollMoves(len, ps[1..]));
      PollAllMoves(PollStep(s, len, p), len, ps[1..]);
    }
  }

  lemma {:induction false} NoMove(m: Arith, s: Sys)
    requires Runnable(s)
    ensures After(m, s, []) == s
  {
  }

  // ----- the program

  /** Neither side has made more fragments than a short run may number. */
  predicate FewMade(s: Sys) {
    Made(s.a) <= SHORT && Made(s.b) <= SHORT
  }

  /** From every state of the program in which neither side has made more than 2^31 - 131070 fragments, whatever the
      network did so far, some calls of kcp_recv on both sides bring everything across: nothing waits at the sender, the
      receiver has got all that was accepted, and it has nothing more to give. */
  lemma {:induction false} NeverStuck(ca: Cfg, cb: Cfg, moves: seq<Move>, len: nat) returns (ps: seq<Poll>)
    requires ValidPair(ca, cb) && FewMade(Run(Wrap, ca, cb, moves)) && RoomFor(Run(Wrap, ca, cb, moves).a, len)
    ensures var s, s' := Run(Wrap, ca, cb, moves), Run(Wrap, ca, cb, moves + PollMoves(len, ps));
      && WaitSnd(s'.a.kcb) == 0 && AllGot(s'.a, s'.b) && s'.a.accepted == s.a.accepted
      && Recv(Wrap, s'.b.kcb.cfg.rcvWnd, s'.b.kcb.rcv, len).code < 0 && Short(s')
  {
    hide Inv, Run, PollAll, RoomFor, After, Recv, PeerOk, Link;
    ShortIsFresh(ca, cb, moves);
    RunInv(ca, cb, moves);
    RunImage(ca, cb, moves);
    var e := Run(Exact, ca, cb, moves);
    ImageRoom(e.a, len);
    ps := GetsAcross(e, len);
    var e' := PollAll(e, len, ps);
    PollAllForward(e, len, ps);
    var more := PollMoves(len, ps);
    PollAllMoves(e, len, ps);
    RunConcat(Exact, ca, cb, moves, more);
    ShortExact(ca, cb, moves + more);
    RunImage(ca, cb, moves + more);
    GotAll(e', len);
  }

  /** From every such state with something waiting, some calls of kcp_recv on both sides get more of it acknowledged. */
  lemma {:induction false} NextAck(ca: Cfg, cb: Cfg, moves: seq<Move>, len: nat) returns (ps: seq<Poll>)
    requires ValidPair(ca, cb) && FewMade(Run(Wrap, ca, cb, moves)) && RoomFor(Run(Wrap, ca, cb, moves).a, len)
    requires WaitSnd(Run(Wrap, ca, cb, moves).a.kcb) > 0
    ensures Run(Wrap, ca, cb, moves + PollMoves(len, ps)).a.kcb.snd.una > Run(Wrap, ca, cb, moves).a.kcb.snd.una
  {
    hide Inv, Run, PollAll, RoomFor, After, Link;
    ShortIsFresh(ca, cb, moves);
    RunInv(ca, cb, moves);
    RunImage(ca, cb, moves);
    var e := Run(Exact, ca, cb, moves);
    ImageRoom(e.a, len);
    LeftMeans(e);
    ps := Advance(e, len);
    var e' := PollAll(e, len, ps);
    PollAllForward(e, len, ps);
    var more := PollMoves(len, ps);
    PollAllMoves(e, len, ps);
    RunConcat(Exact, ca, cb, moves, more);
    ShortExact(ca, cb, moves + more);
    RunImage(ca, cb, moves + more);
    LeftMeans(e');
  }

  lemma {:induction false} ImageRoom(p: Peer, len: nat)
    ensures RoomFor(ImgPeer(p), len) <==> RoomFor(p, len)
  {
  }

  lemma {:induction false} GotAll(e: Sys, len: nat)
    requires Inv(e) && WaitSnd(e.a.kcb) == 0 && Stuck(e.b)
    ensures var s := ImgSys(e);
      && WaitSnd(s.a.kcb) == 0 && AllGot(s.a, s.b) && Recv(Wrap, s.b.kcb.cfg.rcvWnd, s.b.kcb.rcv, len).code < 0
  {
    hide Link;
    NothingWaitingGot(e.a, e.b);
    RecvImage(e.b.kcb.cfg.rcvWnd, e.b.kcb.rcv, len);
  }

  // ----- polls as calls of kcp_recv

  function PollCall(len: nat, p: Poll): Caller {
    if p.first then ByClient(RecvCall(len, p.now, p.take)) else ByServer(RecvCall(len, p.now, p.take))
  }

  function PollCalls(len: nat, ps: seq<Poll>): (r: seq<Caller>)
    ensures |r| == |ps| && forall i :: 0 <= i < |ps| ==> r[i] == PollCall(len, ps[i])
  {
    seq(|ps|, i requires 0 <= i < |ps| => PollCall(len, ps[i]))
  }

  lemma {:induction false} PollCallMoves(w: World, len: nat, p: Poll)
    requires Runnable(w.s)
    ensures var w' := CallStep(w, PollCall(len, p));
      var ms := Moves(p.first, LoopEvents(p.now, p.take) + [EvRecv(len)]);
      && w'.s == After(Wrap, w.s, ms) && w'.moves == w.moves + ms && w'.handed == w.handed && w'.replies == w.replies
  {
    hide After, LoopEvents, Runnable;
    var a, b := Moves(p.first, LoopEvents(p.now, p.take)), Moves(p.first, [EvRecv(len)]);
    MovesConcat(p.first, LoopEvents(p.now, p.take), [EvRecv(len)]);
    if !p.first {
      assert b == [ByB(EvRecv(len))];
      ApplyTwice(w, a, b);
    }
  }

  lemma {:induction false} PlayPolls(w: World, len: nat, ps: seq<Poll>)
    requires Runnable(w.s)
    ensures var w' := PlayOn(w, PollCalls(len, ps));
      && w'.s == After(Wrap, w.s, PollMoves(len, ps)) && w'.moves == w.moves + PollMoves(len, ps)
      && w'.handed == w.handed && w'.replies == w.replies
    decreases |ps|
  {
    hide After, CallStep, PollCall, LoopEvents, Moves;
    if ps == [] {
      NoMove(Wrap, w.s);
      assert w.moves + [] == w.moves;
    } else {
      var ms := Moves(ps[0].first, LoopEvents(ps[0].now, ps[0].take) + [EvRecv(len)]);
      PollCallMoves(w, len, ps[0]);
      assert PollCalls(len, ps)[1..] == PollCalls(len, ps[1..]);
      PlayPolls(CallStep(w, PollCall(len, ps[0])), len, ps[1..]);
      AfterConcat(Wrap, w.s, ms, PollMoves(len, ps[1..]));
      assert (w.moves + ms) + PollMoves(len, ps[1..]) == w.moves + (ms + PollMoves(len, ps[1..]));
    }
  }

  // ----- the client goes on

  /** kcp_send of the frames from number i on. */
  function SendCalls(fs: seq<bytes>, i: nat): seq<Caller>
    requires i <= |fs|
    decreases |fs| - i
  {
    if i == |fs| then [] else [ByClient(SendCall(fs[i], 0, NoDatagram))] + SendCalls(fs, i + 1)
  }

  /** The fragments of the largest frame for a chunk size. */
  function PerFrame(chunk: nat): nat {
    Messages.FragCount(1376, MSG_HEADER_SIZE + chunk)
  }

  lemma {:induction false} SendMade(p: Peer, f: bytes, chunk: nat)
    requires p.kcb.cfg.mss == 1376 && !p.kcb.cfg.stream && |f| <= MSG_HEADER_SIZE + chunk && chunk <= MAX_CHUNK
    ensures Made(PeerSend(p, f)) <= Made(p) + PerFrame(chunk) && Endpoint.Send(p.kcb, f).1 == |f|
  {
    var rest := f[0..];
    Messages.CutOk(1376, rest, Messages.FragCount(1376, |rest|), false);
  }

  lemma {:induction false} SendCallOk(w: World, conv: u32, f: bytes, chunk: nat)
    requires Runnable(w.s) && w.s.a.kcb.cfg == KcpImplCfg(conv)
    requires |f| <= MSG_HEADER_SIZE + chunk && chunk <= MAX_CHUNK
    ensures var w' := CallStep(w, ByClient(SendCall(f, 0, NoDatagram)));
      && w'.handed == w.handed + [f] && w'.replies == w.replies + [|f|] && w'.s.b == w.s.b
      && w'.s.a.kcb.cfg == w.s.a.kcb.cfg && Made(w'.s.a) <= Made(w.s.a) + PerFrame(chunk)
  {
    hide PeerSend, PeerUpdate, After, Endpoint.Send, Made, PerFrame;
    SendMade(w.s.a, f, chunk);
    assert U32(0) == 0;
    var u, v := ByA(EvSend(f)), ByA(EvUpdate(0));
    assert CallEvents(w.s.a.kcb, SendCall(f, 0, NoDatagram)) == [EvSend(f), EvUpdate(0)];
    assert Moves(true, [EvSend(f), EvUpdate(0)]) == [u] + [v];
    AfterConcat(Wrap, w.s, [u], [v]);
    OneMove(Wrap, w.s, u);
    var s1 := Step(Wrap, w.s, u);
    OneMove(Wrap, s1, v);
    UpdateMade(Wrap, s1.a, 0);
    StepCfg(w.s, u);
    StepCfg(s1, v);
  }

  lemma {:induction false} StepCfg(s: Sys, v: Move)
    requires Runnable(s) && v.ByA?
    ensures Step(Wrap, s, v).a.kcb.cfg == s.a.kcb.cfg
  {
    hide Act;
    EventBooks(Wrap, s, v.ev);
  }

  lemma {:induction false} SendsRest(w: World, conv: u32, fs: seq<bytes>, replies: seq<int>, i: nat, chunk: nat)
    requires Runnable(w.s) && w.s.a.kcb.cfg == KcpImplCfg(conv) && i <= |fs| == |replies| && chunk <= MAX_CHUNK
    requires forall j :: 0 <= j < |fs| ==> |fs[j]| <= MSG_HEADER_SIZE + chunk && replies[j] == |fs[j]|
    requires w.handed == fs[..i] && w.replies == replies[..i]
    ensures var w' := PlayOn(w, SendCalls(fs, i));
      && w'.handed == fs && w'.replies == replies && w'.s.b == w.s.b
      && Made(w'.s.a) <= Made(w.s.a) + (|fs| - i) * PerFrame(chunk)
    decreases |fs| - i
  {
    if i == |fs| {
      assert fs[..i] == fs && replies[..i] == replies;
    } else {
      hide CallStep, Made, KcpImplCfg, PerFrame;
      var c := ByClient(SendCall(fs[i], 0, NoDatagram));
      SendCallOk(w, conv, fs[i], chunk);
      assert fs[..i + 1] == fs[..i] + [fs[i]] && replies[..i + 1] == replies[..i] + [replies[i]];
      SendsRest(CallStep(w, c), conv, fs, replies, i + 1, chunk);
      assert (|fs| - i) * PerFrame(chunk) == (|fs| - i - 1) * PerFrame(chunk) + PerFrame(chunk);
      assert SendCalls(fs, i)[1..] == SendCalls(fs, i + 1);
    }
  }

  /** What the client will have handed over fits a short run. */
  predicate RoomToFinish(w: World, frames: int, chunk: nat) {
    Made(w.s.a) + frames * PerFrame(chunk) <= SHORT && Made(w.s.b) <= SHORT
  }

  /** A client that nothing stops, with its frames. */
  lemma {:induction false} ClientFrames(h: Host, h': Host, file: bytes, chunk: nat, script: Script)
    requires 1 <= chunk <= MAX_CHUNK
    requires Smooth(h, file, chunk, SENDER_START, script.passes) && script.alive && script.reply == MSG_HEADER_SIZE
    ensures var s := SendFile(h, file, chunk, script);
      && |s.handed| == |s.replies| && Upload(h', file, chunk, s.handed)
      && forall j :: 0 <= j < |s.handed| ==>
           0 < |s.handed[j]| <= MSG_HEADER_SIZE + chunk && s.replies[j] == |s.handed[j]|
  {
    hide SendFile, Smooth, Upload, EndFrame, Payloads;
    SmoothUpload(h, h', file, chunk, script);
    SendFileUploads(h, h', file, chunk, script);
    UploadFits(h', file, chunk, SendFile(h, file, chunk, script).handed);
  }

  lemma {:induction false} FramesRoom(ca: Cfg, cb: Cfg, calls: seq<Caller>, fs: seq<bytes>)
    requires ValidPair(ca, cb) && !ca.stream
    requires var w := Play(ca, cb, calls);
      w.handed == fs && |w.replies| == |fs| && forall j :: 0 <= j < |fs| ==>
        |fs[j]| <= SERVER_FRAME_BUF_SIZE && w.replies[j] == |fs[j]|
    ensures var w := Play(ca, cb, calls);
      RoomFor(w.s.a, SERVER_FRAME_BUF_SIZE) && w.s == Run(Wrap, ca, cb, w.moves) && w.s.a.accepted == fs
  {
    hide Play, Run;
    PlayBooks(ca, cb, calls);
    AcceptedPrefix(Play(ca, cb, calls).handed, Play(ca, cb, calls).replies);
  }

  /** The client hands over the rest. */
  lemma {:induction false} HandsOver(ca: Cfg, conv: u32, cb: Cfg, calls: seq<Caller>, fs: seq<bytes>, replies: seq<int>,
                                      chunk: nat)
    requires ValidPair(ca, cb) && ca == KcpImplCfg(conv) && !ca.stream && |fs| == |replies| && chunk <= MAX_CHUNK
    requires forall j :: 0 <= j < |fs| ==> 0 < |fs[j]| <= MSG_HEADER_SIZE + chunk && replies[j] == |fs[j]|
    requires var w := Play(ca, cb, calls);
      |w.handed| <= |fs| && w.handed == fs[..|w.handed|] && w.replies == replies[..|w.handed|]
      && RoomToFinish(w, |fs| - |w.handed|, chunk)
    ensures var w := Play(ca, cb, calls + SendCalls(fs, |Play(ca, cb, calls).handed|));
      w.handed == fs && w.replies == replies && FewMade(w.s)
  {
    hide Play, Run, Made, KcpImplCfg, CallStep, PlayOn, CfgOk, PerFrame;
    PlayBooks(ca, cb, calls);
    var w := Play(ca, cb, calls);
    SendsRest(w, conv, fs, replies, |w.handed|, chunk);
    PlayConcat(ca, cb, calls, SendCalls(fs, |w.handed|));
  }

  /** Polls get it across. */
  lemma {:induction false} PollsGetAcross(ca: Cfg, cb: Cfg, calls: seq<Caller>, fs: seq<bytes>)
    returns (more: seq<Caller>)
    requires ValidPair(ca, cb) && !ca.stream
    requires var w := Play(ca, cb, calls);
      && w.handed == fs && |w.replies| == |fs| && FewMade(w.s)
      && forall j :: 0 <= j < |fs| ==> |fs[j]| <= SERVER_FRAME_BUF_SIZE && w.replies[j] == |fs[j]|
    ensures var w, w' := Play(ca, cb, calls), Play(ca, cb, calls + more);
      && w'.handed == w.handed && w'.replies == w.replies && WaitSnd(w'.s.a.kcb) == 0 && Short(w'.s)
      && Recv(Wrap, w'.s.b.kcb.cfg.rcvWnd, w'.s.b.kcb.rcv, SERVER_FRAME_BUF_SIZE).code < 0
  {
    hide Play, Run, RoomFor, Recv, PollMoves, Short, FewMade, PlayOn, CfgOk, PollCall;
    FramesRoom(ca, cb, calls, fs);
    var w := Play(ca, cb, calls);
    var ps := NeverStuck(ca, cb, w.moves, SERVER_FRAME_BUF_SIZE);
    PlayPolls(w, SERVER_FRAME_BUF_SIZE, ps);
    more := PollCalls(SERVER_FRAME_BUF_SIZE, ps);
    PlayConcat(ca, cb, calls, more);
    RunConcat(Wrap, ca, cb, w.moves, PollMoves(SERVER_FRAME_BUF_SIZE, ps));
  }

  /** With room on the disk the server's file is done and is the client's. */
  ghost predicate FileArrives(ca: Cfg, cb: Cfg, calls: seq<Caller>, h': Host, disks: seq<nat>, file: bytes) {
    && Transport(ca, cb, calls) && |disks| == |Play(ca, cb, calls).arrivals|
    && var r := Serve(h', false, SERVER_START, OnDisk(Play(ca, cb, calls).arrivals, disks)); r.done && r.out == file
  }

  lemma {:induction false} ArrivesNow(ca: Cfg, cb: Cfg, calls: seq<Caller>, h: Host, h': Host, file: bytes, chunk: nat,
                                      script: Script)
    returns (disks: seq<nat>)
    requires 1 <= chunk <= MAX_CHUNK && ValidPair(ca, cb) && !ca.stream
    requires Smooth(h, file, chunk, SENDER_START, script.passes) && script.alive && script.reply == MSG_HEADER_SIZE
    requires var w, s := Play(ca, cb, calls), SendFile(h, file, chunk, script);
      && w.handed == s.handed && w.replies == s.replies && WaitSnd(w.s.a.kcb) == 0 && Short(w.s)
      && Recv(Wrap, w.s.b.kcb.cfg.rcvWnd, w.s.b.kcb.rcv, SERVER_FRAME_BUF_SIZE).code < 0
    ensures FileArrives(ca, cb, calls, h', disks, file)
  {
    hide Play, SendFile, Smooth, Recv, Serve, Short, CfgOk;
    ShortTransport(ca, cb, calls);
    disks := seq(|Play(ca, cb, calls).arrivals|, _ => SERVER_FRAME_BUF_SIZE);
    FileOverKcpCompletes(ca, cb, calls, h, h', file, chunk, script, disks);
  }

  /** Whatever the two programs have called and the network has done so far, the transfer can still complete: if nothing
      stops the client, some further calls hand over the rest of its frames and get the whole file to the server. */
  lemma {:induction false} TransferNeverStuck(ca: Cfg, conv: u32, cb: Cfg, calls: seq<Caller>, h: Host, h': Host,
                                              file: bytes, chunk: nat, script: Script)
    returns (more: seq<Caller>, disks: seq<nat>)
    requires 1 <= chunk <= MAX_CHUNK && ca == KcpImplCfg(conv) && ValidPair(ca, cb) && !ca.stream
    requires Smooth(h, file, chunk, SENDER_START, script.passes) && script.alive && script.reply == MSG_HEADER_SIZE
    requires var w, s := Play(ca, cb, calls), SendFile(h, file, chunk, script);
      OverKcp(w, s) && RoomToFinish(w, |s.handed| - |w.handed|, chunk)
    ensures FileArrives(ca, cb, calls + more, h', disks, file)
    ensures var w, s := Play(ca, cb, calls + more), SendFile(h, file, chunk, script);
      OverKcp(w, s) && w.handed == s.handed
  {
    hide Play, SendFile, Smooth, Upload, Recv, Short, KcpImplCfg, FewMade, RoomToFinish, CfgOk, FileArrives;
    var w, s := Play(ca, cb, calls), SendFile(h, file, chunk, script);
    ClientFrames(h, h', file, chunk, script);
    assert w.handed == s.handed[..|w.handed|] && w.replies == s.replies[..|w.handed|];
    var sends := SendCalls(s.handed, |w.handed|);
    HandsOver(ca, conv, cb, calls, s.handed, s.replies, chunk);
    var polls := PollsGetAcross(ca, cb, calls + sends, s.handed);
    more := sends + polls;
    assert (calls + sends) + polls == calls + more;
    disks := ArrivesNow(ca, cb, calls + more, h, h', file, chunk, script);
  }

  // ----- a run for every file

  /** n reads of a chunk are enough for the rest of the file. */
  lemma {:induction false} FullCount(h: Host, file: bytes, chunk: nat, s: Sender, n: nat)
    requires s.pos <= |file| <= s.pos + n * chunk && chunk > 0 && s.running && !s.eof
    ensures |SendLoop(h, file, chunk, s, FullPasses(file, chunk, s.pos)).handed| <= |s.handed| + n
    decreases n
  {
    hide AppFrame;
    var passes := FullPasses(file, chunk, s.pos);
    var s' := SendTurn(h, file, chunk, s, passes[0]);
    if !s'.eof {
      assert n * chunk == (n - 1) * chunk + chunk;
      FullCount(h, file, chunk, s', n - 1);
      assert passes[1..] == FullPasses(file, chunk, s'.pos);
    }
  }

  lemma {:induction false} FullFile(h: Host, file: bytes, chunk: nat, n: nat)
    requires chunk > 0 && |file| <= n * chunk
    ensures |SendFile(h, file, chunk, Script(FullPasses(file, chunk, 0), true, 0, MSG_HEADER_SIZE)).handed| <= n + 1
  {
    hide SendLoop, FullPasses, AppFrame;
    FullCount(h, file, chunk, SENDER_START, n);
  }

  lemma {:induction false} ShippedPair(conv: u32)
    ensures var c := KcpImplCfg(conv); ValidPair(c, c) && !c.stream
  {
    ConfigCallsOk(DefaultCfg(conv), 0, 0, 0, 0);
  }

  lemma {:induction false} NothingYet(c: Cfg, s: Sender, chunk: nat)
    requires ValidPair(c, c) && |s.handed| * PerFrame(chunk) <= SHORT
    ensures var w := Play(c, c, []); OverKcp(w, s) && w.handed == [] && RoomToFinish(w, |s.handed|, chunk)
  {
    hide PerFrame;
  }

  /** For every file of at most n chunks, every chunk size the client accepts and every pair of machines there is a run
      over KCP in which the file arrives, as long as the fragments of n + 1 frames fit a short run. */
  lemma {:induction false} SomeKcpTransfer(conv: u32, file: bytes, chunk: nat, n: nat, h: Host, h': Host)
    returns (script: Script, calls: seq<Caller>, disks: seq<nat>)
    requires 1 <= chunk <= MAX_CHUNK && |file| <= n * chunk && (n + 1) * PerFrame(chunk) <= SHORT
    ensures FileArrives(KcpImplCfg(conv), KcpImplCfg(conv), calls, h', disks, file)
    ensures OverKcp(Play(KcpImplCfg(conv), KcpImplCfg(conv), calls), SendFile(h, file, chunk, script))
  {
    hide SendFile, Smooth, FullPasses, FileArrives, PerFrame;
    var c := KcpImplCfg(conv);
    script := Script(FullPasses(file, chunk, 0), true, 0, MSG_HEADER_SIZE);
    FullPassesSmooth(h, file, chunk, SENDER_START);
    FullFile(h, file, chunk, n);
    MulMono(|SendFile(h, file, chunk, script).handed|, n + 1, PerFrame(chunk));
    ShippedPair(conv);
    NothingYet(c, SendFile(h, file, chunk, script), chunk);
    calls, disks := TransferNeverStuck(c, conv, c, [], h, h', file, chunk, script);
    assert [] + calls == calls;
  }
}
