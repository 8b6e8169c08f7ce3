/** The 32-bit image of a state over unbounded sequence numbers: every sequence number is reduced modulo 2^32, all
    else stays.  Each operation on the image agrees with the image of the operation as long as the numbers it
    compares lie within half the number space of each other. */
module Image {
  import opened Serial
  import opened Types
  import opened Wire
  import opened Receive
  import opened Transmit
  import opened Timers
  import opened Endpoint
  import Congestion

  function ImgSeg(q: Seg): Seg {
    q.(sn := Img(q.sn), una := Img(q.una))
  }

  function ImgSegs(d: seq<Seg>): (r: seq<Seg>)
    ensures |r| == |d| && forall i :: 0 <= i < |d| ==> r[i] == ImgSeg(d[i])
  {
    seq(|d|, i requires 0 <= i < |d| => ImgSeg(d[i]))
  }

  function ImgOut(ds: seq<seq<Seg>>): (r: seq<seq<Seg>>)
    ensures |r| == |ds| && forall i :: 0 <= i < |ds| ==> r[i] == ImgSegs(ds[i])
  {
    seq(|ds|, i requires 0 <= i < |ds| => ImgSegs(ds[i]))
  }

  function ImgFlight(f: Flight): Flight {
    f.(sn := Img(f.sn))
  }

  function ImgBuf(buf: seq<Flight>): (r: seq<Flight>)
    ensures |r| == |buf| && forall i :: 0 <= i < |buf| ==> r[i] == ImgFlight(buf[i])
  {
    seq(|buf|, i requires 0 <= i < |buf| => ImgFlight(buf[i]))
  }

  function ImgPart(p: Part): Part {
    p.(sn := Img(p.sn))
  }

  function ImgParts(ps: seq<Part>): (r: seq<Part>)
    ensures |r| == |ps| && forall i :: 0 <= i < |ps| ==> r[i] == ImgPart(ps[i])
  {
    seq(|ps|, i requires 0 <= i < |ps| => ImgPart(ps[i]))
  }

  function ImgAck(a: AckItem): AckItem {
    a.(sn := Img(a.sn))
  }

  function ImgAcks(acks: seq<AckItem>): (r: seq<AckItem>)
    ensures |r| == |acks| && forall i :: 0 <= i < |acks| ==> r[i] == ImgAck(acks[i])
  {
    seq(|acks|, i requires 0 <= i < |acks| => ImgAck(acks[i]))
  }

  function ImgSnd(s: Snd): Snd {
    Snd(Img(s.una), Img(s.nxt), s.queue, ImgBuf(s.buf))
  }

  function ImgRcv(r: Rcv): Rcv {
    Rcv(Img(r.nxt), ImgParts(r.queue), ImgParts(r.buf), ImgAcks(r.acks))
  }

  function ImgKcb(k: Kcb): Kcb {
    k.(snd := ImgSnd(k.snd), rcv := ImgRcv(k.rcv))
  }

  function ImgBest(b: Best): Best {
    b.(maxack := Img(b.maxack))
  }

  function ImgInner(s: Inner): Inner {
    Inner(ImgKcb(s.kcb), ImgBest(s.best))
  }

  /** Two numbers whose images compare as they do. */
  predicate Near(a: nat, b: nat) {
    -HALF <= a - b < HALF
  }

  ghost predicate NearAll(sn: nat, buf: seq<Flight>) {
    forall i :: 0 <= i < |buf| ==> Near(sn, buf[i].sn)
  }

  lemma {:induction false} NearDiff(a: nat, b: nat)
    requires Near(a, b)
    ensures Diff(Wrap, Img(a), Img(b)) == a - b
    ensures Img(a) == Img(b) <==> a == b
  {
    ImageDiffExact(a, b);
    ImageEqual(a, b);
  }

  // ----- the sending window

  lemma {:induction false} ParseUnaImage(buf: seq<Flight>, una: nat)
    requires NearAll(una, buf)
    ensures ParseUna(Wrap, ImgBuf(buf), Img(una)) == ImgBuf(ParseUna(Exact, buf, una))
  {
    if buf != [] {
      NearDiff(una, buf[0].sn);
      ParseUnaImage(buf[1..], una);
      assert ImgBuf(buf)[1..] == ImgBuf(buf[1..]);
    }
  }

  lemma {:induction false} RemoveSnImage(buf: seq<Flight>, sn: nat)
    requires NearAll(sn, buf)
    ensures RemoveSn(Wrap, ImgBuf(buf), Img(sn)) == ImgBuf(RemoveSn(Exact, buf, sn))
  {
    if buf != [] {
      NearDiff(sn, buf[0].sn);
      RemoveSnImage(buf[1..], sn);
      assert ImgBuf(buf)[1..] == ImgBuf(buf[1..]);
    }
  }

  lemma {:induction false} SkipImage(buf: seq<Flight>, sn: nat, ts: u32)
    requires NearAll(sn, buf)
    ensures Skip(Wrap, ImgBuf(buf), Img(sn), ts) == ImgBuf(Skip(Exact, buf, sn, ts))
  {
    if buf != [] {
      NearDiff(sn, buf[0].sn);
      SkipImage(buf[1..], sn, ts);
      assert ImgBuf(buf)[1..] == ImgBuf(buf[1..]);
    }
  }

  lemma {:induction false} ShrinkImage(s: Snd)
    ensures Shrink(ImgSnd(s)) == ImgSnd(Shrink(s))
  {
  }

  lemma {:induction false} ParseAckImage(s: Snd, sn: nat)
    requires NearAll(sn, s.buf) && Near(sn, s.una) && Near(sn, s.nxt)
    ensures ParseAck(Wrap, ImgSnd(s), Img(sn)) == ImgSnd(ParseAck(Exact, s, sn))
  {
    NearDiff(sn, s.una);
    NearDiff(sn, s.nxt);
    RemoveSnImage(s.buf, sn);
  }

  lemma {:induction false} ParseFastackImage(s: Snd, sn: nat, ts: u32)
    requires NearAll(sn, s.buf) && Near(sn, s.una) && Near(sn, s.nxt)
    ensures ParseFastack(Wrap, ImgSnd(s), Img(sn), ts) == ImgSnd(ParseFastack(Exact, s, sn, ts))
  {
    NearDiff(sn, s.una);
    NearDiff(sn, s.nxt);
    SkipImage(s.buf, sn, ts);
  }

  lemma {:induction false} FillImage(s: Snd, cwnd: nat, current: u32, rto: u32)
    requires SndOk(Exact, s) && cwnd <= 65535
    ensures Fill(Wrap, ImgSnd(s), cwnd, current, rto) == ImgSnd(Fill(Exact, s, cwnd, current, rto))
    decreases |s.queue|
  {
    NearDiff(s.nxt, s.una + cwnd);
    ImageAdd(s.una, cwnd);
    if Diff(Exact, s.nxt, Add(Exact, s.una, cwnd)) < 0 && s.queue != [] {
      NumberedOk(Exact, s, cwnd, current, rto);
      FillImage(Numbered(Exact, s, current, rto), cwnd, current, rto);
      ImageAdd(s.nxt, 1);
      assert Numbered(Wrap, ImgSnd(s), current, rto).buf == ImgBuf(Numbered(Exact, s, current, rto).buf);
    }
  }

  // ----- the receiving window

  lemma {:induction false} InsertImage(buf: seq<Part>, p: Part)
    requires forall i :: 0 <= i < |buf| ==> Near(p.sn, buf[i].sn)
    ensures Insert(Wrap, ImgParts(buf), ImgPart(p)) == ImgParts(Insert(Exact, buf, p))
  {
    if buf != [] {
      var n := |buf| - 1;
      NearDiff(p.sn, buf[n].sn);
      InsertImage(buf[..n], p);
      assert ImgParts(buf)[..n] == ImgParts(buf[..n]);
    }
  }

  lemma {:induction false} MoveReadyImage(wnd: nat, r: Rcv)
    requires RcvBase(Exact, wnd, r)
    ensures MoveReady(Wrap, wnd, ImgRcv(r)) == ImgRcv(MoveReady(Exact, wnd, r))
    decreases |r.buf|
  {
    if r.buf != [] {
      assert 0 <= Off(Exact, r.buf[0].sn, r.nxt) < wnd;
      NearDiff(r.buf[0].sn, r.nxt);
      if r.buf[0].sn == r.nxt && |r.queue| < wnd {
        var r1 := r.(nxt := r.nxt + 1, queue := r.queue + [r.buf[0]], buf := r.buf[1..]);
        StepBase(Exact, wnd, r, r1);
        MoveReadyImage(wnd, r1);
        ImageAdd(r.nxt, 1);
        var i := ImgRcv(r);
        assert ImgRcv(r1) == i.(nxt := Add(Wrap, i.nxt, 1), queue := i.queue + [i.buf[0]], buf := i.buf[1..]);
      }
    }
  }

  lemma {:induction false} ParseDataImage(wnd: nat, r: Rcv, p: Part)
    requires RcvOk(Exact, wnd, r) && Near(p.sn, r.nxt) && Near(p.sn, r.nxt + wnd)
    ensures ParseData(Wrap, wnd, ImgRcv(r), ImgPart(p)) == ImgRcv(ParseData(Exact, wnd, r, p))
  {
    NearDiff(p.sn, r.nxt);
    NearDiff(p.sn, r.nxt + wnd);
    ImageAdd(r.nxt, wnd);
    if InWindow(Exact, wnd, r, p.sn) {
      forall i | 0 <= i < |r.buf| ensures Near(p.sn, r.buf[i].sn) {
        assert 0 <= Off(Exact, r.buf[i].sn, r.nxt) < wnd;
      }
      InsertImage(r.buf, p);
      InWindowOffset(Exact, wnd, r.nxt, p.sn);
      InsertAscending(Exact, r.nxt, wnd, r.buf, p);
      var r2 := r.(buf := Insert(Exact, r.buf, p));
      MoveReadyImage(wnd, r2);
      assert ImgRcv(r2) == ImgRcv(r).(buf := Insert(Wrap, ImgParts(r.buf), ImgPart(p)));
    }
  }

  lemma {:induction false} TakePushImage(wnd: nat, r: Rcv, q: Seg)
    requires RcvOk(Exact, wnd, r) && Near(q.sn, r.nxt) && Near(q.sn, r.nxt + wnd)
    ensures TakePush(Wrap, wnd, ImgRcv(r), ImgSeg(q)) == ImgRcv(TakePush(Exact, wnd, r, q))
  {
    NearDiff(q.sn, r.nxt);
    NearDiff(q.sn, r.nxt + wnd);
    ImageAdd(r.nxt, wnd);
    var r1 := r.(acks := r.acks + [AckItem(q.sn, q.ts)]);
    assert ImgRcv(r1) == ImgRcv(r).(acks := ImgRcv(r).acks + [AckItem(Img(q.sn), q.ts)]);
    ParseDataImage(wnd, r1, Part(q.sn, q.frg, q.data));
  }

  lemma {:induction false} MergeCountImage(queue: seq<Part>)
    ensures MergeCount(ImgParts(queue)) == MergeCount(queue)
  {
    if queue != [] {
      MergeCountImage(queue[1..]);
      assert ImgParts(queue)[1..] == ImgParts(queue[1..]);
    }
  }

  lemma {:induction false} MergedImage(queue: seq<Part>)
    ensures Merged(ImgParts(queue)) == Merged(queue)
    ensures PeekSize(ImgParts(queue)) == PeekSize(queue)
  {
    MergeCountImage(queue);
    var c := MergeCount(queue);
    assert Frags(ImgParts(queue)[..c]) == Frags(queue[..c]);
  }

  lemma {:induction false} RecvImage(wnd: nat, r: Rcv, len: int)
    requires RcvOk(Exact, wnd, r)
    ensures var x := Recv(Exact, wnd, r, len);
      Recv(Wrap, wnd, ImgRcv(r), len) == RecvResult(ImgRcv(x.rcv), x.code, x.data, x.tell)
  {
    MergedImage(r.queue);
    MergeCountImage(r.queue);
    if Recv(Exact, wnd, r, len).code >= 0 {
      var c := MergeCount(r.queue);
      var r1 := if len < 0 then r else r.(queue := r.queue[c..]);
      assert ImgRcv(r1) == if len < 0 then ImgRcv(r) else ImgRcv(r).(queue := ImgParts(r.queue)[c..]);
      assert RcvBase(Exact, wnd, r1) by {
        assert forall i :: 0 <= i < |r1.queue| ==> r1.queue[i] == r.queue[if len < 0 then i else c + i];
      }
      MoveReadyImage(wnd, r1);
    }
  }

  // ----- one segment

  /** A segment whose numbers lie near everything it is compared with. */
  ghost predicate NearState(k: Kcb, b: Best, q: Seg) {
    && NearAll(q.una, k.snd.buf)
    && (q.cmd.Ack? ==> NearAll(q.sn, k.snd.buf) && Near(q.sn, TakeHeader(Exact, k, q).snd.una)
                       && Near(q.sn, k.snd.nxt) && (b.flag ==> Near(q.sn, b.maxack)))
    && (q.cmd.Push? ==> Near(q.sn, k.rcv.nxt) && Near(q.sn, k.rcv.nxt + k.cfg.rcvWnd))
  }

  lemma {:induction false} TakeHeaderImage(k: Kcb, q: Seg)
    requires NearAll(q.una, k.snd.buf)
    ensures TakeHeader(Wrap, ImgKcb(k), ImgSeg(q)) == ImgKcb(TakeHeader(Exact, k, q))
  {
    ParseUnaImage(k.snd.buf, q.una);
    ShrinkImage(k.snd.(buf := ParseUna(Exact, k.snd.buf, q.una)));
  }

  lemma {:induction false} TakeAckImage(k: Kcb, q: Seg)
    requires NearAll(q.sn, k.snd.buf) && Near(q.sn, k.snd.una) && Near(q.sn, k.snd.nxt)
    ensures TakeAck(Wrap, ImgKcb(k), ImgSeg(q)) == ImgKcb(TakeAck(Exact, k, q))
  {
    ParseAckImage(k.snd, q.sn);
    ShrinkImage(ParseAck(Exact, k.snd, q.sn));
  }

  lemma {:induction false} ProcessImage(s: Inner, q: Seg)
    requires RcvOk(Exact, s.kcb.cfg.rcvWnd, s.kcb.rcv)
    requires NearState(s.kcb, s.best, q)
    ensures Process(Wrap, ImgInner(s), ImgSeg(q)) == ImgInner(Process(Exact, s, q))
  {
    TakeHeaderImage(s.kcb, q);
    var k := TakeHeader(Exact, s.kcb, q);
    match q.cmd
    case Ack =>
      var n := ParseUnaSuffix(Exact, s.kcb.snd.buf, q.una);
      TakeAckImage(k, q);
      if s.best.flag { NearDiff(q.sn, s.best.maxack); }
    case Push => TakePushImage(k.cfg.rcvWnd, k.rcv, q);
    case Wask =>
    case Wins =>
  }

  lemma {:induction false} FinishImage(s: Inner, prevUna: nat)
    requires s.kcb.cfg.mss > 0
    requires s.best.flag ==>
      NearAll(s.best.maxack, s.kcb.snd.buf) && Near(s.best.maxack, s.kcb.snd.una) && Near(s.best.maxack, s.kcb.snd.nxt)
    requires Near(s.kcb.snd.una, prevUna)
    ensures Finish(Wrap, ImgInner(s), Img(prevUna)) == ImgKcb(Finish(Exact, s, prevUna))
  {
    if s.best.flag { ParseFastackImage(s.kcb.snd, s.best.maxack, s.best.ts); }
    NearDiff(s.kcb.snd.una, prevUna);
  }

  // ----- a flush

  /** The decision and the update look at no sequence number. */
  lemma {:induction false} TouchOneImage(c: Ctx, f: Flight)
    ensures Decide(c, ImgFlight(f)) == Decide(c, f) && Touch(c, ImgFlight(f)) == ImgFlight(Touch(c, f))
  {
  }

  lemma {:induction false} TouchImage(c: Ctx, buf: seq<Flight>)
    ensures TouchAll(c, ImgBuf(buf)) == ImgBuf(TouchAll(c, buf))
  {
    hide Decide, Touch;
    forall i | 0 <= i < |buf| ensures Touch(c, ImgFlight(buf[i])) == ImgFlight(Touch(c, buf[i])) {
      TouchOneImage(c, buf[i]);
    }
  }

  lemma {:induction false} DataSegsImage(c: Ctx, wnd: nat, una: nat, buf: seq<Flight>)
    ensures DataSegs(c, wnd, Img(una), ImgBuf(buf)) == ImgSegs(DataSegs(c, wnd, una, buf))
  {
    hide Decide, Touch;
    if buf != [] {
      var n := |buf| - 1;
      DataSegsImage(c, wnd, una, buf[..n]);
      TouchOneImage(c, buf[n]);
      assert ImgBuf(buf)[..n] == ImgBuf(buf[..n]);
    }
  }

  lemma {:induction false} CountImage(c: Ctx, a: Reason, buf: seq<Flight>)
    ensures Count(c, a, ImgBuf(buf)) == Count(c, a, buf)
  {
    hide Decide, Touch;
    if buf != [] {
      var n := |buf| - 1;
      CountImage(c, a, buf[..n]);
      TouchOneImage(c, buf[n]);
      assert ImgBuf(buf)[..n] == ImgBuf(buf[..n]);
    }
  }

  lemma {:induction false} DiedImage(c: Ctx, deadLink: nat, buf: seq<Flight>)
    ensures Died(c, deadLink, ImgBuf(buf)) == Died(c, deadLink, buf)
  {
    hide Decide, Touch;
    forall i | 0 <= i < |buf|
      ensures Sent(c, ImgBuf(buf)[i]) == Sent(c, buf[i])
      ensures Touch(c, ImgBuf(buf)[i]).xmit == Touch(c, buf[i]).xmit
    {
      TouchOneImage(c, buf[i]);
    }
  }

  lemma {:induction false} FilledImage(k: Kcb)
    requires KcbOk(Exact, k)
    ensures Filled(Wrap, ImgKcb(k)) == ImgSnd(Filled(Exact, k))
  {
    FilledOk(Exact, k);
    FillImage(k.snd, Window(k), k.clk.current, k.rtt.rto);
  }

  lemma {:induction false} SignalsImage(wnd: nat, una: nat, p: Probe, acks: seq<AckItem>)
    ensures AckSegs(wnd, Img(una), ImgAcks(acks)) == ImgSegs(AckSegs(wnd, una, acks))
    ensures ProbeSegs(p, wnd, Img(una), Leftover(ImgAcks(acks))) == ImgSegs(ProbeSegs(p, wnd, una, Leftover(acks)))
  {
  }

  lemma {:induction false} EmittedImage(k: Kcb)
    requires KcbOk(Exact, k)
    ensures Emitted(Wrap, ImgKcb(k)) == ImgSegs(Emitted(Exact, k))
  {
    hide Filled, AckSegs, ProbeSegs, DataSegs, ProbeTick, Img, KcbOk, Leftover;
    FilledImage(k);
    var wnd := Unused(k.cfg.rcvWnd, k.rcv);
    SignalsImage(wnd, k.rcv.nxt, ProbeTick(k.prb, k.clk.current), k.rcv.acks);
    DataSegsImage(MakeCtx(k), wnd, k.rcv.nxt, Filled(Exact, k).buf);
    if k.clk.updated {
      ImgSegsConcat(AckSegs(wnd, k.rcv.nxt, k.rcv.acks),
                    ProbeSegs(ProbeTick(k.prb, k.clk.current), wnd, k.rcv.nxt, Leftover(k.rcv.acks)));
      ImgSegsConcat(AckSegs(wnd, k.rcv.nxt, k.rcv.acks)
                    + ProbeSegs(ProbeTick(k.prb, k.clk.current), wnd, k.rcv.nxt, Leftover(k.rcv.acks)),
                    DataSegs(MakeCtx(k), wnd, k.rcv.nxt, Filled(Exact, k).buf));
    }
  }

  lemma {:induction false} ImgSegsConcat(a: seq<Seg>, b: seq<Seg>)
    ensures ImgSegs(a + b) == ImgSegs(a) + ImgSegs(b)
  {
  }

  lemma {:induction false} FlushImage(k: Kcb)
    requires KcbOk(Exact, k)
    ensures Flush(Wrap, ImgKcb(k)) == ImgKcb(Flush(Exact, k))
  {
    hide Filled, ProbeTick, Congestion.AfterFlush, Count, Died, TouchAll, Img, Off, KcbOk;
    if k.clk.updated {
      var c, s := MakeCtx(k), Filled(Exact, k);
      FilledImage(k);
      FilledInflight(k);
      TouchImage(c, s.buf);
      CountImage(c, Fast, s.buf);
      CountImage(c, Timeout, s.buf);
      DiedImage(c, k.cfg.deadLink, s.buf);
      assert ImgAcks([]) == [];
    }
  }

  lemma {:induction false} FilledInflight(k: Kcb)
    requires KcbOk(Exact, k)
    ensures var s := Filled(Exact, k); Off(Wrap, Img(s.nxt), Img(s.una)) == Off(Exact, s.nxt, s.una)
  {
    FilledOk(Exact, k);
    InflightImage(Filled(Exact, k).nxt, Filled(Exact, k).una);
  }

  lemma {:induction false} InflightImage(nxt: nat, una: nat)
    requires 0 <= nxt - una <= 65535
    ensures Off(Wrap, Img(nxt), Img(una)) == Off(Exact, nxt, una)
  {
    ImageDiffExact(nxt, una);
  }

  lemma {:induction false} SizeImage(d: seq<Seg>)
    ensures Size(ImgSegs(d)) == Size(d)
  {
    if d != [] {
      SizeImage(d[..|d| - 1]);
      assert ImgSegs(d)[..|d| - 1] == ImgSegs(d[..|d| - 1]);
    }
  }

  lemma {:induction false} PutAllImage(mtu: nat, segs: seq<Seg>)
    ensures var p := PutAll(mtu, Packing([], []), segs);
      PutAll(mtu, Packing([], []), ImgSegs(segs)) == Packing(ImgOut(p.out), ImgSegs(p.cur))
  {
    if segs != [] {
      var n := |segs| - 1;
      PutAllImage(mtu, segs[..n]);
      assert ImgSegs(segs)[..n] == ImgSegs(segs[..n]);
      var p := PutAll(mtu, Packing([], []), segs[..n]);
      PutImage(mtu, p, segs[n]);
    }
  }

  lemma {:induction false} PutImage(mtu: nat, p: Packing, q: Seg)
    ensures var r := Put(mtu, p, q);
      Put(mtu, Packing(ImgOut(p.out), ImgSegs(p.cur)), ImgSeg(q)) == Packing(ImgOut(r.out), ImgSegs(r.cur))
  {
    SizeImage(p.cur);
    assert ImgOut(p.out) + [ImgSegs(p.cur)] == ImgOut(p.out + [p.cur]);
    assert ImgSegs(p.cur) + [ImgSeg(q)] == ImgSegs(p.cur + [q]);
    assert [ImgSeg(q)] == ImgSegs([q]);
  }

  lemma {:induction false} DatagramsImage(k: Kcb)
    requires KcbOk(Exact, k)
    ensures Datagrams(Wrap, ImgKcb(k)) == ImgOut(Datagrams(Exact, k))
  {
    EmittedImage(k);
    PutAllImage(k.cfg.mtu, Emitted(Exact, k));
    var p := PutAll(k.cfg.mtu, Packing([], []), Emitted(Exact, k));
    assert ImgOut(p.out) + [ImgSegs(p.cur)] == ImgOut(p.out + [p.cur]);
  }
}
