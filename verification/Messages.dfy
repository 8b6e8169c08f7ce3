/** Messages and fragments: ikcp_send as a function on snd_queue, and what a sequence of fragments means. */
module Messages {
  import opened Types
  import Wire

  /** The number of fragments of a message. */
  function FragCount(mss: nat, len: nat): nat
    requires mss > 0
  {
    if len <= mss then 1 else (len + mss - 1) / mss
  }

  /** The fragment loop of ikcp_send. */
  function Cut(mss: nat, msg: bytes, count: nat, stream: bool): seq<Frag> {
    if count == 0 then []
    else
      var size := Min(|msg|, mss);
      [Frag(if stream then 0 else count - 1, msg[..size])] + Cut(mss, msg[size..], count - 1, stream)
  }

  datatype SendResult = SendResult(queue: seq<Frag>, code: int)

  /** How much of a message in streaming mode goes into the last queued fragment. */
  function Extend(cfg: Cfg, queue: seq<Frag>, msg: bytes): nat {
    if cfg.stream && queue != [] && |queue[|queue| - 1].data| < cfg.mss
    then Min(|msg|, cfg.mss - |queue[|queue| - 1].data|) else 0
  }

  function Extended(cfg: Cfg, queue: seq<Frag>, msg: bytes): seq<Frag> {
    if cfg.stream && queue != [] && |queue[|queue| - 1].data| < cfg.mss then
      queue[..|queue| - 1] + [Frag(0, queue[|queue| - 1].data + msg[..Extend(cfg, queue, msg)])]
    else queue
  }

  /** ikcp_send. */
  function Send(cfg: Cfg, queue: seq<Frag>, msg: bytes): (r: SendResult)
    requires cfg.mss > 0
    ensures r.code <= |msg|
  {
    var sent := Extend(cfg, queue, msg);
    var q1 := Extended(cfg, queue, msg);
    var rest := msg[sent..];
    if cfg.stream && rest == [] then SendResult(q1, sent)
    else
      var count := FragCount(cfg.mss, |rest|);
      if count >= WND_RCV then SendResult(q1, if cfg.stream && sent > 0 then sent else -2)
      else SendResult(q1 + Cut(cfg.mss, rest, count, cfg.stream), |msg|)
  }

  // ----- what fragments mean

  /** A reader of fragments: the messages completed so far and the bytes of an unfinished one. */
  datatype Reader = Reader(done: seq<bytes>, partial: bytes)

  function Read(fs: seq<Frag>): Reader {
    if fs == [] then Reader([], [])
    else
      var r := Read(fs[..|fs| - 1]);
      var f := fs[|fs| - 1];
      if f.frg == 0 then Reader(r.done + [r.partial + f.data], []) else Reader(r.done, r.partial + f.data)
  }

  /** The messages in a sequence of fragments. */
  function Msgs(fs: seq<Frag>): seq<bytes> {
    Read(fs).done
  }

  /** A place between two messages. */
  predicate Closed(fs: seq<Frag>) {
    fs == [] || fs[|fs| - 1].frg == 0
  }

  /** frg counts the fragments of the message that are still to come, and there are fewer than 128 of them. */
  ghost predicate CountsDown(fs: seq<Frag>) {
    && Closed(fs)
    && (forall i :: 0 <= i < |fs| ==> fs[i].frg < WND_RCV - 1)
    && (forall i :: 0 <= i < |fs| - 1 && fs[i].frg > 0 ==> fs[i + 1].frg == fs[i].frg - 1)
  }

  ghost predicate AllLast(fs: seq<Frag>) {
    forall i :: 0 <= i < |fs| ==> fs[i].frg == 0
  }

  ghost predicate Small(mss: nat, fs: seq<Frag>) {
    forall i :: 0 <= i < |fs| ==> |fs[i].data| <= mss
  }

  lemma {:induction false} ReadSnoc(fs: seq<Frag>, f: Frag)
    ensures Read(fs + [f]) ==
      if f.frg == 0 then Reader(Read(fs).done + [Read(fs).partial + f.data], [])
      else Reader(Read(fs).done, Read(fs).partial + f.data)
  {
    assert (fs + [f])[..|fs|] == fs;
  }

  lemma {:induction false} ReadMono(a: seq<Frag>, b: seq<Frag>)
    ensures Msgs(a) <= Msgs(a + b)
  {
    if b == [] {
      assert a + b == a;
    } else {
      var n := |b| - 1;
      ReadMono(a, b[..n]);
      assert a + b == (a + b[..n]) + [b[n]];
      ReadSnoc(a + b[..n], b[n]);
    }
  }

  /** What was read up to a place is a prefix of what is there altogether. */
  lemma {:induction false} MsgsPrefix(fs: seq<Frag>, p: nat)
    requires p <= |fs|
    ensures Msgs(fs[..p]) <= Msgs(fs)
  {
    ReadMono(fs[..p], fs[p..]);
    assert fs[..p] + fs[p..] == fs;
  }

  /** Fragments that are not last only add to the unfinished message. */
  lemma {:induction false} ReadMiddle(fs: seq<Frag>, g: seq<Frag>)
    requires forall i :: 0 <= i < |g| ==> g[i].frg > 0
    ensures Read(fs + g) == Reader(Read(fs).done, Read(fs).partial + Join(g))
  {
    if g == [] {
      assert fs + g == fs;
    } else {
      var n := |g| - 1;
      ReadMiddle(fs, g[..n]);
      assert fs + g == (fs + g[..n]) + [g[n]];
      ReadSnoc(fs + g[..n], g[n]);
      hide Read;
      assert Read(fs).partial + Join(g[..n]) + g[n].data == Read(fs).partial + (Join(g[..n]) + g[n].data);
    }
  }

  /** One whole message after a message boundary. */
  lemma {:induction false} ReadMessage(fs: seq<Frag>, g: seq<Frag>)
    requires Closed(fs) && g != [] && g[|g| - 1].frg == 0
    requires forall i :: 0 <= i < |g| - 1 ==> g[i].frg > 0
    ensures Msgs(fs + g) == Msgs(fs) + [Join(g)]
  {
    var n := |g| - 1;
    ReadMiddle(fs, g[..n]);
    ClosedNothingOpen(fs);
    assert fs + g == (fs + g[..n]) + [g[n]];
    ReadSnoc(fs + g[..n], g[n]);
    assert [] + Join(g[..n]) == Join(g[..n]);
  }

  lemma {:induction false} ClosedNothingOpen(fs: seq<Frag>)
    requires Closed(fs)
    ensures Read(fs).partial == []
  {
  }

  /** Fragments that are all last are messages of their own. */
  lemma {:induction false} ReadAllLast(fs: seq<Frag>)
    requires AllLast(fs)
    ensures Read(fs).partial == [] && |Msgs(fs)| == |fs| && Wire.Flat(Msgs(fs)) == Join(fs)
  {
    if fs != [] {
      var n := |fs| - 1;
      ReadAllLast(fs[..n]);
      Wire.FlatSnoc(Msgs(fs[..n]), fs[n].data);
      assert [] + fs[n].data == fs[n].data;
    }
  }

  // ----- ikcp_send

  lemma {:induction false} CutStep(mss: nat, msg: bytes, count: nat, stream: bool)
    requires mss > 0 && count > 0
    ensures var size := Min(|msg|, mss);
      && |Cut(mss, msg, count, stream)| == |Cut(mss, msg[size..], count - 1, stream)| + 1
      && Cut(mss, msg, count, stream)[1..] == Cut(mss, msg[size..], count - 1, stream)
      && |msg[..size]| <= mss
      && Cut(mss, msg, count, stream)[0] == Frag(if stream then 0 else count - 1, msg[..size])
  {
  }

  /** The fragments of a message: as many as asked for, none longer than mss, frg counting down to zero. */
  lemma {:induction false} CutOk(mss: nat, msg: bytes, count: nat, stream: bool)
    requires mss > 0
    ensures |Cut(mss, msg, count, stream)| == count
    ensures forall i :: 0 <= i < count ==> |Cut(mss, msg, count, stream)[i].data| <= mss
    ensures forall i :: 0 <= i < count ==>
      Cut(mss, msg, count, stream)[i].frg == if stream then 0 else count - 1 - i
  {
    if count > 0 {
      var tail := Cut(mss, msg[Min(|msg|, mss)..], count - 1, stream);
      hide Cut, Min;
      CutOk(mss, msg[Min(|msg|, mss)..], count - 1, stream);
      CutStep(mss, msg, count, stream);
      assert forall i :: 1 <= i < count ==> Cut(mss, msg, count, stream)[i] == tail[i - 1];
    }
  }

  lemma {:induction false} JoinOne(f: Frag)
    ensures Join([f]) == f.data
  {
    assert [f][..0] == [];
  }

  /** Enough fragments hold all bytes of the message. */
  lemma {:induction false} CutJoin(mss: nat, msg: bytes, count: nat, stream: bool)
    requires mss > 0 && |msg| <= count * mss
    ensures Join(Cut(mss, msg, count, stream)) == msg
  {
    if count > 0 {
      var size := Min(|msg|, mss);
      RestFits(mss, |msg|, count);
      CutJoin(mss, msg[size..], count - 1, stream);
      var f := Frag(if stream then 0 else count - 1, msg[..size]);
      JoinConcat([f], Cut(mss, msg[size..], count - 1, stream));
      JoinOne(f);
      assert msg == msg[..size] + msg[size..];
    }
  }

  lemma {:induction false} RestFits(mss: nat, len: nat, count: nat)
    requires count > 0 && len <= count * mss
    ensures len - Min(len, mss) <= (count - 1) * mss
  {
    assert (count - 1) * mss == count * mss - mss;
  }

  lemma {:induction false} FragCountEnough(mss: nat, len: nat)
    requires mss > 0
    ensures len <= FragCount(mss, len) * mss && FragCount(mss, len) >= 1
  {
    if len > mss {
      var c, r := (len + mss - 1) / mss, (len + mss - 1) % mss;
      assert len + mss - 1 == mss * c + r;
      assert mss * c == c * mss;
      if c < 1 { assert false; }
    }
  }

  /** The fragments ikcp_send makes of a message in message mode. */
  function Fragment(mss: nat, msg: bytes): seq<Frag>
    requires mss > 0
  {
    Cut(mss, msg, FragCount(mss, |msg|), false)
  }

  lemma {:induction false} FragmentOk(mss: nat, msg: bytes)
    requires mss > 0
    ensures var g := Fragment(mss, msg);
      && Join(g) == msg && Small(mss, g) && |g| == FragCount(mss, |msg|) >= 1 && g[|g| - 1].frg == 0
      && forall i :: 0 <= i < |g| ==> g[i].frg == |g| - 1 - i
  {
    FragCountEnough(mss, |msg|);
    CutOk(mss, msg, FragCount(mss, |msg|), false);
    CutJoin(mss, msg, FragCount(mss, |msg|), false);
  }

  lemma {:induction false} CountsDownAppend(fs: seq<Frag>, g: seq<Frag>)
    requires CountsDown(fs) && g != [] && g[|g| - 1].frg == 0 && |g| < WND_RCV
    requires forall i :: 0 <= i < |g| ==> g[i].frg == |g| - 1 - i
    ensures CountsDown(fs + g)
  {
    var h := fs + g;
    forall i | 0 <= i < |h| - 1 && h[i].frg > 0 ensures h[i + 1].frg == h[i].frg - 1 {
      if i < |fs| - 1 { assert fs[i + 1].frg == fs[i].frg - 1; }
    }
  }

  /** Message mode: a message is accepted as a whole, as exactly one more message behind what was queued, or
      rejected with the queue untouched; it is rejected exactly when 127 fragments of mss bytes cannot hold it. */
  lemma {:induction false} SendMessage(cfg: Cfg, before: seq<Frag>, queue: seq<Frag>, msg: bytes)
    requires cfg.mss > 0 && !cfg.stream && CountsDown(before + queue)
    ensures var r := Send(cfg, queue, msg);
      if |msg| <= (WND_RCV - 1) * cfg.mss then
        && r.code == |msg| && r.queue == queue + Fragment(cfg.mss, msg)
        && CountsDown(before + r.queue) && Msgs(before + r.queue) == Msgs(before + queue) + [msg]
      else r.code == -2 && r.queue == queue
  {
    var g := Fragment(cfg.mss, msg);
    assert msg[0..] == msg;
    FragmentOk(cfg.mss, msg);
    FragCountLeast(cfg.mss, |msg|);
    if FragCount(cfg.mss, |msg|) < WND_RCV {
      CountsDownAppend(before + queue, g);
      ReadMessage(before + queue, g);
      assert before + (queue + g) == (before + queue) + g;
    }
  }

  lemma {:induction false} JoinGrowLast(queue: seq<Frag>, x: bytes)
    requires queue != []
    ensures Join(queue[..|queue| - 1] + [Frag(0, queue[|queue| - 1].data + x)]) == Join(queue) + x
  {
    var n := |queue| - 1;
    var f := Frag(0, queue[n].data + x);
    assert (queue[..n] + [f])[..n] == queue[..n];
    assert Join(queue[..n]) + (queue[n].data + x) == Join(queue[..n]) + queue[n].data + x;
  }

  lemma {:induction false} ExtendedJoin(cfg: Cfg, queue: seq<Frag>, msg: bytes)
    requires cfg.stream && AllLast(queue)
    ensures AllLast(Extended(cfg, queue, msg)) && Extend(cfg, queue, msg) <= |msg|
    ensures Join(Extended(cfg, queue, msg)) == Join(queue) + msg[..Extend(cfg, queue, msg)]
  {
    if queue != [] && |queue[|queue| - 1].data| < cfg.mss {
      JoinGrowLast(queue, msg[..Extend(cfg, queue, msg)]);
    }
  }

  /** Stream mode: exactly the first `code` bytes are appended to the queued bytes, none on rejection, and a message
      is rejected only if nothing of it fitted the last queued fragment. */
  lemma {:induction false} SendStream(cfg: Cfg, queue: seq<Frag>, msg: bytes)
    requires cfg.mss > 0 && cfg.stream && AllLast(queue)
    ensures var r := Send(cfg, queue, msg);
      && AllLast(r.queue) && r.code <= |msg|
      && Join(r.queue) == Join(queue) + (if r.code >= 0 then msg[..r.code] else [])
      && (r.code < 0 ==> r.code == -2 && r.queue == queue)
  {
    var sent := Extend(cfg, queue, msg);
    var q1 := Extended(cfg, queue, msg);
    var rest := msg[sent..];
    ExtendedJoin(cfg, queue, msg);
    var count := FragCount(cfg.mss, |rest|);
    if rest != [] && count < WND_RCV {
      FragCountEnough(cfg.mss, |rest|);
      CutOk(cfg.mss, rest, count, true);
      CutJoin(cfg.mss, rest, count, true);
      JoinConcat(q1, Cut(cfg.mss, rest, count, true));
      assert msg[..sent] + rest == msg && msg[..|msg|] == msg;
      assert Join(queue) + msg[..sent] + rest == Join(queue) + (msg[..sent] + rest);
    } else if rest != [] && sent == 0 {
      assert q1 == queue;
    }
  }

  /** No queued fragment is ever longer than mss. */
  lemma {:induction false} SendSmall(cfg: Cfg, queue: seq<Frag>, msg: bytes)
    requires cfg.mss > 0 && Small(cfg.mss, queue)
    ensures Small(cfg.mss, Send(cfg, queue, msg).queue)
  {
    var rest := msg[Extend(cfg, queue, msg)..];
    CutOk(cfg.mss, rest, FragCount(cfg.mss, |rest|), cfg.stream);
  }

  // ----- how a message is cut, counted in bytes

  /** Whole fragments of mss bytes, and a last one that is empty only if there is nothing to carry. */
  predicate FullBlocks(mss: nat, g: seq<Frag>, msg: bytes) {
    && g != [] && Join(g) == msg && |g[|g| - 1].data| <= mss
    && (forall i :: 0 <= i < |g| - 1 ==> |g[i].data| == mss)
    && (msg != [] ==> g[|g| - 1].data != [])
  }

  /** All but the last of the fragments asked for are full, if the message is longer than they are. */
  lemma {:induction false} CutFull(mss: nat, msg: bytes, count: nat, stream: bool)
    requires mss > 0 && count > 0 && (count - 1) * mss < |msg| <= count * mss
    ensures var g := Cut(mss, msg, count, stream);
      && |g| == count && (forall i :: 0 <= i < count - 1 ==> |g[i].data| == mss) && g[count - 1].data != []
  {
    hide Cut;
    CutOk(mss, msg, count, stream);
    CutStep(mss, msg, count, stream);
    if count > 1 {
      OneBlockLess(mss, |msg|, count);
      CutFull(mss, msg[mss..], count - 1, stream);
      var g, tail := Cut(mss, msg, count, stream), Cut(mss, msg[mss..], count - 1, stream);
      assert forall i :: 1 <= i < count ==> g[i] == tail[i - 1];
    }
  }

  lemma {:induction false} OneBlockLess(mss: nat, len: nat, count: nat)
    requires mss > 0 && count > 1 && (count - 1) * mss < len <= count * mss
    ensures mss < len && (count - 2) * mss < len - mss <= (count - 1) * mss
  {
    assert (count - 1) * mss == (count - 2) * mss + mss && count * mss == (count - 1) * mss + mss;
    MulMono(1, count - 1, mss);
  }

  /** The count is the least that holds the message. */
  lemma {:induction false} FragCountLeast(mss: nat, len: nat)
    requires mss > 0
    ensures var c := FragCount(mss, len); len <= c * mss && (if len == 0 then c == 1 else (c - 1) * mss < len)
    ensures FragCount(mss, len) < WND_RCV <==> len <= (WND_RCV - 1) * mss
  {
    FragCountEnough(mss, len);
    var c := FragCount(mss, len);
    if len > mss {
      var r := (len + mss - 1) % mss;
      assert len + mss - 1 == mss * c + r;
      assert mss * c == c * mss && c * mss == (c - 1) * mss + mss;
    }
    hide FragCount;
    if c < WND_RCV { MulMono(c, WND_RCV - 1, mss); } else { MulMono(WND_RCV - 1, c - 1, mss); MulMono(1, 127, mss); }
  }

  lemma {:induction false} CutBlocks(mss: nat, msg: bytes, stream: bool)
    requires mss > 0
    ensures FullBlocks(mss, Cut(mss, msg, FragCount(mss, |msg|), stream), msg)
  {
    var c := FragCount(mss, |msg|);
    FragCountLeast(mss, |msg|);
    hide FragCount;
    CutOk(mss, msg, c, stream);
    CutJoin(mss, msg, c, stream);
    if msg != [] { CutFull(mss, msg, c, stream); }
  }

  /** Message mode in bytes: accepted as a whole if and only if 127 fragments of mss bytes can hold it, and then in as
      few fragments as can. */
  lemma {:induction false} MessageExact(cfg: Cfg, queue: seq<Frag>, msg: bytes)
    requires cfg.mss > 0 && !cfg.stream
    ensures var r := Send(cfg, queue, msg);
      if |msg| <= (WND_RCV - 1) * cfg.mss then
        && r.code == |msg| && queue <= r.queue && FullBlocks(cfg.mss, r.queue[|queue|..], msg)
        && forall i :: |queue| <= i < |r.queue| ==> r.queue[i].frg == |r.queue| - 1 - i
      else r.code == -2 && r.queue == queue
  {
    var c := FragCount(cfg.mss, |msg|);
    assert msg[0..] == msg;
    FragCountLeast(cfg.mss, |msg|);
    CutBlocks(cfg.mss, msg, false);
    CutOk(cfg.mss, msg, c, false);
    var g := Cut(cfg.mss, msg, c, false);
    assert (queue + g)[|queue|..] == g;
    hide FragCount, Cut, FullBlocks;
  }

  /** The bytes that still fit the last queued fragment. */
  function Gap(mss: nat, queue: seq<Frag>): nat {
    if queue == [] then 0 else Max(mss - |queue[|queue| - 1].data|, 0)
  }

  /** The queue with more bytes in its last fragment, if there was a gap. */
  predicate Lengthened(mss: nat, before: seq<Frag>, after: seq<Frag>, x: bytes) {
    if Gap(mss, before) == 0 then after == before
    else before != [] && after == before[..|before| - 1] + [Frag(0, before[|before| - 1].data + x)]
  }

  /** Stream mode in bytes: the last queued fragment is filled up first; the rest goes into as few fragments as can hold
      it, if 127 can.  Otherwise it is dropped: the answer is what the last fragment took, or -2 if that was full. */
  lemma {:induction false} StreamExact(cfg: Cfg, queue: seq<Frag>, msg: bytes)
    requires cfg.mss > 0 && cfg.stream
    ensures var r, n := Send(cfg, queue, msg), Min(|msg|, Gap(cfg.mss, queue));
      && |queue| <= |r.queue| && Lengthened(cfg.mss, queue, r.queue[..|queue|], msg[..n])
      && (if |msg| - n <= (WND_RCV - 1) * cfg.mss then r.code == |msg| else r.code == if n > 0 then n else -2)
      && (if n < |msg| && r.code == |msg| then FullBlocks(cfg.mss, r.queue[|queue|..], msg[n..])
          else |r.queue| == |queue|)
      && forall i :: |queue| <= i < |r.queue| ==> r.queue[i].frg == 0
  {
    var n, q1 := Extend(cfg, queue, msg), Extended(cfg, queue, msg);
    ExtendFills(cfg, queue, msg);
    var rest := msg[n..];
    var c := FragCount(cfg.mss, |rest|);
    hide FragCount, Cut, FullBlocks, Lengthened, Extended, Extend, Gap;
    FragCountLeast(cfg.mss, |rest|);
    CutBlocks(cfg.mss, rest, true);
    CutOk(cfg.mss, rest, c, true);
    var g := Cut(cfg.mss, rest, c, true);
    assert (q1 + g)[|queue|..] == g && (q1 + g)[..|queue|] == q1 && q1[..|queue|] == q1;
  }

  lemma {:induction false} ExtendFills(cfg: Cfg, queue: seq<Frag>, msg: bytes)
    requires cfg.mss > 0 && cfg.stream
    ensures var n := Extend(cfg, queue, msg);
      && n == Min(|msg|, Gap(cfg.mss, queue)) && |Extended(cfg, queue, msg)| == |queue|
      && Lengthened(cfg.mss, queue, Extended(cfg, queue, msg), msg[..n])
  {
  }
}
