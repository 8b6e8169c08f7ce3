/** tcp_impl.c: messages in a byte stream, each behind a 16-byte header.

    A connection is the bytes still to come on one side and a plan of what the next calls of read or write do: be
    interrupted, fail, or move some bytes, at most what was asked for.  A write may move none; a read moves at least one
    in front of the end of the stream.  Every finite run of the program follows some plan; a call behind the end of the
    plan moves all it can. */
module Tcp {
  import opened Serial
  import opened Types
  import opened Headers

  datatype Turn = Interrupted | Failed | Moves(k: nat)

  /** Reading: the bytes in front of the end of the stream.  Writing: the bytes written so far. */
  datatype Stream = Stream(data: bytes, plan: seq<Turn>)

  datatype Got = Got(code: int, data: bytes, rest: Stream)
  datatype Put = Put(code: int, rest: Stream)

  /** How much one read moves of what is there. */
  function Share(k: nat, most: nat): nat {
    Min(Max(k, 1), most)
  }

  /** tcp_read_n. */
  function ReadN(s: Stream, n: nat): Got
    decreases |s.plan|, n
  {
    if n == 0 then Got(0, [], s)
    else if s.plan == [] then
      var k := Min(n, |s.data|);
      Got(k, s.data[..k], Stream(s.data[k..], []))
    else
      var plan := s.plan[1..];
      match s.plan[0]
      case Interrupted => ReadN(s.(plan := plan), n)
      case Failed => Got(-1, [], s.(plan := plan))
      case Moves(k) =>
        var r := Share(k, Min(n, |s.data|));
        if r == 0 then Got(0, [], s.(plan := plan))
        else
          var g := ReadN(Stream(s.data[r..], plan), n - r);
          if g.code < 0 then Got(-1, [], g.rest) else Got(r + g.code, s.data[..r] + g.data, g.rest)
  }

  /** tcp_write_n. */
  function WriteN(o: Stream, b: bytes): Put
    decreases |o.plan|, |b|
  {
    if b == [] then Put(0, o)
    else if o.plan == [] then Put(|b|, o.(data := o.data + b))
    else
      var plan := o.plan[1..];
      match o.plan[0]
      case Interrupted => WriteN(o.(plan := plan), b)
      case Failed => Put(-1, o.(plan := plan))
      case Moves(k) =>
        var r := Min(k, |b|);
        var p := WriteN(Stream(o.data + b[..r], plan), b[r..]);
        if p.code < 0 then Put(-1, p.rest) else Put(r + p.code, p.rest)
  }

  datatype Message = Message(data: bytes, ts: u64)

  /** tcp_send; the length is cast to uint32_t. */
  function Send(h: Host, o: Stream, m: Message): Put {
    var p := WriteN(o, StoreHeader(h, HeaderEncode(h, MSG_TYPE_RAW, U32(|m.data|), m.ts)));
    if p.code != MSG_HEADER_SIZE then Put(ERR_IO, p.rest)
    else
      var p2 := WriteN(p.rest, m.data);
      Put(if p2.code != |m.data| then ERR_IO else |m.data|, p2.rest)
  }

  /** tcp_recv with room for cap bytes. */
  function Recv(h: Host, s: Stream, cap: nat): Got {
    var g := ReadN(s, MSG_HEADER_SIZE);
    ReadNBounds(s, MSG_HEADER_SIZE);
    if g.code <= 0 then Got(g.code, [], g.rest)
    else if g.code != MSG_HEADER_SIZE then Got(ERR_IO, [], g.rest)
    else
      var len := HeaderDecode(h, LoadHeader(h, g.data)).len;
      if len > cap then Got(ERR_PARAM, [], g.rest)
      else
        var g2 := ReadN(g.rest, len);
        if g2.code != len then Got(ERR_IO, [], g2.rest) else g2
  }

  // ----- what the loops move

  predicate Sound(plan: seq<Turn>) {
    Failed !in plan
  }

  lemma {:induction false} ReadNBounds(s: Stream, n: nat)
    ensures var g := ReadN(s, n); -1 <= g.code <= n && |g.data| == Max(g.code, 0)
    decreases |s.plan|, n
  {
    if n > 0 && s.plan != [] {
      var plan := s.plan[1..];
      match s.plan[0]
      case Interrupted => ReadNBounds(s.(plan := plan), n);
      case Failed =>
      case Moves(k) =>
        var r := Share(k, Min(n, |s.data|));
        if r > 0 { ReadNBounds(Stream(s.data[r..], plan), n - r); }
    }
  }

  lemma {:induction false} TwoParts(d: bytes, r: nat, q: nat)
    requires r <= q <= |d|
    ensures d[..r] + d[r..][..q - r] == d[..q] && d[r..][q - r..] == d[q..]
  {
  }

  /** Whatever the plan: exactly the next n bytes, or all there are, or -1 if a call failed. */
  lemma {:induction false} ReadNExact(s: Stream, n: nat)
    ensures var g, k := ReadN(s, n), Min(n, |s.data|);
      || (g.code == -1 && g.data == [] && !Sound(s.plan))
      || (g.code == k && g.data == s.data[..k] && g.rest.data == s.data[k..])
    ensures Sound(s.plan) ==> Sound(ReadN(s, n).rest.plan)
    decreases |s.plan|, n
  {
    if n > 0 && s.plan != [] {
      var plan := s.plan[1..];
      assert Sound(s.plan) ==> Sound(plan);
      match s.plan[0]
      case Interrupted => ReadNExact(s.(plan := plan), n);
      case Failed =>
      case Moves(k) =>
        var most := Min(n, |s.data|);
        var r := Share(k, most);
        if r > 0 {
          ReadNExact(Stream(s.data[r..], plan), n - r);
          TwoParts(s.data, r, most);
        }
    }
  }

  lemma {:induction false} PiecesJoin(data: bytes, b: bytes, r: nat, q: nat)
    requires r + q <= |b|
    ensures (data + b[..r]) + b[r..] == data + b && (data + b[..r]) + b[r..][..q] == data + b[..r + q]
  {
    assert b[..r] + b[r..][..q] == b[..r + q];
  }

  /** Whatever the plan: all bytes are written, or -1 and p of them, p less than all. */
  lemma {:induction false} WriteNExact(o: Stream, b: bytes) returns (p: nat)
    ensures var w := WriteN(o, b);
      || (w.code == -1 && !Sound(o.plan) && p < |b| && w.rest.data == o.data + b[..p])
      || (w.code == |b| == p && w.rest.data == o.data + b)
    ensures Sound(o.plan) ==> Sound(WriteN(o, b).rest.plan)
    decreases |o.plan|, |b|
  {
    p := |b|;
    if b == [] {
      assert o.data + b == o.data;
    } else if o.plan != [] {
      var plan := o.plan[1..];
      assert Sound(o.plan) ==> Sound(plan);
      match o.plan[0]
      case Interrupted => p := WriteNExact(o.(plan := plan), b);
      case Failed => p := 0; assert o.data + b[..0] == o.data;
      case Moves(k) =>
        var r := Min(k, |b|);
        var q := WriteNExact(Stream(o.data + b[..r], plan), b[r..]);
        p := r + q;
        PiecesJoin(o.data, b, r, q);
    }
  }

  // ----- one message

  /** A message in the stream. */
  function Frame(m: Message): (f: bytes)
    ensures |f| == MSG_HEADER_SIZE + |m.data|
  {
    WireHeader(MSG_TYPE_RAW, U32(|m.data|), m.ts) + m.data
  }

  /** tcp_send writes the whole frame and says so, or reports ERR_IO and wrote less than the frame. */
  lemma {:induction false} SendExact(h: Host, o: Stream, m: Message) returns (p: nat)
    ensures var w := Send(h, o, m);
      || (w.code == ERR_IO && !Sound(o.plan) && p < |Frame(m)| && w.rest.data == o.data + Frame(m)[..p])
      || (w.code == |m.data| && w.rest.data == o.data + Frame(m))
    ensures Sound(o.plan) ==> Sound(Send(h, o, m).rest.plan)
  {
    hide WriteN, StoreHeader, HeaderEncode, WireHeader;
    HeaderOnWire(h, MSG_TYPE_RAW, U32(|m.data|), m.ts);
    var head := WireHeader(MSG_TYPE_RAW, U32(|m.data|), m.ts);
    p := WriteNExact(o, head);
    if p < |head| {
      assert Frame(m)[..p] == head[..p];
    } else {
      var q := WriteNExact(WriteN(o, head).rest, m.data);
      p := |head| + q;
      assert (o.data + head) + m.data == o.data + Frame(m);
      assert (o.data + head) + m.data[..q] == o.data + Frame(m)[..p];
    }
  }

  /** The length a header announces. */
  function Announced(d: bytes): u32
    requires |d| >= MSG_HEADER_SIZE
  {
    LoadFits(BigEndian, d[4..8]);
    Load(BigEndian, d[4..8])
  }

  datatype Cut = Cut(code: int, data: bytes, left: bytes)

  /** The first message of a stream that stands still: no plan, no machine. */
  function Ideal(d: bytes, cap: nat): Cut {
    if d == [] then Cut(0, [], [])
    else if |d| < MSG_HEADER_SIZE then Cut(ERR_IO, [], [])
    else
      var len := Announced(d);
      if len > cap then Cut(ERR_PARAM, [], d[16..])
      else if |d| - 16 < len then Cut(ERR_IO, [], [])
      else Cut(len, d[16..16 + len], d[16 + len..])
  }

  /** The announced length is the one the header was built with. */
  lemma {:induction false} AnnouncedHeader(kind: u32, len: u32, ts: u64, tail: bytes)
    ensures Announced(WireHeader(kind, len, ts) + tail) == len
  {
    hide Le, FromLe, Reverse;
    PowValues();
    assert (WireHeader(kind, len, ts) + tail)[4..8] == Reverse(Le(len, 4));
    StoreLoad(BigEndian, len, 4);
  }

  /** tcp_recv on any machine under any plan is the ideal reader, unless a read failed, and then it reports an error. */
  lemma {:induction false} RecvIsIdeal(h: Host, s: Stream, cap: nat)
    ensures var g, c := Recv(h, s, cap), Ideal(s.data, cap);
      || (g.code < 0 && !Sound(s.plan))
      || (g.code == c.code && g.data == c.data && g.rest.data == c.left)
    ensures Sound(s.plan) ==> Sound(Recv(h, s, cap).rest.plan)
  {
    hide ReadN, HeaderDecode, LoadHeader, WireHeader, Sound, Announced;
    ReadNExact(s, MSG_HEADER_SIZE);
    var g := ReadN(s, MSG_HEADER_SIZE);
    if g.code == MSG_HEADER_SIZE {
      var d := HeaderDecode(h, LoadHeader(h, g.data));
      HeaderIsOnto(h, g.data);
      AnnouncedHeader(d.kind, d.len, d.timestamp, s.data[16..]);
      assert s.data == g.data + s.data[16..];
      ReadNExact(g.rest, Announced(s.data));
    }
  }

  // ----- runs of messages

  function Wire(ms: seq<Message>): bytes {
    if ms == [] then [] else Frame(ms[0]) + Wire(ms[1..])
  }

  /** How many whole frames the first n bytes of Wire(ms) hold. */
  function Whole(ms: seq<Message>, n: nat): (k: nat)
    ensures k <= |ms|
  {
    if ms == [] || n < |Frame(ms[0])| then 0 else 1 + Whole(ms[1..], n - |Frame(ms[0])|)
  }

  /** How many bytes follow those frames. */
  function Rest(ms: seq<Message>, n: nat): nat {
    if ms == [] || n < |Frame(ms[0])| then n else Rest(ms[1..], n - |Frame(ms[0])|)
  }

  /** What successive calls of tcp_recv return. */
  function RecvAll(h: Host, s: Stream, cap: nat, calls: nat): (rs: seq<Arrival>)
    ensures |rs| == calls
    decreases calls
  {
    if calls == 0 then []
    else
      var g := Recv(h, s, cap);
      [Arrival(g.code, g.data)] + RecvAll(h, g.rest, cap, calls - 1)
  }

  /** What the calls of tcp_send return until one fails, and what they leave written. */
  datatype Sends = Sends(codes: seq<int>, rest: Stream)

  function SendAll(h: Host, o: Stream, ms: seq<Message>): (r: Sends)
    ensures |r.codes| <= |ms|
    decreases |ms|
  {
    if ms == [] then Sends([], o)
    else
      var p := Send(h, o, ms[0]);
      if p.code != |ms[0].data| then Sends([p.code], p.rest)
      else
        var r := SendAll(h, p.rest, ms[1..]);
        Sends([p.code] + r.codes, r.rest)
  }

  /** Messages a receiver with room for cap bytes can be sent. */
  predicate Sendable(ms: seq<Message>, cap: nat) {
    forall i :: 0 <= i < |ms| ==> 0 < |ms[i].data| <= cap && |ms[i].data| < MOD
  }

  /** The results of tcp_recv: the first k messages, whole and in order, and then a result that is no message. */
  predicate Returned(rs: seq<Arrival>, ms: seq<Message>, k: nat) {
    && k <= |rs| && k <= |ms| && (k < |rs| ==> rs[k].code <= 0)
    && forall i :: 0 <= i < k ==> rs[i] == Arrival(|ms[i].data|, ms[i].data)
  }

  /** The results of tcp_send: the first n messages succeeded, the next one, if any, failed and was the last. */
  predicate Succeeded(codes: seq<int>, ms: seq<Message>, n: nat) {
    && n <= |ms| && |codes| == Min(n + 1, |ms|) && (n < |ms| ==> codes[n] == ERR_IO)
    && forall i :: 0 <= i < n ==> codes[i] == |ms[i].data|
  }

  lemma {:induction false} AnnouncedFrame(m: Message, tail: bytes)
    requires |m.data| < MOD
    ensures Announced(Frame(m) + tail) == |m.data|
  {
    hide WireHeader, Announced;
    AnnouncedHeader(MSG_TYPE_RAW, |m.data|, m.ts, m.data + tail);
    assert Frame(m) + tail == WireHeader(MSG_TYPE_RAW, |m.data|, m.ts) + (m.data + tail);
  }

  /** The ideal reader in front of a truncated stream of frames. */
  lemma {:induction false} IdealOnFrames(ms: seq<Message>, t: bytes, cap: nat)
    requires Sendable(ms, cap) && t <= Wire(ms)
    ensures var c := Ideal(t, cap);
      if ms == [] || |t| < |Frame(ms[0])| then c == Cut(if t == [] then 0 else ERR_IO, [], [])
      else c == Cut(|ms[0].data|, ms[0].data, t[|Frame(ms[0])|..]) && c.left <= Wire(ms[1..])
  {
    if ms != [] {
      var m, w := ms[0], Wire(ms);
      AnnouncedFrame(m, Wire(ms[1..]));
      var n := |Frame(m)|;
      if |t| >= MSG_HEADER_SIZE {
        assert t[4..8] == w[4..8];
      }
      if |t| >= n {
        assert t[16..n] == w[16..n] == m.data;
        assert t[n..] <= w[n..] == Wire(ms[1..]);
      }
    }
  }

  lemma {:induction false} ClosedStays(h: Host, s: Stream, cap: nat, calls: nat)
    requires s.data == [] && Sound(s.plan)
    ensures forall i :: 0 <= i < calls ==> RecvAll(h, s, cap, calls)[i].code == 0
    decreases calls
  {
    hide Recv;
    if calls > 0 {
      RecvIsIdeal(h, s, cap);
      ClosedStays(h, Recv(h, s, cap).rest, cap, calls - 1);
    }
  }

  /** One call of tcp_recv in front of a truncated stream of frames: the first message, or a result that is none. */
  lemma {:induction false} FrameStep(h: Host, ms: seq<Message>, s: Stream, cap: nat)
    requires Sendable(ms, cap) && s.data <= Wire(ms)
    ensures var g, n := Recv(h, s, cap), |s.data|;
      if g.code > 0 then
        && ms != [] && g.code == |ms[0].data| && g.data == ms[0].data && g.rest.data <= Wire(ms[1..])
        && Whole(ms, n) == 1 + Whole(ms[1..], |g.rest.data|) && Rest(ms, n) == Rest(ms[1..], |g.rest.data|)
      else
        Sound(s.plan) ==>
          Whole(ms, n) == 0 && g.code == (if Rest(ms, n) == 0 then 0 else ERR_IO) && g.rest.data == []
    ensures Sound(s.plan) ==> Sound(Recv(h, s, cap).rest.plan)
  {
    RecvIsIdeal(h, s, cap);
    IdealOnFrames(ms, s.data, cap);
    hide Recv, Ideal, Frame, Wire;
  }

  /** Wherever the stream is cut off and however the reads come, the calls of tcp_recv return the first k messages,
      whole and in order, and then a result that is no message; without failing reads, k is the number of whole frames
      that arrived, and what follows is ERR_IO if a piece of a frame is left over, and then closed for good.  Nothing is
      claimed of calls behind a failed read. */
  lemma {:induction false} Framing(h: Host, ms: seq<Message>, s: Stream, cap: nat, calls: nat) returns (k: nat)
    requires Sendable(ms, cap) && s.data <= Wire(ms)
    ensures k <= Whole(ms, |s.data|) && Returned(RecvAll(h, s, cap, calls), ms, k)
    ensures var rs := RecvAll(h, s, cap, calls);
      && (k < calls && Sound(s.plan) ==>
            && k == Whole(ms, |s.data|)
            && rs[k].code == (if Rest(ms, |s.data|) == 0 then 0 else ERR_IO)
            && forall j :: k < j < calls ==> rs[j].code == 0)
    decreases calls
  {
    hide Recv, Wire, Whole, Rest, Sound;
    k := 0;
    if calls > 0 {
      var g := Recv(h, s, cap);
      FrameStep(h, ms, s, cap);
      if g.code > 0 {
        var k' := Framing(h, ms[1..], g.rest, cap, calls - 1);
        k := k' + 1;
      } else if Sound(s.plan) {
        ClosedStays(h, g.rest, cap, calls - 1);
      }
    }
  }

  /** What is written when the sender stops at its first failure: the frames of the n messages that were accepted, and
      less than all of the next one. */
  lemma {:induction false} SentFrames(h: Host, o: Stream, ms: seq<Message>) returns (n: nat, p: nat)
    ensures Succeeded(SendAll(h, o, ms).codes, ms, n) && (n < |ms| ==> !Sound(o.plan))
    ensures if n == |ms| then SendAll(h, o, ms).rest.data == o.data + Wire(ms)
            else p < |Frame(ms[n])| && SendAll(h, o, ms).rest.data == o.data + (Wire(ms[..n]) + Frame(ms[n])[..p])
    decreases |ms|
  {
    hide Send, Frame, Sound;
    n, p := 0, 0;
    if ms == [] {
      assert o.data + Wire(ms) == o.data;
    } else {
      p := SendExact(h, o, ms[0]);
      var w := Send(h, o, ms[0]);
      if w.code != |ms[0].data| {
        assert Wire(ms[..0]) + Frame(ms[0])[..p] == Frame(ms[0])[..p];
      } else {
        n, p := SentFrames(h, w.rest, ms[1..]);
        n := n + 1;
        if n < |ms| {
          WireFront(o.data, ms, n, Frame(ms[n])[..p]);
        } else {
          WireFront(o.data, ms, n, []);
        }
      }
    }
  }

  /** The first frame taken out of the concatenation. */
  lemma {:induction false} WireFront(before: bytes, ms: seq<Message>, n: nat, tail: bytes)
    requires 1 <= n <= |ms|
    ensures (before + Frame(ms[0])) + (Wire(ms[1..][..n - 1]) + tail) == before + (Wire(ms[..n]) + tail)
    ensures n == |ms| ==> (before + Frame(ms[0])) + Wire(ms[1..]) == before + Wire(ms)
  {
    hide Frame;
    assert ms[..n][0] == ms[0] && ms[..n][1..] == ms[1..][..n - 1];
    var f, rest := Frame(ms[0]), Wire(ms[1..][..n - 1]);
    assert (before + f) + (rest + tail) == before + ((f + rest) + tail);
  }

  lemma {:induction false} WirePrefix(ms: seq<Message>, n: nat, p: nat)
    requires n < |ms| && p < |Frame(ms[n])|
    ensures var t := Wire(ms[..n]) + Frame(ms[n])[..p]; t <= Wire(ms) && Whole(ms, |t|) == n
  {
    hide Frame;
    if n == 0 {
      assert Wire(ms[..0]) + Frame(ms[0])[..p] == Frame(ms[0])[..p];
    } else {
      assert ms[..n][0] == ms[0] && ms[..n][1..] == ms[1..][..n - 1];
      WirePrefix(ms[1..], n - 1, p);
      var f, tail := Frame(ms[0]), Wire(ms[1..][..n - 1]);
      assert (f + tail) + Frame(ms[n])[..p] == f + (tail + Frame(ms[n])[..p]);
    }
  }

  lemma {:induction false} WholeMono(ms: seq<Message>, a: nat, b: nat)
    requires a <= b
    ensures Whole(ms, a) <= Whole(ms, b)
  {
    if ms != [] && a >= |Frame(ms[0])| { WholeMono(ms[1..], a - |Frame(ms[0])|, b - |Frame(ms[0])|); }
  }

  lemma {:induction false} WholeAll(ms: seq<Message>)
    ensures Whole(ms, |Wire(ms)|) == |ms| && Rest(ms, |Wire(ms)|) == 0
  {
    if ms != [] { WholeAll(ms[1..]); }
  }

  /** From tcp_send to tcp_recv: with any short transfers, interruptions and failures on both sides, and the stream cut
      off anywhere, the receiver gets a prefix of the messages whose tcp_send succeeded, and nothing else before
      its first result that is not a message. */
  lemma {:induction false} SendToRecv(h: Host, h': Host, ms: seq<Message>, writing: seq<Turn>, t: bytes,
                                      reading: seq<Turn>, cap: nat, calls: nat) returns (k: nat, n: nat)
    requires Sendable(ms, cap) && t <= SendAll(h, Stream([], writing), ms).rest.data
    ensures Succeeded(SendAll(h, Stream([], writing), ms).codes, ms, n) && (n < |ms| ==> !Sound(writing))
    ensures k <= n && Returned(RecvAll(h', Stream(t, reading), cap, calls), ms, k)
    ensures t == SendAll(h, Stream([], writing), ms).rest.data && Sound(reading) && calls > n ==> k == n
  {
    hide RecvAll;
    var p;
    n, p := SentFrames(h, Stream([], writing), ms);
    var full := SendAll(h, Stream([], writing), ms).rest.data;
    if n < |ms| {
      WirePrefix(ms, n, p);
      assert [] + (Wire(ms[..n]) + Frame(ms[n])[..p]) == Wire(ms[..n]) + Frame(ms[n])[..p];
    } else {
      WholeAll(ms);
      assert [] + Wire(ms) == Wire(ms);
    }
    WholeMono(ms, |t|, |full|);
    k := Framing(h', ms, Stream(t, reading), cap, calls);
  }

  // ----- outside the domain of the promise

  /** One message in a stream that stands still: tcp_recv returns it exactly if it is not empty and fits.  An empty one
      looks like the end of the stream; one that does not fit stays in the stream, and its payload is read as the next
      header. */
  lemma {:induction false} RecvOne(h: Host, m: Message, tail: bytes, plan: seq<Turn>, cap: nat)
    requires |m.data| < MOD && Sound(plan)
    ensures var g := Recv(h, Stream(Frame(m) + tail, plan), cap);
      && ((g.code == |m.data| > 0 && g.data == m.data && g.rest.data == tail) <==> 0 < |m.data| <= cap)
      && (m.data == [] ==> g.code == 0 && g.rest.data == tail)
      && (|m.data| > cap ==> g.code == ERR_PARAM && g.rest.data == m.data + tail)
  {
    hide Recv;
    var d := Frame(m) + tail;
    RecvIsIdeal(h, Stream(d, plan), cap);
    AnnouncedFrame(m, tail);
    assert d[16..] == m.data + tail;
    assert d[16..16 + |m.data|] == m.data && d[16 + |m.data|..] == tail;
  }

  /** A failing tcp_read_n has taken fewer bytes than it was asked for. */
  lemma {:induction false} FailedReadTakes(s: Stream, n: nat) returns (p: nat)
    requires ReadN(s, n).code < 0
    ensures p < n && p <= |s.data| && ReadN(s, n).rest.data == s.data[p..]
    decreases |s.plan|, n
  {
    var plan := s.plan[1..];
    match s.plan[0]
    case Interrupted => p := FailedReadTakes(s.(plan := plan), n);
    case Failed => p := 0;
    case Moves(k) =>
      var r := Share(k, Min(n, |s.data|));
      var q := FailedReadTakes(Stream(s.data[r..], plan), n - r);
      p := r + q;
      assert s.data[r..][q..] == s.data[p..];
  }

  lemma {:induction false} WireTail(ms: seq<Message>, k: nat)
    requires k <= |ms|
    ensures |Wire(ms[k..])| <= |Wire(ms)|
  {
    if k > 0 {
      WireTail(ms[1..], k - 1);
      assert ms[1..][k - 1..] == ms[k..];
    } else {
      assert ms[k..] == ms;
    }
  }

  /** What is left in the stream starts with a frame of some later message, or there is none left. */
  ghost predicate InStep(ms: seq<Message>, left: bytes) {
    exists k :: 0 <= k <= |ms| && left == Wire(ms[k..])
  }

  /** Part of a frame gone is out of step. */
  lemma {:induction false} PartGone(ms: seq<Message>, p: nat)
    requires ms != [] && p < |Frame(ms[0])| && p <= |Wire(ms)|
    ensures InStep(ms, Wire(ms)[p..]) <==> p == 0
  {
    hide Frame;
    if p == 0 {
      assert ms[0..] == ms && Wire(ms)[0..] == Wire(ms);
    } else {
      forall k | 0 <= k <= |ms| ensures Wire(ms)[p..] != Wire(ms[k..]) {
        if k == 0 {
          assert ms[k..] == ms;
        } else {
          WireTail(ms[1..], k - 1);
          assert ms[1..][k - 1..] == ms[k..];
        }
      }
    }
  }

  lemma {:induction false} RecvTakes(h: Host, m: Message, tail: bytes, s: Stream, cap: nat) returns (p: nat)
    requires s.data == Frame(m) + tail && |m.data| < MOD && |m.data| <= cap && Recv(h, s, cap).code < 0
    ensures p < |Frame(m)| && Recv(h, s, cap).rest.data == s.data[p..]
    ensures Recv(h, s, cap).code == (if p < MSG_HEADER_SIZE then -1 else ERR_IO)
  {
    hide ReadN, HeaderDecode, LoadHeader, WireHeader, Announced, Frame;
    ReadNExact(s, MSG_HEADER_SIZE);
    var g := ReadN(s, MSG_HEADER_SIZE);
    if g.code < 0 {
      p := FailedReadTakes(s, MSG_HEADER_SIZE);
    } else {
      AnnouncedFrame(m, tail);
      var d := HeaderDecode(h, LoadHeader(h, g.data));
      HeaderIsOnto(h, g.data);
      AnnouncedHeader(d.kind, d.len, d.timestamp, s.data[16..]);
      assert s.data == g.data + s.data[16..];
      ReadNExact(g.rest, |m.data|);
      var q := FailedReadTakes(g.rest, |m.data|);
      p := MSG_HEADER_SIZE + q;
      assert s.data[MSG_HEADER_SIZE..][q..] == s.data[p..];
    }
  }

  /** Exactly when a failed tcp_recv leaves the reader in step: it took p bytes of the frame, and what is left is the
      frames from some message on if and only if p is zero.  It reports ERR_IO if and only if it took the whole header,
      so behind ERR_IO a retry is always out of step, and behind -1 exactly if part of the header was taken. */
  lemma {:induction false} FailedRecv(h: Host, ms: seq<Message>, s: Stream, cap: nat) returns (p: nat)
    requires Sendable(ms, cap) && ms != [] && s.data == Wire(ms) && Recv(h, s, cap).code < 0
    ensures p < |Frame(ms[0])| && Recv(h, s, cap).rest.data == s.data[p..]
    ensures InStep(ms, Recv(h, s, cap).rest.data) <==> p == 0
    ensures Recv(h, s, cap).code == (if p < MSG_HEADER_SIZE then -1 else ERR_IO)
    ensures Recv(h, s, cap).code == ERR_IO ==> !InStep(ms, Recv(h, s, cap).rest.data)
  {
    hide Recv, Frame, InStep;
    p := RecvTakes(h, ms[0], Wire(ms[1..]), s, cap);
    PartGone(ms, p);
  }

  /** Why nothing is claimed behind a failed read: a caller that went on would take the payload it left in the stream
      for the next frame, and could be handed a message that nobody sent.  recv_thread_main does not go on. */
  lemma {:induction false} FailedReadShifts(h: Host, inner: Message, ts: u64, cap: nat)
    requires 0 < |inner.data| && |Frame(inner)| <= cap && |Frame(inner)| < MOD
    ensures var outer := Message(Frame(inner), ts);
      var rs := RecvAll(h, Stream(Frame(outer), [Moves(MSG_HEADER_SIZE), Failed]), cap, 2);
      rs[0].code == ERR_IO && rs[1] == Arrival(|inner.data|, inner.data)
  {
    hide HeaderDecode, LoadHeader, WireHeader, Recv;
    var f := Frame(Message(Frame(inner), ts));
    var s := Stream(f, [Moves(MSG_HEADER_SIZE), Failed]);
    var s1 := Stream(Frame(inner), [Failed]);
    assert s.plan[1..] == [Failed] && f[16..] == Frame(inner) && [Failed][1..] == [];
    assert ReadN(s1, 0) == Got(0, [], s1);
    assert f[..16] + [] == f[..16];
    assert ReadN(s, MSG_HEADER_SIZE) == Got(16, f[..16], s1);
    assert ReadN(s1, |Frame(inner)|) == Got(-1, [], Stream(Frame(inner), []));
    hide ReadN, Frame;
    assert Frame(inner) + [] == Frame(inner) && f + [] == f;
    AnnouncedFrame(Message(Frame(inner), ts), []);
    ShiftedRecv(h, s, s1, cap);
    RecvOne(h, inner, [], [], cap);
    RecvTwice(h, s, cap);
  }

  lemma {:induction false} ShiftedRecv(h: Host, s: Stream, s1: Stream, cap: nat)
    requires |s.data| >= MSG_HEADER_SIZE && ReadN(s, MSG_HEADER_SIZE) == Got(16, s.data[..16], s1)
    requires Announced(s.data) <= cap && ReadN(s1, Announced(s.data)).code == -1
    ensures var g := ReadN(s1, Announced(s.data)); Recv(h, s, cap) == Got(ERR_IO, [], g.rest)
  {
    hide ReadN, HeaderDecode, LoadHeader, WireHeader, Announced;
    var d := HeaderDecode(h, LoadHeader(h, s.data[..16]));
    HeaderIsOnto(h, s.data[..16]);
    AnnouncedHeader(d.kind, d.len, d.timestamp, s.data[16..]);
    assert s.data == s.data[..16] + s.data[16..];
  }

  lemma {:induction false} RecvTwice(h: Host, s: Stream, cap: nat)
    ensures var g := Recv(h, s, cap); var g' := Recv(h, g.rest, cap);
      RecvAll(h, s, cap, 2) == [Arrival(g.code, g.data), Arrival(g'.code, g'.data)]
  {
    hide Recv;
    var g := Recv(h, s, cap);
    assert RecvAll(h, g.rest, cap, 1)[1..] == RecvAll(h, Recv(h, g.rest, cap).rest, cap, 0);
  }
}
