/** The receiving half of an endpoint: ikcp_parse_data, ikcp_peeksize and ikcp_recv as functions on `Rcv`. */
module Receive {
  import opened Serial
  import opened Types

  /** Numbers of rcv_buf: strictly increasing, inside [base, base + lim). */
  ghost predicate Ascending(m: Arith, base: nat, lim: int, buf: seq<Part>) {
    && (forall i :: 0 <= i < |buf| ==> Num(m, buf[i].sn) && 0 <= Off(m, buf[i].sn, base) < lim)
    && (forall i, j :: 0 <= i < j < |buf| ==> Off(m, buf[i].sn, base) < Off(m, buf[j].sn, base))
  }

  /** rcv_queue holds the numbers just below rcv_nxt, in order. */
  ghost predicate Consecutive(m: Arith, nxt: nat, queue: seq<Part>) {
    forall i :: 0 <= i < |queue| ==> Num(m, queue[i].sn) && Off(m, nxt, queue[i].sn) == |queue| - i
  }

  ghost predicate RcvBase(m: Arith, wnd: nat, r: Rcv) {
    && Num(m, r.nxt) && |r.queue| <= wnd <= 65535
    && Consecutive(m, r.nxt, r.queue)
    && Ascending(m, r.nxt, wnd, r.buf)
    && forall i :: 0 <= i < |r.acks| ==> Num(m, r.acks[i].sn)
  }

  /** Whatever can move from rcv_buf to rcv_queue has moved. */
  predicate Drained(wnd: nat, r: Rcv) {
    |r.queue| < wnd && r.buf != [] ==> r.buf[0].sn != r.nxt
  }

  ghost predicate RcvOk(m: Arith, wnd: nat, r: Rcv) {
    RcvBase(m, wnd, r) && Drained(wnd, r)
  }

  /** The backward search of ikcp_parse_data for the place of a new segment; a repeated one is dropped. */
  function Insert(m: Arith, buf: seq<Part>, p: Part): seq<Part> {
    if buf == [] then [p]
    else
      var last := buf[|buf| - 1];
      if last.sn == p.sn then buf
      else if Diff(m, p.sn, last.sn) > 0 then buf + [p]
      else Insert(m, buf[..|buf| - 1], p) + [last]
  }

  /** "move available data from rcv_buf -> rcv_queue". */
  function MoveReady(m: Arith, wnd: nat, r: Rcv): Rcv
    decreases |r.buf|
  {
    if r.buf != [] && r.buf[0].sn == r.nxt && |r.queue| < wnd then
      MoveReady(m, wnd, r.(nxt := Add(m, r.nxt, 1), queue := r.queue + [r.buf[0]], buf := r.buf[1..]))
    else r
  }

  predicate InWindow(m: Arith, wnd: nat, r: Rcv, sn: nat) {
    Diff(m, sn, Add(m, r.nxt, wnd)) < 0 && Diff(m, sn, r.nxt) >= 0
  }

  /** ikcp_parse_data. */
  function ParseData(m: Arith, wnd: nat, r: Rcv, p: Part): Rcv {
    if InWindow(m, wnd, r, p.sn) then MoveReady(m, wnd, r.(buf := Insert(m, r.buf, p))) else r
  }

  /** How many segments the merge loop of ikcp_recv takes. */
  function MergeCount(queue: seq<Part>): (n: nat)
    ensures n <= |queue|
    ensures queue != [] ==> n > 0
  {
    if queue == [] then 0 else if queue[0].frg == 0 then 1 else 1 + MergeCount(queue[1..])
  }

  /** The bytes the merge loop copies out. */
  function Merged(queue: seq<Part>): bytes {
    Join(Frags(queue[..MergeCount(queue)]))
  }

  /** ikcp_peeksize. */
  function PeekSize(queue: seq<Part>): int {
    if queue == [] then -1
    else if queue[0].frg == 0 then |queue[0].data|
    else if |queue| < queue[0].frg + 1 then -1
    else |Merged(queue)|
  }

  datatype RecvResult = RecvResult(rcv: Rcv, code: int, data: bytes, tell: bool)

  /** ikcp_recv; a negative length asks for a peek.  `tell` is set when IKCP_ASK_TELL is raised. */
  function Recv(m: Arith, wnd: nat, r: Rcv, len: int): RecvResult {
    var size := PeekSize(r.queue);
    if r.queue == [] then RecvResult(r, -1, [], false)
    else if size < 0 then RecvResult(r, -2, [], false)
    else if size > (if len < 0 then -len else len) then RecvResult(r, -3, [], false)
    else
      var r1 := if len < 0 then r else r.(queue := r.queue[MergeCount(r.queue)..]);
      var r2 := MoveReady(m, wnd, r1);
      RecvResult(r2, size, Merged(r.queue), |r2.queue| < wnd && |r.queue| >= wnd)
  }

  /** ikcp_wnd_unused. */
  function Unused(wnd: nat, r: Rcv): nat {
    if |r.queue| < wnd then wnd - |r.queue| else 0
  }

  // ----- what the operations keep

  ghost predicate Has(buf: seq<Part>, sn: nat) {
    exists i :: 0 <= i < |buf| && buf[i].sn == sn
  }

  /** Insertion adds nothing but p and loses nothing. */
  lemma {:induction false} InsertMembers(m: Arith, buf: seq<Part>, p: Part)
    ensures forall x :: x in Insert(m, buf, p) ==> x in buf || x == p
    ensures forall x :: x in buf ==> x in Insert(m, buf, p)
    ensures |buf| <= |Insert(m, buf, p)| <= |buf| + 1
    ensures Has(Insert(m, buf, p), p.sn)
  {
    var ins := Insert(m, buf, p);
    if buf == [] {
      assert ins[0].sn == p.sn;
    } else {
      var n := |buf| - 1;
      assert buf == buf[..n] + [buf[n]];
      if buf[n].sn == p.sn {
      } else if Diff(m, p.sn, buf[n].sn) > 0 {
        assert ins[n + 1].sn == p.sn;
      } else {
        InsertMembers(m, buf[..n], p);
        var front := Insert(m, buf[..n], p);
        var i :| 0 <= i < |front| && front[i].sn == p.sn;
        assert ins[i].sn == p.sn;
      }
    }
  }

  lemma {:induction false} AscendingSnoc(m: Arith, base: nat, lim: nat, buf: seq<Part>, p: Part)
    requires Ascending(m, base, lim, buf)
    requires Num(m, p.sn) && 0 <= Off(m, p.sn, base) < lim
    requires forall x :: x in buf ==> Off(m, x.sn, base) < Off(m, p.sn, base)
    ensures Ascending(m, base, lim, buf + [p])
  {
  }

  /** Insertion keeps the order. */
  lemma {:induction false} InsertLast(m: Arith, buf: seq<Part>, p: Part)
    requires buf != []
    ensures var n := |buf| - 1;
      Insert(m, buf, p) == if buf[n].sn == p.sn then buf
                           else if Diff(m, p.sn, buf[n].sn) > 0 then buf + [p]
                           else Insert(m, buf[..n], p) + [buf[n]]
  {
  }

  lemma {:induction false} AscendingFront(m: Arith, base: nat, lim: nat, buf: seq<Part>)
    requires Ascending(m, base, lim, buf) && buf != []
    ensures var n := |buf| - 1;
      && Ascending(m, base, lim, buf[..n]) && Num(m, buf[n].sn) && 0 <= Off(m, buf[n].sn, base) < lim
      && (forall x :: x in buf ==> Off(m, x.sn, base) <= Off(m, buf[n].sn, base))
      && (forall x :: x in buf[..n] ==> Off(m, x.sn, base) < Off(m, buf[n].sn, base))
  {
    hide Off, Num;
  }

  lemma {:induction false} InsertAscending(m: Arith, base: nat, lim: nat, buf: seq<Part>, p: Part)
    requires Ascending(m, base, lim, buf) && lim <= 65535
    requires Num(m, p.sn) && 0 <= Off(m, p.sn, base) < lim
    ensures Ascending(m, base, lim, Insert(m, buf, p))
  {
    hide Off, Diff, Num;
    if buf != [] {
      var n := |buf| - 1;
      var last := buf[n];
      Compare(m, p.sn, last.sn, base);
      InsertLast(m, buf, p);
      AscendingFront(m, base, lim, buf);
      hide Insert, Ascending;
      if last.sn == p.sn {
      } else if Diff(m, p.sn, last.sn) > 0 {
        AscendingSnoc(m, base, lim, buf, p);
      } else {
        InsertAscending(m, base, lim, buf[..n], p);
        InsertMembers(m, buf[..n], p);
        AscendingSnoc(m, base, lim, Insert(m, buf[..n], p), last);
      }
    }
  }

  /** A repeated segment changes nothing. */
  lemma {:induction false} InsertRepeat(m: Arith, base: nat, lim: nat, buf: seq<Part>, p: Part, k: nat)
    requires Ascending(m, base, lim, buf) && lim <= 65535
    requires k < |buf| && buf[k].sn == p.sn
    ensures Insert(m, buf, p) == buf
  {
    hide Off, Diff, Num;
    var n := |buf| - 1;
    if k < n {
      Compare(m, p.sn, buf[n].sn, base);
      InsertRepeat(m, base, lim, buf[..n], p, k);
      assert buf[..n] + [buf[n]] == buf;
    }
  }

  /** Moving ready segments restores the invariant; it only shifts the boundary between queue and buffer. */
  lemma {:induction false} MoveReadyOk(m: Arith, wnd: nat, r: Rcv)
    requires RcvBase(m, wnd, r)
    ensures var r' := MoveReady(m, wnd, r);
      && RcvOk(m, wnd, r') && r.queue <= r'.queue && r'.acks == r.acks
      && r'.queue + r'.buf == r.queue + r.buf
      && Off(m, r'.nxt, r.nxt) == |r'.queue| - |r.queue|
    decreases |r.buf|
  {
    if r.buf != [] && r.buf[0].sn == r.nxt && |r.queue| < wnd {
      var r1 := r.(nxt := Add(m, r.nxt, 1), queue := r.queue + [r.buf[0]], buf := r.buf[1..]);
      StepBase(m, wnd, r, r1);
      MoveReadyOk(m, wnd, r1);
      var r' := MoveReady(m, wnd, r1);
      assert r'.queue + r'.buf == r1.queue + r1.buf == r.queue + r.buf;
      OffOfAdd(m, r.nxt, 1);
      OffSum(m, r.nxt, r1.nxt, r'.nxt);
    }
  }

  /** Distances add up. */
  lemma {:induction false} OffSum(m: Arith, a: nat, b: nat, c: nat)
    requires 0 <= Off(m, b, a) <= 65535 && 0 <= Off(m, c, b) <= 65535
    ensures Off(m, c, a) == Off(m, b, a) + Off(m, c, b)
  {
    if m.Wrap? {
      assert b - a == MOD * ((b - a) / MOD) + Off(m, b, a);
      assert c - b == MOD * ((c - b) / MOD) + Off(m, c, b);
      ModShift(Off(m, b, a) + Off(m, c, b), (b - a) / MOD + (c - b) / MOD);
    }
  }

  lemma {:induction false} StepBase(m: Arith, wnd: nat, r: Rcv, r1: Rcv)
    requires RcvBase(m, wnd, r) && r.buf != [] && r.buf[0].sn == r.nxt && |r.queue| < wnd
    requires r1 == r.(nxt := Add(m, r.nxt, 1), queue := r.queue + [r.buf[0]], buf := r.buf[1..])
    ensures RcvBase(m, wnd, r1)
  {
    OffOfAdd(m, r.nxt, 1);
    OffOfAdd(m, r.nxt, 0);
    forall i | 0 <= i < |r1.buf|
      ensures Num(m, r1.buf[i].sn) && 0 <= Off(m, r1.buf[i].sn, r1.nxt) < wnd
      ensures Off(m, r1.buf[i].sn, r1.nxt) == Off(m, r1.buf[i].sn, r.nxt) - 1
    {
      assert r1.buf[i] == r.buf[i + 1];
      assert Off(m, r.buf[0].sn, r.nxt) < Off(m, r.buf[i + 1].sn, r.nxt);
      Rebase(m, r1.buf[i].sn, r.nxt, r1.nxt);
    }
    forall i | 0 <= i < |r1.queue|
      ensures Num(m, r1.queue[i].sn) && Off(m, r1.nxt, r1.queue[i].sn) == |r1.queue| - i
    {
      if i < |r.queue| {
        assert r1.queue[i] == r.queue[i];
        OffSum(m, r.queue[i].sn, r.nxt, r1.nxt);
      }
    }
  }

  /** ikcp_parse_data keeps the invariant whatever arrives. */
  lemma {:induction false} ParseDataOk(m: Arith, wnd: nat, r: Rcv, p: Part)
    requires RcvOk(m, wnd, r) && Num(m, p.sn)
    ensures RcvOk(m, wnd, ParseData(m, wnd, r, p))
  {
    if InWindow(m, wnd, r, p.sn) {
      InWindowOffset(m, wnd, r.nxt, p.sn);
      InsertAscending(m, r.nxt, wnd, r.buf, p);
      MoveReadyOk(m, wnd, r.(buf := Insert(m, r.buf, p)));
    }
  }

  /** The two comparisons of ikcp_parse_data accept exactly the numbers of the receive window. */
  lemma {:induction false} InWindowOffset(m: Arith, wnd: nat, nxt: nat, sn: nat)
    requires Num(m, nxt) && Num(m, sn) && wnd <= 65535
    ensures Diff(m, sn, Add(m, nxt, wnd)) < 0 && Diff(m, sn, nxt) >= 0 <==> 0 <= Off(m, sn, nxt) < wnd
  {
    OffOfAdd(m, nxt, wnd);
    OffOfAdd(m, nxt, 0);
    var d := Off(m, sn, nxt);
    if 0 <= d < HALF {
      DiffIsOffset(m, sn, Add(m, nxt, wnd), nxt);
      DiffIsOffset(m, sn, nxt, nxt);
    }
  }

  /** ikcp_recv keeps the invariant for every queue content and every length. */
  lemma {:induction false} RecvOk(m: Arith, wnd: nat, r: Rcv, len: int)
    requires RcvOk(m, wnd, r)
    ensures RcvOk(m, wnd, Recv(m, wnd, r, len).rcv)
  {
    var res := Recv(m, wnd, r, len);
    if res.code >= 0 {
      var c := MergeCount(r.queue);
      var r1 := if len < 0 then r else r.(queue := r.queue[c..]);
      if len >= 0 {
        assert forall i :: 0 <= i < |r1.queue| ==> r1.queue[i] == r.queue[c + i];
      }
      MoveReadyOk(m, wnd, r1);
    }
  }

  /** The length ikcp_peeksize announces is the number of bytes ikcp_recv merges, for any queue content: the
      assertion inside ikcp_recv never fires. */
  lemma {:induction false} PeekSizeIsMerged(queue: seq<Part>)
    ensures PeekSize(queue) >= 0 ==> PeekSize(queue) == |Merged(queue)|
  {
    if queue != [] && queue[0].frg == 0 {
      var fs := Frags(queue[..1]);
      assert Join(fs) == Join(fs[..0]) + fs[0].data == queue[0].data;
    }
  }

  /** Strictly increasing numbers in a window of lim are at most lim many. */
  lemma {:induction false} AscendingFits(m: Arith, base: nat, lim: int, buf: seq<Part>)
    requires Ascending(m, base, lim, buf) && 0 <= lim
    ensures |buf| <= lim
  {
    if buf != [] {
      var n := |buf| - 1;
      AscendingFits(m, base, Off(m, buf[n].sn, base), buf[..n]);
    }
  }

  // ----- exactly what ikcp_recv does

  /** The first c segments are the first message: up to the first with frg 0, or all there are. */
  predicate FirstMessage(queue: seq<Part>, c: nat) {
    && c <= |queue| && (queue != [] ==> c > 0)
    && (forall i :: 0 <= i < c - 1 ==> queue[i].frg > 0)
    && (c < |queue| ==> c > 0 && queue[c - 1].frg == 0)
  }

  lemma {:induction false} MergeIsFirst(queue: seq<Part>)
    ensures FirstMessage(queue, MergeCount(queue))
  {
    if queue != [] && queue[0].frg != 0 { MergeIsFirst(queue[1..]); }
  }

  /** Why it fails: nothing there, the message not whole yet, or the buffer too small for its bytes. */
  function RecvCode(queue: seq<Part>, c: nat, len: int): int
    requires c <= |queue|
  {
    if queue == [] then -1
    else if |queue| <= queue[0].frg then -2
    else if |Join(Frags(queue[..c]))| > Max(len, -len) then -3
    else |Join(Frags(queue[..c]))|
  }

  /** ikcp_recv takes the first message as a whole, unless it only peeks, or fails and changes nothing.  It asks to tell
      the peer exactly when a window that was shut opens. */
  lemma {:induction false} RecvLaw(m: Arith, wnd: nat, r: Rcv, len: int) returns (c: nat)
    requires RcvOk(m, wnd, r)
    ensures FirstMessage(r.queue, c)
    ensures var x := Recv(m, wnd, r, len);
      && x.code == RecvCode(r.queue, c, len) && (x.tell <==> Unused(wnd, r) == 0 < Unused(wnd, x.rcv))
      && (x.code < 0 ==> x.rcv == r && x.data == [])
      && (x.code >= 0 ==>
            && x.data == Join(Frags(r.queue[..c])) && x.rcv.acks == r.acks
            && x.rcv.queue + x.rcv.buf == (if len < 0 then r.queue else r.queue[c..]) + r.buf)
  {
    c := MergeCount(r.queue);
    MergeIsFirst(r.queue);
    PeekSizeIsMerged(r.queue);
    var x := Recv(m, wnd, r, len);
    if x.code >= 0 {
      var r1 := if len < 0 then r else r.(queue := r.queue[c..]);
      if len >= 0 {
        assert forall i :: 0 <= i < |r1.queue| ==> r1.queue[i] == r.queue[c + i];
      }
      MoveReadyOk(m, wnd, r1);
    }
    hide MoveReady, Off, MergeCount, Ascending;
  }
}
