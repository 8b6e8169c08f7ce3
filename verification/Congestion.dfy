/** Congestion control: the tail of ikcp_input and the tail of ikcp_flush, with their uint32 arithmetic. */
module Congestion {
  import opened Serial
  import opened Types

  /** cwnd counts segments, incr counts bytes; ikcp.c keeps both and they must not drift apart. */
  predicate CcOk(cc: Cc, mss: nat) {
    && CcWindow(cc, mss)
    && cc.cwnd <= 65535
    && THRESH_MIN <= cc.ssthresh <= 32767
  }

  function Quot(a: nat, b: nat): nat
    requires b > 0
  {
    a / b
  }

  /** Congestion avoidance, the branch of ikcp_input behind slow start. */
  function Grow(cc: Cc, mss: nat): Cc
    requires mss > 0
  {
    var i0 := if cc.incr < mss then U32(mss) else cc.incr;
    var i1 := if i0 == 0 then i0 else U32(i0 + Quot(U32(mss * mss), i0) + mss / 16);
    var w := if U32(U32(cc.cwnd + 1) * mss) <= i1 then U32(Quot(U32(i1 + mss - 1), mss)) else cc.cwnd;
    cc.(cwnd := w, incr := i1)
  }

  /** The end of ikcp_input, run when snd_una advanced. */
  function OnAck(cc: Cc, rmtWnd: nat, mss: nat): Cc
    requires mss > 0
  {
    if cc.cwnd >= rmtWnd then cc
    else
      var c1 := if cc.cwnd < cc.ssthresh then cc.(cwnd := U32(cc.cwnd + 1), incr := U32(cc.incr + mss))
                else Grow(cc, mss);
      if c1.cwnd > rmtWnd then c1.(cwnd := U32(rmtWnd), incr := U32(rmtWnd * mss)) else c1
  }

  function ThreshFor(window: nat): u32 {
    U32(Max(window / 2, THRESH_MIN))
  }

  function OnFastResend(cc: Cc, inflight: u32, resent: u32, mss: nat): Cc {
    var w := U32(ThreshFor(inflight) + resent);
    Cc(w, U32(w * mss), ThreshFor(inflight))
  }

  function OnLoss(cwnd: u32, mss: nat): Cc {
    Cc(1, U32(mss), ThreshFor(cwnd))
  }

  /** The end of ikcp_flush. */
  function AfterFlush(cc: Cc, change: bool, lost: bool, inflight: u32, resent: u32, cwnd: u32, mss: nat): Cc {
    var c1 := if change then OnFastResend(cc, inflight, resent, mss) else cc;
    var c2 := if lost then OnLoss(cwnd, mss) else c1;
    if c2.cwnd < 1 then c2.(cwnd := 1, incr := U32(mss)) else c2
  }

  // ----- arithmetic

  lemma {:induction false} Distribute(w: int, d: int, k: int)
    ensures (w + d) * k == w * k + d * k
  {
  }

  /** Products of a window and a segment size stay below 2^32. */
  lemma {:induction false} ProductFits(w: nat, mss: nat)
    requires w <= 65538 && mss <= 65511
    ensures 0 <= w * mss < MOD && U32(w * mss) == w * mss
  {
    MulMono(w, 65538, mss);
  }

  lemma {:induction false} QuotBound(a: nat, b: nat)
    requires b > 0
    ensures Quot(a, b) * b <= a < Quot(a, b) * b + b
  {
    assert a == b * (a / b) + a % b;
  }

  /** A product bounds its factor. */
  lemma {:induction false} FactorLess(q: nat, i: nat, k: nat, mss: nat)
    requires q * i <= k * mss && mss < i && mss > 0
    ensures q < k || q == k == 0
  {
    if q >= k && q > 0 {
      MulMono(k, q, i);
      if k > 0 { MulMono(mss + 1, i, k); }
    }
  }

  /** Rounding up to whole segments. */
  lemma {:induction false} Ceiling(i: nat, mss: nat)
    requires mss > 0
    ensures Quot(i + mss - 1, mss) * mss - mss < i <= Quot(i + mss - 1, mss) * mss
  {
    QuotBound(i + mss - 1, mss);
  }

  /** The division of congestion avoidance adds less than one segment, and at most half of one from two on. */
  lemma {:induction false} Increment(i: nat, mss: nat)
    requires 0 < mss < i
    ensures Quot(mss * mss, i) < mss
    ensures 2 * mss <= i ==> 2 * Quot(mss * mss, i) <= mss
  {
    hide Quot;
    var q := Quot(mss * mss, i);
    QuotBound(mss * mss, i);
    FactorLess(q, i, mss, mss);
    if 2 * mss <= i { HalfProduct(q, i, mss); }
  }

  lemma {:induction false} HalfProduct(q: nat, i: nat, mss: nat)
    requires q * i <= mss * mss && 2 * mss <= i && mss > 0
    ensures 2 * q <= mss
  {
    MulMono(2 * mss, i, q);
    if 2 * q > mss { MulMono(mss + 1, 2 * q, mss); }
  }

  /** Congestion avoidance on numbers, given the new byte count. */
  lemma {:induction false} AvoidanceWindow(w: nat, i1: nat, mss: nat)
    requires mss > 0 && w * mss - mss < i1 <= w * mss + 2 * mss
    ensures var c := if w * mss + mss <= i1 then Quot(i1 + mss - 1, mss) else w;
      && w <= c <= w + 2 && c * mss - mss < i1 < c * mss + mss
  {
    hide Quot;
    if w * mss + mss <= i1 {
      Ceiling(i1, mss);
      var c := Quot(i1 + mss - 1, mss);
      if c > w + 2 { MulMono(w + 3, c, mss); Distribute(w, 3, mss); assert false; }
      if c < w { MulMono(c, w, mss); assert false; }
    }
  }

  /** The new byte count on numbers. */
  lemma {:induction false} AvoidanceBytes(w: nat, incr: nat, mss: nat) returns (i1: nat)
    requires mss > 0 && w >= 2 && w * mss - mss < incr < w * mss + mss
    ensures incr > mss && i1 == incr + Quot(mss * mss, incr) + mss / 16
    ensures incr <= i1 <= w * mss + 2 * mss
  {
    hide Quot;
    Distribute(w - 2, 2, mss);
    MulMono(0, w - 2, mss);
    Increment(incr, mss);
    i1 := incr + Quot(mss * mss, incr) + mss / 16;
  }

  lemma {:induction false} Small(x: nat)
    requires x < MOD
    ensures U32(x) == x
  {
  }

  /** Where nothing exceeds 2^32 the uint32 computation of congestion avoidance is the one on numbers. */
  lemma {:induction false} GrowExact(cc: Cc, mss: nat, i1: nat)
    requires 0 < mss < cc.incr && mss * mss < MOD && cc.cwnd + 1 < MOD && (cc.cwnd + 1) * mss < MOD
    requires i1 == cc.incr + Quot(mss * mss, cc.incr) + mss / 16 && i1 + mss - 1 < MOD
    requires Quot(i1 + mss - 1, mss) < MOD
    ensures Grow(cc, mss) == cc.(incr := i1,
              cwnd := if (cc.cwnd + 1) * mss <= i1 then Quot(i1 + mss - 1, mss) else cc.cwnd)
  {
    hide Quot, U32;
    Small(mss * mss);
    Small(i1);
    Small(cc.cwnd + 1);
    Small((cc.cwnd + 1) * mss);
    Small(i1 + mss - 1);
    Small(Quot(i1 + mss - 1, mss));
  }

  /** Congestion avoidance never overflows in any product or sum, and keeps cwnd and incr together. */
  lemma {:induction false} GrowOk(cc: Cc, mss: nat)
    requires 26 <= mss <= 65511 && CcOk(cc, mss) && cc.ssthresh <= cc.cwnd <= 65534
    ensures cc.incr > mss
    ensures Grow(cc, mss).incr == cc.incr + Quot(mss * mss, cc.incr) + mss / 16
    ensures mss * mss < MOD && (cc.cwnd + 1) * mss < MOD && Grow(cc, mss).incr + mss - 1 < MOD
    ensures cc.cwnd <= Grow(cc, mss).cwnd <= cc.cwnd + 2
    ensures CcWindow(Grow(cc, mss), mss) && Grow(cc, mss).ssthresh == cc.ssthresh
  {
    hide Quot, U32;
    var w := cc.cwnd;
    var i1 := AvoidanceBytes(w, cc.incr, mss);
    ProductFits(mss, mss);
    ProductFits(w + 1, mss);
    ProductFits(w + 3, mss);
    Distribute(w, 3, mss);
    Distribute(w, 1, mss);
    AvoidanceWindow(w, i1, mss);
    QuotSmall(i1 + mss - 1, mss);
    GrowExact(cc, mss, i1);
  }

  lemma {:induction false} QuotSmall(a: nat, b: nat)
    requires b > 0
    ensures Quot(a, b) <= a
  {
    QuotBound(a, b);
    if Quot(a, b) > a { MulMono(1, b, Quot(a, b)); }
  }

  predicate CcWindow(cc: Cc, mss: nat) {
    cc.cwnd * mss - mss < cc.incr < cc.cwnd * mss + mss
  }

  /** One ikcp_input never lowers cwnd, raises it by at most 2, never passes the peer's window, and keeps cwnd and
      incr together. */
  lemma {:induction false} OnAckOk(cc: Cc, rmtWnd: nat, mss: nat)
    requires 26 <= mss <= 65511 && rmtWnd <= 65535 && CcOk(cc, mss)
    ensures CcOk(OnAck(cc, rmtWnd, mss), mss)
    ensures cc.cwnd <= OnAck(cc, rmtWnd, mss).cwnd <= cc.cwnd + 2
    ensures OnAck(cc, rmtWnd, mss).cwnd <= Max(cc.cwnd, rmtWnd)
  {
    hide Grow, Quot, CcWindow, U32;
    if cc.cwnd < rmtWnd {
      if cc.cwnd < cc.ssthresh {
        SlowStartOk(cc, mss);
      } else {
        GrowOk(cc, mss);
      }
      CapOk(cc, rmtWnd, mss);
    }
  }

  lemma {:induction false} CapOk(cc: Cc, rmtWnd: nat, mss: nat)
    requires 26 <= mss <= 65511 && rmtWnd <= 65535
    ensures U32(rmtWnd) == rmtWnd
    ensures forall c: Cc :: CcWindow(c.(cwnd := U32(rmtWnd), incr := U32(rmtWnd * mss)), mss)
  {
    ProductFits(rmtWnd, mss);
  }

  lemma {:induction false} SlowStartOk(cc: Cc, mss: nat)
    requires 26 <= mss <= 65511 && CcOk(cc, mss) && cc.cwnd < cc.ssthresh
    ensures U32(cc.cwnd + 1) == cc.cwnd + 1 && U32(cc.incr + mss) == cc.incr + mss
    ensures CcWindow(cc.(cwnd := U32(cc.cwnd + 1), incr := U32(cc.incr + mss)), mss)
  {
    ProductFits(cc.cwnd + 2, mss);
    Distribute(cc.cwnd, 1, mss);
    Distribute(cc.cwnd, 2, mss);
  }

  /** What ikcp_flush does to the window also keeps cwnd and incr together; with fast resend enabled nothing
      overflows there either. */
  lemma {:induction false} AfterFlushOk(cc: Cc, change: bool, lost: bool, inflight: u32, resent: u32, cwnd: u32,
                                        mss: nat)
    requires 26 <= mss <= 65511 && CcOk(cc, mss) && inflight <= 65535 && cwnd <= 65535
    requires 1 <= resent <= 32767 || resent == MOD - 1
    ensures CcOk(AfterFlush(cc, change, lost, inflight, resent, cwnd, mss), mss)
    ensures AfterFlush(cc, change, lost, inflight, resent, cwnd, mss).cwnd >= 1
    ensures change && resent <= 32767 ==>
      var c := OnFastResend(cc, inflight, resent, mss);
      c.cwnd == Max(inflight / 2, 2) + resent && c.incr == c.cwnd * mss
  {
    if change {
      var w := OnFastResend(cc, inflight, resent, mss).cwnd;
      FastResendWindow(inflight, resent);
      ProductFits(w, mss);
    }
  }

  /** Any resend limit: a fast resend keeps cwnd and incr together if and only if the product does not overflow. */
  lemma {:induction false} FastResendExact(cc: Cc, inflight: u32, resent: u32, mss: nat)
    requires 26 <= mss <= 65511 && inflight <= 65535 && 1 <= resent < HALF
    ensures CcWindow(OnFastResend(cc, inflight, resent, mss), mss)
      <==> (Max(inflight / 2, 2) + resent) * mss < MOD
  {
    var w := Max(inflight / 2, 2) + resent;
    assert ThreshFor(inflight) == Max(inflight / 2, 2) && U32(w) == w;
    hide ThreshFor;
    var x, q := w * mss, w * mss / MOD;
    assert x >= 0 && x == MOD * q + U32(x);
  }

  lemma {:induction false} FastResendWindow(inflight: u32, resent: u32)
    requires inflight <= 65535
    requires 1 <= resent <= 32767 || resent == MOD - 1
    ensures 2 <= ThreshFor(inflight) == Max(inflight / 2, 2) <= 32767
    ensures U32(ThreshFor(inflight) + resent) ==
            if resent <= 32767 then ThreshFor(inflight) + resent else ThreshFor(inflight) - 1
  {
  }

  // ----- exactly what they do

  predicate CcIs(cc: Cc, cwnd: int, incr: int, ssthresh: int) {
    cc.cwnd == cwnd && cc.incr == incr && cc.ssthresh == ssthresh
  }

  /** Congestion avoidance on numbers: incr grows by mss^2 / incr + mss / 16, and cwnd becomes the least number of whole
      segments that hold it, once it has reached the next one. */
  predicate Avoided(cc: Cc, cc': Cc, mss: nat) {
    && cc.incr > 0 && cc'.incr == cc.incr + mss * mss / cc.incr + mss / 16 && cc'.ssthresh == cc.ssthresh
    && if cc'.incr < (cc.cwnd + 1) * mss then cc'.cwnd == cc.cwnd
       else (cc'.cwnd - 1) * mss < cc'.incr <= cc'.cwnd * mss
  }

  lemma {:induction false} QuotIs(a: nat, b: nat)
    requires b > 0
    ensures Quot(a, b) == a / b
  {
  }

  lemma {:induction false} WholeSegments(cc: Cc, c: Cc, mss: nat, i1: nat)
    requires mss > 0 && cc.incr > 0 && i1 == cc.incr + Quot(mss * mss, cc.incr) + mss / 16
    requires c.incr == i1 && c.ssthresh == cc.ssthresh
    requires c.cwnd == if (cc.cwnd + 1) * mss <= i1 then Quot(i1 + mss - 1, mss) else cc.cwnd
    ensures Avoided(cc, c, mss)
  {
    QuotIs(mss * mss, cc.incr);
    Ceiling(i1, mss);
    hide Quot;
    assert (c.cwnd - 1) * mss == c.cwnd * mss - mss;
  }

  lemma {:induction false} GrowExactly(cc: Cc, mss: nat)
    requires 26 <= mss <= 65511 && CcOk(cc, mss) && cc.ssthresh <= cc.cwnd <= 65534
    ensures Avoided(cc, Grow(cc, mss), mss)
  {
    hide U32, Quot, Avoided;
    GrowOk(cc, mss);
    hide CcOk, CcWindow;
    var i1 := cc.incr + Quot(mss * mss, cc.incr) + mss / 16;
    QuotSmall(i1 + mss - 1, mss);
    GrowExact(cc, mss, i1);
    hide Grow;
    WholeSegments(cc, Grow(cc, mss), mss, i1);
  }

  /** The peer's window as the limit. */
  predicate Limited(cc: Cc, c: Cc, rmtWnd: nat, mss: nat) {
    if c.cwnd <= rmtWnd then cc == c else CcIs(cc, rmtWnd, rmtWnd * mss, c.ssthresh)
  }

  /** What an acknowledgement that moves snd_una does to the window: one segment more in slow start, congestion
      avoidance behind it, and the peer's window as the limit of both. */
  lemma {:induction false} OnAckLaw(cc: Cc, rmtWnd: nat, mss: nat)
    requires 26 <= mss <= 65511 && rmtWnd <= 65535 && CcOk(cc, mss)
    ensures var r := OnAck(cc, rmtWnd, mss);
      if cc.cwnd >= rmtWnd then r == cc
      else if cc.cwnd < cc.ssthresh then CcIs(r, cc.cwnd + 1, cc.incr + mss, cc.ssthresh)
      else exists c: Cc :: Avoided(cc, c, mss) && Limited(r, c, rmtWnd, mss)
  {
    hide Grow, Quot, CcWindow, U32, Avoided;
    if cc.cwnd < rmtWnd {
      ProductFits(rmtWnd, mss);
      CapOk(cc, rmtWnd, mss);
      if cc.cwnd < cc.ssthresh {
        SlowStartOk(cc, mss);
      } else {
        GrowExactly(cc, mss);
        GrowOk(cc, mss);
        var c := Grow(cc, mss);
        assert Avoided(cc, c, mss);
      }
    }
  }

  /** What ikcp_flush does to the window: a timeout takes it down to one segment and ssthresh to half of what could be
      sent; a fast resend without one takes ssthresh to half of what is in flight and cwnd that much above it; otherwise
      it stays, but never below one segment. */
  lemma {:induction false} AfterFlushLaw(cc: Cc, change: bool, lost: bool, inflight: u32, resent: u32, cwnd: u32,
                                         mss: nat)
    requires mss <= 65511 && inflight <= 65535 && cwnd <= 65535
    ensures var r := AfterFlush(cc, change, lost, inflight, resent, cwnd, mss);
      if lost then CcIs(r, 1, mss, Max(cwnd / 2, THRESH_MIN))
      else if change then
        1 <= resent <= 32767 ==>
          var half := Max(inflight / 2, THRESH_MIN); CcIs(r, half + resent, (half + resent) * mss, half)
      else if cc.cwnd >= 1 then r == cc else CcIs(r, 1, mss, cc.ssthresh)
  {
    if change && 1 <= resent <= 32767 {
      FastResendWindow(inflight, resent);
      ProductFits(Max(inflight / 2, THRESH_MIN) + resent, mss);
    }
  }
}
