/** Round-trip estimation (ikcp_update_ack) and the retransmission decision of ikcp_flush. */
module Timers {
  import opened Serial
  import opened Types

  function Abs(x: int): nat {
    if x < 0 then -x else x
  }

  /** ikcp_update_ack on a sample that is not negative. */
  function UpdateAck(r: Rtt, interval: nat, minrto: nat, sample: nat): Rtt {
    var srtt := if r.srtt == 0 then sample else Max((7 * r.srtt + sample) / 8, 1);
    var rttval := if r.srtt == 0 then sample / 2 else (3 * r.rttval + Abs(sample - r.srtt)) / 4;
    var rto := U32(srtt + Max(interval, U32(4 * rttval)));
    Rtt(srtt, rttval, U32(Min(Max(minrto, rto), RTO_MAX)))
  }

  predicate RttOk(r: Rtt, minrto: nat) {
    minrto <= r.rto <= RTO_MAX && 0 <= r.srtt && 0 <= r.rttval
  }

  /** What the passes of ikcp_flush over snd_buf share. */
  datatype Ctx = Ctx(current: u32, rto: u32, nodelay: nat, resent: u32, fastlimit: int)

  function MakeCtx(k: Kcb): Ctx {
    Ctx(k.clk.current, k.rtt.rto, k.cfg.nodelay,
        if k.cfg.fastresend > 0 then U32(k.cfg.fastresend) else 0xffff_ffff, k.cfg.fastlimit)
  }

  datatype Reason = Idle | First | Timeout | Fast

  /** Why, if at all, a segment is sent in this flush. */
  function Decide(c: Ctx, f: Flight): Reason {
    if f.xmit == 0 then First
    else if TimeDiff(c.current, f.resendts) >= 0 then Timeout
    else if f.fastack >= c.resent && (S32(f.xmit) <= c.fastlimit || c.fastlimit <= 0) then Fast
    else Idle
  }

  /** C division of an int by two. */
  function Half(x: int): int {
    if x >= 0 then x / 2 else -((-x) / 2)
  }

  function Backoff(c: Ctx, rto: u32): u32 {
    if c.nodelay == 0 then U32(rto + Max(rto, c.rto))
    else U32(rto + Half(if c.nodelay < 2 then S32(rto) else S32(c.rto)))
  }

  function RtoMin(c: Ctx): u32 {
    if c.nodelay == 0 then c.rto / 8 else 0
  }

  /** The segment after ikcp_flush looked at it. */
  function Touch(c: Ctx, f: Flight): Flight {
    match Decide(c, f)
    case Idle => f
    case First => f.(xmit := 1, rto := c.rto, resendts := U32(c.current + c.rto + RtoMin(c)), ts := c.current)
    case Timeout =>
      var rto := Backoff(c, f.rto);
      f.(xmit := U32(f.xmit + 1), rto := rto, resendts := U32(c.current + rto), ts := c.current)
    case Fast => f.(xmit := U32(f.xmit + 1), fastack := 0, resendts := U32(c.current + f.rto), ts := c.current)
  }

  // ----- bounds

  /** Every sample leaves rx_rto inside [rx_minrto, IKCP_RTO_MAX]. */
  lemma {:induction false} UpdateAckOk(r: Rtt, interval: nat, minrto: nat, sample: nat)
    requires RttOk(r, minrto) && minrto <= RTO_MAX
    ensures RttOk(UpdateAck(r, interval, minrto, sample), minrto)
  {
  }

  /** srtt and rttval of a connection whose samples lie in [lo, hi]; srtt is 0 before the first one. */
  predicate Band(r: Rtt, lo: nat, hi: nat) {
    if r.srtt == 0 then r.rttval == 0 else lo <= r.srtt <= hi && 0 <= r.rttval <= Max(hi / 2, hi - lo)
  }

  /** Samples in [lo, hi] keep the smoothed estimate in [lo, hi] and the deviation below max(hi/2, hi-lo); no
      intermediate value leaves the range of a 32-bit int, so rx_rto is the clamped sum on numbers. */
  lemma {:induction false} SampleBand(r: Rtt, interval: nat, minrto: nat, sample: nat, lo: nat, hi: nat)
    requires Band(r, lo, hi) && 1 <= lo <= sample <= hi < 0x1000_0000
    requires 10 <= interval <= 5000 && minrto <= RTO_MAX
    ensures var r' := UpdateAck(r, interval, minrto, sample);
      && Band(r', lo, hi) && r'.srtt != 0
      && r'.rto == Min(Max(minrto, r'.srtt + Max(interval, 4 * r'.rttval)), RTO_MAX)
      && 4 * r'.rttval < HALF && r'.srtt + Max(interval, 4 * r'.rttval) < HALF
    ensures 7 * r.srtt + sample < HALF && 3 * r.rttval + Abs(sample - r.srtt) < HALF
  {
    hide U32;
    var r' := UpdateAck(r, interval, minrto, sample);
    assert Band(r', lo, hi) && r'.srtt != 0;
    SmallIsExact(4 * r'.rttval);
    SmallIsExact(r'.srtt + Max(interval, 4 * r'.rttval));
    SmallIsExact(Min(Max(minrto, r'.srtt + Max(interval, 4 * r'.rttval)), RTO_MAX));
  }

  lemma {:induction false} SmallIsExact(x: nat)
    requires x < MOD
    ensures U32(x) == x
  {
  }

  /** The estimator over a whole list of samples. */
  function Estimate(r: Rtt, interval: nat, minrto: nat, samples: seq<nat>): Rtt {
    if samples == [] then r
    else UpdateAck(Estimate(r, interval, minrto, samples[..|samples| - 1]), interval, minrto,
                   samples[|samples| - 1])
  }

  /** From a fresh endpoint, for every list of samples in [lo, hi]. */
  lemma {:induction false} EstimateBand(interval: nat, minrto: nat, samples: seq<nat>, lo: nat, hi: nat)
    requires 1 <= lo <= hi < 0x1000_0000 && 10 <= interval <= 5000 && minrto <= RTO_DEF
    requires forall i :: 0 <= i < |samples| ==> lo <= samples[i] <= hi
    ensures var r := Estimate(Rtt(0, 0, RTO_DEF), interval, minrto, samples);
      && Band(r, lo, hi) && (samples != [] ==> r.srtt != 0) && minrto <= r.rto <= RTO_MAX
  {
    if samples != [] {
      var front := samples[..|samples| - 1];
      EstimateBand(interval, minrto, front, lo, hi);
      SampleBand(Estimate(Rtt(0, 0, RTO_DEF), interval, minrto, front), interval, minrto,
                 samples[|samples| - 1], lo, hi);
    }
  }

  function Pow(b: nat, n: nat): nat {
    if n == 0 then 1 else b * Pow(b, n - 1)
  }

  /** The largest rto after n transmissions with nodelay on. */
  function RtoCap(n: nat): nat {
    if n <= 1 then RTO_MAX else RtoCap(n - 1) + RtoCap(n - 1) / 2
  }

  lemma {:induction false} RtoCapPow(n: nat)
    requires n >= 1
    ensures RtoCap(n) * Pow(2, n - 1) <= RTO_MAX * Pow(3, n - 1)
    ensures RtoCap(n) >= RTO_MAX
  {
    if n > 1 {
      RtoCapPow(n - 1);
      CapStep(RtoCap(n - 1), Pow(2, n - 2), Pow(3, n - 2));
    }
  }

  lemma {:induction false} CapStep(c: nat, p: nat, q: nat)
    requires c * p <= RTO_MAX * q
    ensures (c + c / 2) * (2 * p) <= RTO_MAX * (3 * q)
  {
    MulMono(2 * (c + c / 2), 3 * c, p);
    Regroup(c + c / 2, c, p);
  }

  lemma {:induction false} Regroup(a: nat, c: nat, p: nat)
    ensures a * (2 * p) == 2 * a * p && 3 * c * p == 3 * (c * p)
  {
  }

  lemma {:induction false} RtoCapMono(n: nat, k: nat)
    requires n <= k
    ensures RtoCap(n) <= RtoCap(k)
    decreases k
  {
    if n < k { RtoCapMono(n, k - 1); }
  }

  lemma {:induction false} RtoCapAtDeadLink()
    ensures RtoCap(20) < 0x4000_0000
  {
    assert RtoCap(4) == 202500;
    assert RtoCap(7) == 683437;
    assert RtoCap(10) == 2306598;
    assert RtoCap(13) == 7784767;
    assert RtoCap(16) == 26273587;
    assert RtoCap(19) == 88673355;
  }

  /** Up to the dead-link count the retransmission timeout of a segment grows by at most half per transmission. */
  ghost predicate RtoBounded(f: Flight) {
    1 <= f.xmit <= DEADLINK ==> 0 < f.rto <= RtoCap(f.xmit)
  }

  /** A segment that was sent is due one timeout after it was sent last. */
  predicate Timed(f: Flight) {
    f.xmit > 0 ==> f.resendts == U32(f.ts + f.rto)
  }

  lemma {:induction false} TouchTimed(c: Ctx, f: Flight)
    requires Timed(f) && c.nodelay >= 1
    ensures Timed(Touch(c, f))
  {
    hide Backoff, TimeDiff;
  }

  /** The bound in closed form: rto * 2^(xmit-1) <= 60000 * 3^(xmit-1), hence within a signed 32-bit int. */
  lemma {:induction false} RtoBoundedPow(f: Flight)
    requires RtoBounded(f) && 1 <= f.xmit <= DEADLINK
    ensures f.rto * Pow(2, f.xmit - 1) <= RTO_MAX * Pow(3, f.xmit - 1)
    ensures f.rto < HALF
  {
    hide RtoCap, Pow;
    RtoCapPow(f.xmit);
    MulMono(f.rto, RtoCap(f.xmit), Pow(2, f.xmit - 1));
    RtoCapMono(f.xmit, 20);
    RtoCapAtDeadLink();
  }

  lemma {:induction false} BackoffBound(c: Ctx, rto: u32)
    requires rto < HALF - RTO_MAX && rto + rto / 2 < HALF && c.nodelay >= 1 && c.rto <= RTO_MAX
    ensures rto <= Backoff(c, rto) <= rto + Max(rto, RTO_MAX) / 2
  {
    assert S32(rto) == rto && S32(c.rto) == c.rto;
    hide S32;
  }

  /** The cap leaves room for one more step below the dead-link count. */
  lemma {:induction false} NextCap(n: nat)
    requires 1 <= n < DEADLINK
    ensures RTO_MAX <= RtoCap(n) && RtoCap(n) + RtoCap(n) / 2 == RtoCap(n + 1) < HALF
  {
    RtoCapPow(n);
    RtoCapMono(n + 1, 20);
    RtoCapAtDeadLink();
  }

  /** ikcp_flush with nodelay on keeps the bound, on every branch. */
  lemma {:induction false} TouchRto(c: Ctx, f: Flight)
    requires RtoBounded(f) && c.nodelay >= 1 && 0 < c.rto <= RTO_MAX
    ensures RtoBounded(Touch(c, f))
  {
    hide Backoff, RtoCap;
    var f' := Touch(c, f);
    if Decide(c, f).First? {
      RtoCapPow(1);
    } else if 1 <= f.xmit < DEADLINK {
      NextCap(f.xmit);
      BackoffBound(c, f.rto);
      assert f'.xmit == f.xmit || f'.xmit == f.xmit + 1;
    }
  }

  /** While the timeout fits a signed int, the wrapping test `current - resendts >= 0` fires exactly when true time
      has reached sent + rto, for every later time up to half the clock's range past that point. */
  lemma {:induction false} TimeoutExact(sent: nat, rto: nat, now: nat)
    requires 0 < rto < HALF && sent <= now < sent + rto + HALF
    ensures TimeDiff(U32(now), U32(U32(sent) + rto)) >= 0 <==> now >= sent + rto
  {
    assert sent == MOD * (sent / MOD) + U32(sent);
    ModShift(U32(sent) + rto, sent / MOD);
    assert U32(U32(sent) + rto) == Img(sent + rto);
    ImageDiffExact(now, sent + rto);
  }

  // ----- the law of the estimator

  predicate Smoothed(r: Rtt, sample: nat, r': Rtt) {
    if r.srtt == 0 then r'.srtt == sample && 2 * r'.rttval <= sample < 2 * r'.rttval + 2
    else
      && -8 < 8 * (r'.srtt - r.srtt) - (sample - r.srtt) <= 0
      && -4 < 4 * (r'.rttval - r.rttval) - (Abs(sample - r.srtt) - r.rttval) <= 0
  }

  /** One sample moves rx_srtt an eighth of the way, rounded down, and rx_rttval a quarter of the way to the distance of
      the sample; the first one sets them to the sample and half of it. */
  lemma {:induction false} SampleLaw(r: Rtt, interval: nat, minrto: nat, sample: nat)
    requires 1 <= sample && 0 <= r.srtt && 0 <= r.rttval
    ensures Smoothed(r, sample, UpdateAck(r, interval, minrto, sample))
  {
  }

  /** The exponentially weighted mean of the samples, without rounding. */
  function Ewma(samples: seq<nat>): real {
    if samples == [] then 0.0
    else if |samples| == 1 then samples[0] as real
    else (7.0 * Ewma(samples[..|samples| - 1]) + samples[|samples| - 1] as real) / 8.0
  }

  /** Rounding never adds up: after any samples rx_srtt is less than 8 below their weighted mean, and never above. */
  lemma {:induction false} EstimateIsMean(interval: nat, minrto: nat, samples: seq<nat>)
    requires samples != [] && forall i :: 0 <= i < |samples| ==> 1 <= samples[i]
    ensures var r := Estimate(Rtt(0, 0, RTO_DEF), interval, minrto, samples);
      && r.srtt >= 1 && r.rttval >= 0 && Ewma(samples) - 8.0 < r.srtt as real <= Ewma(samples)
  {
    var n := |samples| - 1;
    var r := Estimate(Rtt(0, 0, RTO_DEF), interval, minrto, samples[..n]);
    if n > 0 { EstimateIsMean(interval, minrto, samples[..n]); }
    hide UpdateAck;
    SampleLaw(r, interval, minrto, samples[n]);
    if n > 0 {
      MeanStep(r.srtt, samples[n], UpdateAck(r, interval, minrto, samples[n]).srtt, Ewma(samples[..n]));
      SampleKeeps(r, interval, minrto, samples[n]);
    } else {
      SampleKeeps(r, interval, minrto, samples[n]);
    }
  }

  lemma {:induction false} SampleKeeps(r: Rtt, interval: nat, minrto: nat, sample: nat)
    requires 1 <= sample && 0 <= r.srtt && 0 <= r.rttval
    ensures UpdateAck(r, interval, minrto, sample).srtt >= 1 && UpdateAck(r, interval, minrto, sample).rttval >= 0
  {
  }

  lemma {:induction false} MeanStep(s: int, x: int, s': int, e: real)
    requires -8 < 8 * (s' - s) - (x - s) <= 0 && e - 8.0 < s as real <= e
    ensures (7.0 * e + x as real) / 8.0 - 8.0 < s' as real <= (7.0 * e + x as real) / 8.0
  {
    assert 8.0 * s' as real == (8 * s') as real && 7.0 * s as real == (7 * s) as real;
    assert ((7 * s + x) - 8) as real < (8 * s') as real <= (7 * s + x) as real;
    assert (7 * s + x) as real == 7.0 * s as real + x as real;
  }

  // ----- the law of the backoff

  /** What a timeout does to the timeout: half of it more with nodelay 1, half of rx_rto more from 2 on, at least twice
      with nodelay 0. */
  predicate BackedOff(nodelay: nat, rx: int, rto: int, rto': int) {
    if nodelay == 0 then rto' == rto + Max(rto, rx)
    else if nodelay == 1 then 3 * rto - 1 <= 2 * rto' <= 3 * rto
    else 2 * rto + rx - 1 <= 2 * rto' <= 2 * rto + rx
  }

  lemma {:induction false} BackoffLaw(c: Ctx, rto: u32)
    requires rto < 0x4000_0000 && c.rto <= RTO_MAX
    ensures BackedOff(c.nodelay, c.rto, rto, Backoff(c, rto)) && Backoff(c, rto) < HALF
  {
    assert S32(rto) == rto && S32(c.rto) == c.rto;
    hide S32;
  }
}
