/** The wire format: ikcp_encode_seg, the decode loop of ikcp_input, and the way ikcp_flush packs segments into
    datagrams. */
module Wire {
  import opened Serial
  import opened Types

  // ----- little-endian numbers

  function Le16(x: nat): bytes {
    [(x % 256) as byte, (x / 256 % 256) as byte]
  }

  function Le32(x: nat): bytes {
    [(x % 256) as byte, (x / 0x100 % 256) as byte, (x / 0x1_0000 % 256) as byte, (x / 0x100_0000 % 256) as byte]
  }

  function FromLe16(b: bytes, at: nat): nat
    requires at + 2 <= |b|
  {
    b[at] as nat + 0x100 * b[at + 1] as nat
  }

  function FromLe32(b: bytes, at: nat): (x: u32)
    requires at + 4 <= |b|
  {
    b[at] as nat + 0x100 * b[at + 1] as nat + 0x1_0000 * b[at + 2] as nat + 0x100_0000 * b[at + 3] as nat
  }

  function CmdByte(c: Cmd): byte {
    match c case Push => 81 case Ack => 82 case Wask => 83 case Wins => 84
  }

  /** IKCP_CMD_* of a byte the parser accepted. */
  function CmdOf(b: byte): Cmd {
    if b == 81 then Push else if b == 82 then Ack else if b == 83 then Wask else Wins
  }

  /** ikcp_encode_seg: 24 bytes, narrower members truncated. */
  function Header(conv: u32, s: Seg): (h: bytes)
    ensures |h| == OVERHEAD
  {
    Le32(conv) + [CmdByte(s.cmd), (s.frg % 256) as byte] + Le16(s.wnd) + Le32(s.ts) + Le32(s.sn) + Le32(s.una)
    + Le32(|s.data|)
  }

  function Encode(conv: u32, s: Seg): bytes {
    Header(conv, s) + s.data
  }

  function EncodeAll(conv: u32, d: seq<Seg>): bytes {
    if d == [] then [] else EncodeAll(conv, d[..|d| - 1]) + Encode(conv, d[|d| - 1])
  }

  datatype Parsed = Parsed(segs: seq<Seg>, code: int)

  function DecodeSeg(b: bytes): Seg
    requires |b| >= OVERHEAD && |b| - OVERHEAD >= FromLe32(b, 20)
  {
    Seg(CmdOf(b[4]), b[5] as nat, FromLe16(b, 6), FromLe32(b, 8), FromLe32(b, 12), FromLe32(b, 16),
        b[24..24 + FromLe32(b, 20)])
  }

  /** The result code with which the decode loop stops at the front of b, if it stops there. */
  function StopCode(conv: u32, b: bytes): (r: int)
    ensures r > 0 ==> |b| >= OVERHEAD && |b| - OVERHEAD >= FromLe32(b, 20)
  {
    if |b| < OVERHEAD then 0
    else if FromLe32(b, 0) != conv then -1
    else if |b| - OVERHEAD < FromLe32(b, 20) || FromLe32(b, 20) >= HALF then -2
    else if b[4] < 81 || b[4] > 84 then -3
    else 1
  }

  /** The decode loop: the segments processed before it stops, and the code it stops with. */
  function Decode(conv: u32, b: bytes): Parsed {
    var stop := StopCode(conv, b);
    if stop <= 0 then Parsed([], stop)
    else
      var rest := Decode(conv, b[24 + FromLe32(b, 20)..]);
      Parsed([DecodeSeg(b)] + rest.segs, rest.code)
  }

  /** Everything ikcp_input reads from its argument. */
  function Parse(conv: u32, b: bytes): Parsed {
    if S32(|b|) < OVERHEAD then Parsed([], -1) else Decode(conv, b)
  }

  // ----- round trip

  /** The values the header has room for. */
  predicate Encodable(s: Seg) {
    s.frg < 256 && s.wnd < 65536 && s.sn < MOD && s.una < MOD && |s.data| < HALF
  }

  lemma {:induction false} LeRoundTrip(x: u32, b: bytes, at: nat)
    requires at + 4 <= |b| && b[at..at + 4] == Le32(x)
    ensures FromLe32(b, at) == x
  {
    var w := b[at..at + 4];
    assert w[0] == b[at] && w[1] == b[at + 1] && w[2] == b[at + 2] && w[3] == b[at + 3];
    Digits(x);
  }

  lemma {:induction false} Digits(x: u32)
    ensures x % 256 + 0x100 * (x / 0x100 % 256) + 0x1_0000 * (x / 0x1_0000 % 256)
            + 0x100_0000 * (x / 0x100_0000 % 256) == x
  {
    assert x / 0x1_0000 == x / 0x100 / 0x100;
    assert x / 0x100_0000 == x / 0x1_0000 / 0x100;
  }

  /** A 32-bit member behind a prefix. */
  lemma {:induction false} FieldAt(pre: bytes, x: u32, post: bytes)
    ensures FromLe32(pre + Le32(x) + post, |pre|) == x
  {
    hide Le32;
    assert |Le32(x)| == 4 by { Le32Length(x); }
    var b := pre + Le32(x) + post;
    assert b[|pre|..|pre| + 4] == Le32(x);
    LeRoundTrip(x, b, |pre|);
  }

  lemma {:induction false} Le32Length(x: nat)
    ensures |Le32(x)| == 4
  {
  }

  lemma {:induction false} Le16Length(x: nat)
    ensures |Le16(x)| == 2
  {
  }

  lemma {:induction false} HeaderNumbers(conv: u32, s: Seg, tail: bytes)
    requires Encodable(s)
    ensures var b := Header(conv, s) + tail;
      && FromLe32(b, 8) == s.ts && FromLe32(b, 12) == s.sn && FromLe32(b, 16) == s.una && FromLe32(b, 20) == |s.data|
  {
    hide Le32, FromLe32;
    var b := Header(conv, s) + tail;
    var h8 := Le32(conv) + [CmdByte(s.cmd), (s.frg % 256) as byte] + Le16(s.wnd);
    Le32Length(conv); Le32Length(s.ts); Le32Length(s.sn); Le32Length(s.una);
    FieldAt(h8, s.ts, Le32(s.sn) + Le32(s.una) + Le32(|s.data|) + tail);
    assert b == h8 + Le32(s.ts) + (Le32(s.sn) + Le32(s.una) + Le32(|s.data|) + tail);
    FieldAt(h8 + Le32(s.ts), s.sn, Le32(s.una) + Le32(|s.data|) + tail);
    assert b == h8 + Le32(s.ts) + Le32(s.sn) + (Le32(s.una) + Le32(|s.data|) + tail);
    FieldAt(h8 + Le32(s.ts) + Le32(s.sn), s.una, Le32(|s.data|) + tail);
    assert b == h8 + Le32(s.ts) + Le32(s.sn) + Le32(s.una) + (Le32(|s.data|) + tail);
    FieldAt(h8 + Le32(s.ts) + Le32(s.sn) + Le32(s.una), |s.data|, tail);
    assert b == h8 + Le32(s.ts) + Le32(s.sn) + Le32(s.una) + Le32(|s.data|) + tail;
  }

  lemma {:induction false} HeaderFields(conv: u32, s: Seg, tail: bytes)
    requires Encodable(s)
    ensures var b := Header(conv, s) + tail;
      && FromLe32(b, 0) == conv && b[4] == CmdByte(s.cmd) && b[5] as nat == s.frg && FromLe16(b, 6) == s.wnd
  {
    hide Le32, FromLe32;
    var b := Header(conv, s) + tail;
    Le32Length(conv); Le32Length(s.ts); Le32Length(s.sn); Le32Length(s.una);
    var rest := [CmdByte(s.cmd), (s.frg % 256) as byte] + Le16(s.wnd) + Le32(s.ts) + Le32(s.sn) + Le32(s.una)
                + Le32(|s.data|) + tail;
    FieldAt([], conv, rest);
    assert b == [] + Le32(conv) + rest;
    assert b[6] as nat == s.wnd % 256 && b[7] as nat == s.wnd / 256 % 256;
  }

  lemma {:induction false} DecodeFront(conv: u32, s: Seg, tail: bytes)
    requires Encodable(s)
    ensures StopCode(conv, Encode(conv, s) + tail) == 1
    ensures DecodeSeg(Encode(conv, s) + tail) == s
    ensures (Encode(conv, s) + tail)[24 + FromLe32(Encode(conv, s) + tail, 20)..] == tail
  {
    HeaderFields(conv, s, s.data + tail);
    HeaderNumbers(conv, s, s.data + tail);
    var b := Encode(conv, s) + tail;
    assert b == Header(conv, s) + (s.data + tail);
    assert b[24..24 + |s.data|] == s.data;
    assert CmdOf(CmdByte(s.cmd)) == s.cmd;
  }

  lemma {:induction false} EncodeAllFront(conv: u32, d: seq<Seg>)
    requires d != []
    ensures EncodeAll(conv, d) == Encode(conv, d[0]) + EncodeAll(conv, d[1..])
  {
    hide Encode;
    var n := |d| - 1;
    if n == 0 {
      assert EncodeAll(conv, d[..0]) == [] && EncodeAll(conv, d[1..]) == [];
    } else {
      EncodeAllFront(conv, d[..n]);
      assert d[..n][1..] == d[1..][..n - 1] && d[1..][n - 1] == d[n];
    }
  }

  /** Decoding the concatenated encodings gives back the segments, for any list of encodable segments. */
  lemma {:induction false} DecodeEncodeAll(conv: u32, d: seq<Seg>)
    requires forall i :: 0 <= i < |d| ==> Encodable(d[i])
    ensures Decode(conv, EncodeAll(conv, d)) == Parsed(d, 0)
    decreases |d|
  {
    if d != [] {
      EncodeAllFront(conv, d);
      DecodeFront(conv, d[0], EncodeAll(conv, d[1..]));
      DecodeEncodeAll(conv, d[1..]);
      assert [d[0]] + d[1..] == d;
    }
  }

  // ----- packing

  function SegSize(s: Seg): nat {
    OVERHEAD + |s.data|
  }

  function Size(d: seq<Seg>): nat {
    if d == [] then 0 else Size(d[..|d| - 1]) + SegSize(d[|d| - 1])
  }

  /** The datagrams handed to the output callback, and the one being filled. */
  datatype Packing = Packing(out: seq<seq<Seg>>, cur: seq<Seg>)

  /** "if (size + need > mtu) output; encode", which every part of ikcp_flush repeats.  ikcp_output drops an empty
      buffer. */
  function Put(mtu: nat, p: Packing, s: Seg): Packing {
    if Size(p.cur) + SegSize(s) > mtu then Packing(Close(p), [s]) else Packing(p.out, p.cur + [s])
  }

  function Close(p: Packing): seq<seq<Seg>> {
    if p.cur == [] then p.out else p.out + [p.cur]
  }

  function PutAll(mtu: nat, p: Packing, segs: seq<Seg>): Packing {
    if segs == [] then p else Put(mtu, PutAll(mtu, p, segs[..|segs| - 1]), segs[|segs| - 1])
  }

  function Pack(mtu: nat, segs: seq<Seg>): seq<seq<Seg>> {
    Close(PutAll(mtu, Packing([], []), segs))
  }

  function Flat<T>(ds: seq<seq<T>>): seq<T> {
    if ds == [] then [] else Flat(ds[..|ds| - 1]) + ds[|ds| - 1]
  }

  lemma {:induction false} FlatSnoc<T>(ds: seq<seq<T>>, d: seq<T>)
    ensures Flat(ds + [d]) == Flat(ds) + d
  {
    assert (ds + [d])[..|ds|] == ds;
  }

  predicate Fits(mtu: nat, d: seq<Seg>) {
    d != [] && Size(d) <= mtu
  }

  lemma {:induction false} SizeSnoc(d: seq<Seg>, s: Seg)
    ensures Size(d + [s]) == Size(d) + SegSize(s)
  {
    assert (d + [s])[..|d|] == d;
  }

  ghost predicate PackingOk(mtu: nat, p: Packing, segs: seq<Seg>) {
    && Flat(p.out) + p.cur == segs && Size(p.cur) <= mtu
    && forall i :: 0 <= i < |p.out| ==> Fits(mtu, p.out[i])
  }

  lemma {:induction false} PutOk(mtu: nat, p: Packing, segs: seq<Seg>, s: Seg)
    requires PackingOk(mtu, p, segs) && SegSize(s) <= mtu
    ensures PackingOk(mtu, Put(mtu, p, s), segs + [s])
  {
    if Size(p.cur) + SegSize(s) > mtu {
      FlatSnoc(p.out, p.cur);
      SizeSnoc([], s);
      assert [] + [s] == [s];
    } else {
      SizeSnoc(p.cur, s);
    }
  }

  lemma {:induction false} PutAllOk(mtu: nat, segs: seq<Seg>)
    requires forall i :: 0 <= i < |segs| ==> SegSize(segs[i]) <= mtu
    ensures PackingOk(mtu, PutAll(mtu, Packing([], []), segs), segs)
  {
    if segs != [] {
      var n := |segs| - 1;
      PutAllOk(mtu, segs[..n]);
      PutOk(mtu, PutAll(mtu, Packing([], []), segs[..n]), segs[..n], segs[n]);
      assert segs == segs[..n] + [segs[n]];
    }
  }

  lemma {:induction false} PutAllSnoc(mtu: nat, p: Packing, segs: seq<Seg>, s: Seg)
    ensures PutAll(mtu, p, segs + [s]) == Put(mtu, PutAll(mtu, p, segs), s)
  {
    assert (segs + [s])[..|segs|] == segs;
  }

  lemma {:induction false} PutAllConcat(mtu: nat, p: Packing, a: seq<Seg>, b: seq<Seg>)
    ensures PutAll(mtu, p, a + b) == PutAll(mtu, PutAll(mtu, p, a), b)
  {
    hide Put;
    if b == [] {
      assert a + b == a;
    } else {
      var n := |b| - 1;
      PutAllConcat(mtu, p, a, b[..n]);
      assert a + b == (a + b[..n]) + [b[n]];
      PutAllSnoc(mtu, p, a + b[..n], b[n]);
    }
  }

  /** Packing goes on behind what was already sent. */
  lemma {:induction false} PutAllBehind(mtu: nat, out: seq<seq<Seg>>, segs: seq<Seg>)
    ensures var q := PutAll(mtu, Packing([], []), segs);
            PutAll(mtu, Packing(out, []), segs) == Packing(out + q.out, q.cur)
  {
    if segs == [] {
      assert out + [] == out;
    } else {
      var n := |segs| - 1;
      PutAllBehind(mtu, out, segs[..n]);
      var q := PutAll(mtu, Packing([], []), segs[..n]);
      assert out + q.out + [q.cur] == out + (q.out + [q.cur]);
    }
  }

  lemma {:induction false} CloseBehind(mtu: nat, out: seq<seq<Seg>>, segs: seq<Seg>)
    ensures Close(PutAll(mtu, Packing(out, []), segs)) == out + Pack(mtu, segs)
  {
    PutAllBehind(mtu, out, segs);
    var q := PutAll(mtu, Packing([], []), segs);
    assert out + q.out + [q.cur] == out + (q.out + [q.cur]);
  }

  /** No segment is split, lost or reordered; no datagram is empty or exceeds the mtu. */
  lemma {:induction false} PackOk(mtu: nat, segs: seq<Seg>)
    requires forall i :: 0 <= i < |segs| ==> SegSize(segs[i]) <= mtu
    ensures Flat(Pack(mtu, segs)) == segs
    ensures forall i :: 0 <= i < |Pack(mtu, segs)| ==> Fits(mtu, Pack(mtu, segs)[i])
  {
    PutAllOk(mtu, segs);
    var p := PutAll(mtu, Packing([], []), segs);
    FlatSnoc(p.out, p.cur);
  }

  lemma {:induction false} EncodedLength(conv: u32, d: seq<Seg>)
    ensures |EncodeAll(conv, d)| == Size(d)
  {
    if d != [] { EncodedLength(conv, d[..|d| - 1]); }
  }

  lemma {:induction false} SizeBounds(d: seq<Seg>, i: nat)
    requires i < |d|
    ensures SegSize(d[i]) <= Size(d)
  {
    if i < |d| - 1 { SizeBounds(d[..|d| - 1], i); }
  }

  /** A datagram of ikcp_flush read by ikcp_input: the segments that went in come out. */
  lemma {:induction false} ParseDatagram(conv: u32, mtu: nat, d: seq<Seg>)
    requires Fits(mtu, d) && mtu <= 65535 && forall i :: 0 <= i < |d| ==> Encodable(d[i])
    ensures Parse(conv, EncodeAll(conv, d)) == Parsed(d, 0)
    ensures |EncodeAll(conv, d)| <= mtu
  {
    hide Decode, EncodeAll, Encodable;
    EncodedLength(conv, d);
    SizeBounds(d, 0);
    DecodeEncodeAll(conv, d);
  }

  /** What a list of datagrams decodes to. */
  function ParseAll(conv: u32, wire: seq<bytes>): seq<Seg> {
    if wire == [] then [] else ParseAll(conv, wire[..|wire| - 1]) + Parse(conv, wire[|wire| - 1]).segs
  }

  function EncodeEach(conv: u32, ds: seq<seq<Seg>>): (r: seq<bytes>)
    ensures |r| == |ds| && forall i :: 0 <= i < |ds| ==> r[i] == EncodeAll(conv, ds[i])
  {
    seq(|ds|, i requires 0 <= i < |ds| => EncodeAll(conv, ds[i]))
  }

  lemma {:induction false} ParseEach(conv: u32, mtu: nat, ds: seq<seq<Seg>>)
    requires mtu <= 65535
    requires forall i :: 0 <= i < |ds| ==> Fits(mtu, ds[i])
    requires forall i, j :: 0 <= i < |ds| && 0 <= j < |ds[i]| ==> Encodable(ds[i][j])
    ensures ParseAll(conv, EncodeEach(conv, ds)) == Flat(ds)
  {
    if ds != [] {
      var n := |ds| - 1;
      ParseEach(conv, mtu, ds[..n]);
      assert EncodeEach(conv, ds)[..n] == EncodeEach(conv, ds[..n]);
      ParseDatagram(conv, mtu, ds[n]);
    }
  }

  lemma {:induction false} FlatMembers<T>(ds: seq<seq<T>>, i: nat, j: nat) returns (k: nat)
    requires i < |ds| && j < |ds[i]|
    ensures k < |Flat(ds)| && Flat(ds)[k] == ds[i][j]
  {
    var n := |ds| - 1;
    if i == n { k := |Flat(ds[..n])| + j; }
    else { k := FlatMembers(ds[..n], i, j); }
  }

  /** Packing and parsing are inverse: the bytes of the datagrams of a flush decode to exactly the list of
      acknowledgements, probes and data segments it emitted, with every header field and payload. */
  lemma {:induction false} PackParse(conv: u32, mtu: nat, segs: seq<Seg>)
    requires mtu <= 65535
    requires forall i :: 0 <= i < |segs| ==> SegSize(segs[i]) <= mtu && Encodable(segs[i])
    ensures ParseAll(conv, EncodeEach(conv, Pack(mtu, segs))) == segs
    ensures forall i :: 0 <= i < |Pack(mtu, segs)| ==> 0 < |EncodeEach(conv, Pack(mtu, segs))[i]| <= mtu
  {
    PackOk(mtu, segs);
    var ds := Pack(mtu, segs);
    forall i, j | 0 <= i < |ds| && 0 <= j < |ds[i]| ensures Encodable(ds[i][j]) {
      var k := FlatMembers(ds, i, j);
    }
    ParseEach(conv, mtu, ds);
    forall i | 0 <= i < |ds| ensures 0 < |EncodeAll(conv, ds[i])| <= mtu {
      EncodedLength(conv, ds[i]);
      SizeBounds(ds[i], 0);
    }
  }

  // ----- what any bytes mean

  /** Any four bytes are the encoding of the number they are read as. */
  lemma {:induction false} Le32Onto(b: bytes, at: nat)
    requires at + 4 <= |b|
    ensures Le32(FromLe32(b, at)) == b[at..at + 4]
  {
    var x := FromLe32(b, at);
    var b0, b1, b2, b3 := b[at] as nat, b[at + 1] as nat, b[at + 2] as nat, b[at + 3] as nat;
    assert x / 0x100 == b1 + 0x100 * b2 + 0x1_0000 * b3;
    assert x / 0x1_0000 == b2 + 0x100 * b3;
    assert x / 0x100_0000 == b3;
  }

  lemma {:induction false} Le16Onto(b: bytes, at: nat)
    requires at + 2 <= |b|
    ensures Le16(FromLe16(b, at)) == b[at..at + 2]
  {
  }

  /** The first segment of any bytes the loop accepts is encoded by them. */
  lemma {:induction false} FrontOnto(conv: u32, b: bytes)
    requires |b| >= OVERHEAD && FromLe32(b, 0) == conv && |b| - OVERHEAD >= FromLe32(b, 20) && 81 <= b[4] <= 84
    ensures b == Encode(conv, DecodeSeg(b)) + b[24 + FromLe32(b, 20)..]
  {
    Le32Onto(b, 0);
    Le16Onto(b, 6);
    Le32Onto(b, 8);
    Le32Onto(b, 12);
    Le32Onto(b, 16);
    Le32Onto(b, 20);
    var n := FromLe32(b, 20);
    hide Le32, Le16, FromLe32, FromLe16;
    assert [CmdByte(CmdOf(b[4])), (b[5] as nat % 256) as byte] == b[4..6];
    assert b[..24] == b[0..4] + b[4..6] + b[6..8] + b[8..12] + b[12..16] + b[16..20] + b[20..24];
    assert b == b[..24] + b[24..24 + n] + b[24 + n..];
  }

  /** Why the decode loop stops in front of these bytes. */
  predicate StopsAt(conv: u32, rest: bytes, code: int) {
    if |rest| < OVERHEAD then code == 0
    else if rest[..4] != Le32(conv) then code == -1
    else if |rest| - OVERHEAD < FromLe32(rest, 20) || FromLe32(rest, 20) >= HALF then code == -2
    else !(81 <= rest[4] <= 84) && code == -3
  }

  /** ikcp_input on any bytes: they are the encodings of the segments it processed, in order, and a rest, and the
      result tells what is wrong with that rest. */
  lemma {:induction false} DecodeExact(conv: u32, b: bytes) returns (rest: bytes)
    ensures b == EncodeAll(conv, Decode(conv, b).segs) + rest
    ensures StopsAt(conv, rest, Decode(conv, b).code)
    ensures forall i :: 0 <= i < |Decode(conv, b).segs| ==> Encodable(Decode(conv, b).segs[i])
    decreases |b|
  {
    hide StopsAt, EncodeAll, Encodable;
    if StopCode(conv, b) <= 0 {
      rest := b;
      StopHere(conv, b);
      NothingEncoded(conv, b);
    } else {
      DecodeFirst(conv, b);
      FrontOnto(conv, b);
      var q, tail := DecodeSeg(b), b[24 + FromLe32(b, 20)..];
      hide Decode, Encode, StopCode, DecodeSeg;
      rest := DecodeExact(conv, tail);
      var d := Decode(conv, b).segs;
      EncodeAllFront(conv, d);
      assert d[1..] == Decode(conv, tail).segs;
      assert Encode(conv, q) + (EncodeAll(conv, d[1..]) + rest) == (Encode(conv, q) + EncodeAll(conv, d[1..])) + rest;
    }
  }

  lemma {:induction false} ParseIs(conv: u32, b: bytes)
    requires |b| < HALF
    ensures Parse(conv, b) == if |b| < OVERHEAD then Parsed([], -1) else Decode(conv, b)
  {
    hide Decode;
  }

  /** The same of the whole call: with less than a header there is nothing to process, and that is an error. */
  lemma {:induction false} ParseExact(conv: u32, b: bytes) returns (rest: bytes)
    requires |b| < HALF
    ensures var p := Parse(conv, b);
      && b == EncodeAll(conv, p.segs) + rest && (forall i :: 0 <= i < |p.segs| ==> Encodable(p.segs[i]))
      && if |b| < OVERHEAD then p.segs == [] && p.code == -1 else StopsAt(conv, rest, p.code)
  {
    hide Decode, StopsAt, Encodable, EncodeAll;
    ParseIs(conv, b);
    hide Parse;
    if |b| < OVERHEAD {
      rest := b;
      NothingEncoded(conv, b);
    } else {
      rest := DecodeExact(conv, b);
    }
  }

  lemma {:induction false} NothingEncoded(conv: u32, b: bytes)
    ensures b == EncodeAll(conv, []) + b
  {
  }

  lemma {:induction false} DecodeFirst(conv: u32, b: bytes)
    requires StopCode(conv, b) > 0
    ensures var rest := Decode(conv, b[24 + FromLe32(b, 20)..]);
      Decode(conv, b) == Parsed([DecodeSeg(b)] + rest.segs, rest.code)
    ensures Encodable(DecodeSeg(b)) && FromLe32(b, 0) == conv && 81 <= b[4] <= 84
  {
    hide FromLe32;
    assert FromLe16(b, 6) < 65536;
  }

  lemma {:induction false} StopHere(conv: u32, b: bytes)
    requires StopCode(conv, b) <= 0
    ensures StopsAt(conv, b, StopCode(conv, b))
  {
    if |b| >= OVERHEAD {
      Le32Onto(b, 0);
      assert b[0..4] == b[..4];
      if b[..4] == Le32(conv) { LeRoundTrip(conv, b, 0); }
    }
  }

  // ----- no datagram that could have been spared

  /** No datagram has room for the first segment of the next one. */
  ghost predicate Tight(mtu: nat, ds: seq<seq<Seg>>) {
    forall i :: 0 < i < |ds| ==> ds[i] != [] && Size(ds[i - 1]) + SegSize(ds[i][0]) > mtu
  }

  ghost predicate PackingTight(mtu: nat, p: Packing) {
    Tight(mtu, Close(p)) && (p.cur == [] ==> p.out == [])
  }

  lemma {:induction false} PutTight(mtu: nat, p: Packing, s: Seg)
    requires PackingTight(mtu, p)
    ensures PackingTight(mtu, Put(mtu, p, s))
  {
    hide Size;
    var ds, ds' := Close(p), Close(Put(mtu, p, s));
    if Size(p.cur) + SegSize(s) > mtu {
      assert ds' == ds + [[s]];
    } else if p.cur == [] {
      assert [] + [s] == [s] && ds' == [[s]];
    } else {
      assert ds' == p.out + [p.cur + [s]] && ds == p.out + [p.cur] && (p.cur + [s])[0] == p.cur[0];
      forall i | 0 < i < |ds'| ensures ds'[i] != [] && Size(ds'[i - 1]) + SegSize(ds'[i][0]) > mtu {
        assert ds[i] != [] && Size(ds[i - 1]) + SegSize(ds[i][0]) > mtu;
      }
    }
  }

  /** Packing is greedy: each datagram is closed only because the next segment did not fit. */
  lemma {:induction false} PackTight(mtu: nat, segs: seq<Seg>)
    ensures Tight(mtu, Pack(mtu, segs))
  {
    PutAllTight(mtu, segs);
  }

  lemma {:induction false} PutAllTight(mtu: nat, segs: seq<Seg>)
    ensures PackingTight(mtu, PutAll(mtu, Packing([], []), segs))
  {
    if segs != [] {
      PutAllTight(mtu, segs[..|segs| - 1]);
      PutTight(mtu, PutAll(mtu, Packing([], []), segs[..|segs| - 1]), segs[|segs| - 1]);
    }
  }
}
