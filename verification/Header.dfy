/** common.h: the 16-byte message header and its byte order. */
module Headers {
  import opened Serial
  import opened Types

  const MSG_HEADER_SIZE := 16
  const MSG_TYPE_FILE_CHUNK := 1
  const MSG_TYPE_FILE_END := 2
  const MSG_TYPE_RAW := 100

  const ERR_PARAM := -2
  const ERR_IO := -3

  type u64 = x: int | 0 <= x < 0x1_0000_0000_0000_0000

  /** What a call of tcp_recv or kcp_recv returned, and what it copied out. */
  datatype Arrival = Arrival(code: int, data: bytes)

  /** MsgHeader; `kind` is its member `type`. */
  datatype MsgHeader = MsgHeader(kind: u32, len: u32, timestamp: u64)

  // ----- integers in memory

  /** __BYTE_ORDER__ of the machine. */
  datatype Host = LittleEndian | BigEndian

  function Le(x: nat, n: nat): (b: bytes)
    ensures |b| == n
  {
    if n == 0 then [] else [(x % 256) as byte] + Le(x / 256, n - 1)
  }

  function FromLe(b: bytes): nat {
    if b == [] then 0 else b[0] as nat + 256 * FromLe(b[1..])
  }

  function Reverse(b: bytes): (r: bytes)
    ensures |r| == |b| && forall i :: 0 <= i < |b| ==> r[i] == b[|b| - 1 - i]
  {
    seq(|b|, i requires 0 <= i < |b| => b[|b| - 1 - i])
  }

  /** The bytes of an integer of n bytes in the memory of h. */
  function Store(h: Host, x: nat, n: nat): (b: bytes)
    ensures |b| == n
  {
    if h.LittleEndian? then Le(x, n) else Reverse(Le(x, n))
  }

  function Load(h: Host, b: bytes): nat {
    FromLe(if h.LittleEndian? then b else Reverse(b))
  }

  // ----- htonl and omni_htonll

  function Byte(x: nat, at: nat): nat
    requires at > 0
  {
    x / at % 256
  }

  function Bswap32(x: u32): u32 {
    Byte(x, 1) * 0x100_0000 + Byte(x, 0x100) * 0x1_0000 + Byte(x, 0x1_0000) * 0x100 + Byte(x, 0x100_0000)
  }

  /** omni_bswap64: each byte masked out and shifted to its mirrored place. */
  function Bswap64(x: u64): u64 {
    Byte(x, 1) * 0x100_0000_0000_0000
    + Byte(x, 0x100) * 0x1_0000_0000_0000
    + Byte(x, 0x1_0000) * 0x100_0000_0000
    + Byte(x, 0x100_0000) * 0x1_0000_0000
    + Byte(x, 0x1_0000_0000) * 0x100_0000
    + Byte(x, 0x100_0000_0000) * 0x1_0000
    + Byte(x, 0x1_0000_0000_0000) * 0x100
    + Byte(x, 0x100_0000_0000_0000)
  }

  function Htonl(h: Host, x: u32): u32 {
    if h.LittleEndian? then Bswap32(x) else x
  }

  function Htonll(h: Host, x: u64): u64 {
    if h.LittleEndian? then Bswap64(x) else x
  }

  // ----- omni_msg_header_encode and omni_msg_header_decode

  function HeaderEncode(h: Host, kind: u32, len: u32, timestamp: u64): MsgHeader {
    MsgHeader(Htonl(h, kind), Htonl(h, len), Htonll(h, timestamp))
  }

  function HeaderDecode(h: Host, net: MsgHeader): MsgHeader {
    MsgHeader(Htonl(h, net.kind), Htonl(h, net.len), Htonll(h, net.timestamp))
  }

  /** memcpy out of the structure. */
  function StoreHeader(h: Host, hdr: MsgHeader): (b: bytes)
    ensures |b| == MSG_HEADER_SIZE
  {
    Store(h, hdr.kind, 4) + Store(h, hdr.len, 4) + Store(h, hdr.timestamp, 8)
  }

  /** memcpy into the structure. */
  function LoadHeader(h: Host, b: bytes): MsgHeader
    requires |b| == MSG_HEADER_SIZE
  {
    LoadFits(h, b[..4]);
    LoadFits(h, b[4..8]);
    LoadFits(h, b[8..]);
    MsgHeader(Load(h, b[..4]), Load(h, b[4..8]), Load(h, b[8..]))
  }

  /** The bytes a header takes on the wire: three integers, highest byte first. */
  function WireHeader(kind: u32, len: u32, timestamp: u64): (b: bytes)
    ensures |b| == MSG_HEADER_SIZE
  {
    Reverse(Le(kind, 4)) + Reverse(Le(len, 4)) + Reverse(Le(timestamp, 8))
  }

  // ----- round trips

  function Pow256(n: nat): nat {
    if n == 0 then 1 else 256 * Pow256(n - 1)
  }

  lemma {:induction false} PowValues()
    ensures Pow256(4) == 0x1_0000_0000 && Pow256(8) == 0x1_0000_0000_0000_0000
  {
    assert Pow256(1) == 256 && Pow256(2) == 0x1_0000 && Pow256(3) == 0x100_0000;
    assert Pow256(5) == 0x100_0000_0000 && Pow256(6) == 0x1_0000_0000_0000 && Pow256(7) == 0x100_0000_0000_0000;
  }

  lemma {:induction false} FromLeBound(b: bytes)
    ensures FromLe(b) < Pow256(|b|)
  {
    if b != [] { FromLeBound(b[1..]); }
  }

  lemma {:induction false} LoadFits(h: Host, b: bytes)
    ensures |b| == 4 ==> Load(h, b) < 0x1_0000_0000
    ensures |b| == 8 ==> Load(h, b) < 0x1_0000_0000_0000_0000
  {
    PowValues();
    FromLeBound(b);
    FromLeBound(Reverse(b));
  }

  lemma {:induction false} LeFromLe(b: bytes)
    ensures Le(FromLe(b), |b|) == b
  {
    if b != [] {
      LeFromLe(b[1..]);
      assert FromLe(b) / 256 == FromLe(b[1..]) && FromLe(b) % 256 == b[0] as nat;
      assert [b[0]] + b[1..] == b;
    }
  }

  lemma {:induction false} FromLeLe(x: nat, n: nat)
    requires x < Pow256(n)
    ensures FromLe(Le(x, n)) == x
  {
    if n > 0 {
      FromLeLe(x / 256, n - 1);
      assert Le(x, n)[1..] == Le(x / 256, n - 1);
    }
  }

  lemma {:induction false} DivDiv(x: nat, p: nat)
    requires p > 0
    ensures x / 256 / p == x / (256 * p)
  {
    var q, r := x / 256 / p, x / 256 % p;
    assert x == 256 * (p * q + r) + x % 256;
    assert 256 * (p * q + r) + x % 256 == q * (256 * p) + (256 * r + x % 256);
    QuotientIs(x, 256 * p, q, 256 * r + x % 256);
  }

  lemma {:induction false} MulSigned(d: int, k: int)
    requires d >= 0
    ensures k >= 1 ==> d * k >= d
    ensures k <= -1 ==> d * k <= -d
  {
  }

  lemma {:induction false} QuotientIs(x: nat, d: nat, q: nat, r: nat)
    requires x == q * d + r && r < d
    ensures x / d == q
  {
    assert d * (x / d) + x % d == x;
    assert d * (x / d - q) == r - x % d;
    MulSigned(d, x / d - q);
  }

  lemma {:induction false} PowPositive(n: nat)
    ensures Pow256(n) > 0
  {
    if n > 0 { PowPositive(n - 1); }
  }

  lemma {:induction false} LeByte(x: nat, n: nat, i: nat)
    requires i < n
    ensures Pow256(i) > 0 && Le(x, n)[i] as nat == Byte(x, Pow256(i))
  {
    PowPositive(i);
    if i > 0 {
      LeByte(x / 256, n - 1, i - 1);
      DivDiv(x, Pow256(i - 1));
    }
  }

  lemma {:induction false} FromLe4(b: bytes)
    requires |b| == 4
    ensures FromLe(b) == b[0] as nat + 0x100 * b[1] as nat + 0x1_0000 * b[2] as nat + 0x100_0000 * b[3] as nat
  {
    var c, d, e := b[1..], b[1..][1..], b[1..][1..][1..];
    assert c[0] == b[1] && d[0] == b[2] && e[0] == b[3] && FromLe(e[1..]) == 0;
    assert FromLe(e) == b[3] as nat;
    assert FromLe(d) == b[2] as nat + 0x100 * b[3] as nat;
    assert FromLe(c) == b[1] as nat + 0x100 * b[2] as nat + 0x1_0000 * b[3] as nat;
  }

  lemma {:induction false} FromLe8(b: bytes)
    requires |b| == 8
    ensures FromLe(b) == FromLe(b[..4]) + 0x1_0000_0000 * FromLe(b[4..])
  {
    FromLe4(b[..4]);
    var c, d, e, f := b[1..], b[2..], b[3..], b[4..];
    assert c[1..] == d && d[1..] == e && e[1..] == f;
    assert FromLe(e) == b[3] as nat + 0x100 * FromLe(f);
    assert FromLe(d) == b[2] as nat + 0x100 * FromLe(e);
    assert FromLe(c) == b[1] as nat + 0x100 * FromLe(d);
  }

  /** The swaps mirror the bytes. */
  lemma {:induction false} SwapReverses(x: nat)
    ensures x < 0x1_0000_0000 ==> Bswap32(x) == FromLe(Reverse(Le(x, 4)))
    ensures x < 0x1_0000_0000_0000_0000 ==> Bswap64(x) == FromLe(Reverse(Le(x, 8)))
  {
    PowValues();
    assert Pow256(1) == 0x100 && Pow256(2) == 0x1_0000 && Pow256(3) == 0x100_0000;
    assert Pow256(5) == 0x100_0000_0000 && Pow256(6) == 0x1_0000_0000_0000 && Pow256(7) == 0x100_0000_0000_0000;
    forall i: nat | i < 4 ensures Pow256(i) > 0 && Le(x, 4)[i] as nat == Byte(x, Pow256(i)) { LeByte(x, 4, i); }
    forall i: nat | i < 8 ensures Pow256(i) > 0 && Le(x, 8)[i] as nat == Byte(x, Pow256(i)) { LeByte(x, 8, i); }
    hide Byte, Pow256, Le;
    FromLe4(Reverse(Le(x, 4)));
    var r := Reverse(Le(x, 8));
    FromLe8(r);
    FromLe4(r[..4]);
    FromLe4(r[4..]);
  }

  lemma {:induction false} ReverseTwice(b: bytes)
    ensures Reverse(Reverse(b)) == b
  {
  }

  /** omni_bswap64 undoes itself. */
  lemma {:induction false} SwapTwice(x: u64)
    ensures Bswap64(Bswap64(x)) == x
  {
    hide Bswap64, Le, FromLe, Reverse;
    PowValues();
    var b := Reverse(Le(x, 8));
    SwapReverses(x);
    SwapReverses(Bswap64(x));
    LeFromLe(b);
    ReverseTwice(Le(x, 8));
    FromLeLe(x, 8);
  }

  lemma {:induction false} SwapTwice32(x: u32)
    ensures Bswap32(Bswap32(x)) == x
  {
    hide Bswap32, Le, FromLe, Reverse;
    PowValues();
    SwapReverses(x);
    SwapReverses(Bswap32(x));
    LeFromLe(Reverse(Le(x, 4)));
    ReverseTwice(Le(x, 4));
    FromLeLe(x, 4);
  }

  /** On every machine the stored result of htonl and omni_htonll is the number with its highest byte first. */
  lemma {:induction false} NetworkOrder(h: Host, x: nat)
    ensures x < 0x1_0000_0000 ==> Store(h, Htonl(h, x), 4) == Reverse(Le(x, 4))
    ensures x < 0x1_0000_0000_0000_0000 ==> Store(h, Htonll(h, x), 8) == Reverse(Le(x, 8))
  {
    hide Bswap32, Bswap64, Le, FromLe, Reverse;
    SwapReverses(x);
    LeFromLe(Reverse(Le(x, 4)));
    LeFromLe(Reverse(Le(x, 8)));
  }

  /** The header on the wire does not depend on the machine that wrote it. */
  lemma {:induction false} HeaderOnWire(h: Host, kind: u32, len: u32, timestamp: u64)
    ensures StoreHeader(h, HeaderEncode(h, kind, len, timestamp)) == WireHeader(kind, len, timestamp)
  {
    NetworkOrder(h, kind);
    NetworkOrder(h, len);
    NetworkOrder(h, timestamp);
  }

  lemma {:induction false} StoreLoad(h: Host, x: nat, n: nat)
    requires x < Pow256(n)
    ensures Load(h, Store(h, x, n)) == x
  {
    FromLeLe(x, n);
    ReverseTwice(Le(x, n));
  }

  lemma {:induction false} LoadStore(h: Host, b: bytes)
    ensures Store(h, Load(h, b), |b|) == b
  {
    LeFromLe(b);
    LeFromLe(Reverse(b));
    ReverseTwice(b);
  }

  /** A header of any machine is read back by any machine. */
  lemma {:induction false} HeaderRoundTrip(h: Host, h': Host, kind: u32, len: u32, timestamp: u64)
    ensures var b := StoreHeader(h, HeaderEncode(h, kind, len, timestamp));
            HeaderDecode(h', LoadHeader(h', b)) == MsgHeader(kind, len, timestamp)
  {
    hide Bswap32, Bswap64, Store, Load, Le, Reverse;
    HeaderOnWire(h, kind, len, timestamp);
    HeaderOnWire(h', kind, len, timestamp);
    var e := HeaderEncode(h', kind, len, timestamp);
    var b := StoreHeader(h', e);
    assert b[..4] == Store(h', e.kind, 4) && b[4..8] == Store(h', e.len, 4) && b[8..] == Store(h', e.timestamp, 8);
    PowValues();
    StoreLoad(h', e.kind, 4);
    StoreLoad(h', e.len, 4);
    StoreLoad(h', e.timestamp, 8);
    SwapTwice32(kind);
    SwapTwice32(len);
    SwapTwice(timestamp);
  }

  /** Every 16 bytes are the header some sender wrote: decoding loses nothing. */
  lemma {:induction false} HeaderIsOnto(h: Host, b: bytes)
    requires |b| == MSG_HEADER_SIZE
    ensures var d := HeaderDecode(h, LoadHeader(h, b)); WireHeader(d.kind, d.len, d.timestamp) == b
  {
    hide Bswap32, Bswap64, Store, Load, Le, Reverse;
    var net := LoadHeader(h, b);
    var d := HeaderDecode(h, net);
    HeaderOnWire(h, d.kind, d.len, d.timestamp);
    SwapTwice32(net.kind);
    SwapTwice32(net.len);
    SwapTwice(net.timestamp);
    LoadStore(h, b[..4]);
    LoadStore(h, b[4..8]);
    LoadStore(h, b[8..]);
    assert b == b[..4] + b[4..8] + b[8..];
  }
}
