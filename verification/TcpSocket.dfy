/** tcp_impl.c as it is written: loops that move a buffer through short reads and writes. */
module TcpSockets {
  import opened Serial
  import opened Types
  import opened Headers
  import opened Tcp

  /** What a call of read or write returns; `eintr` is errno == EINTR. */
  datatype Syscall = Syscall(ret: int, eintr: bool)

  class TcpContext {
    const host: Host
    /** The bytes that read will still return, and what its next calls do. */
    var inbound: bytes
    var inPlan: seq<Turn>
    /** The bytes handed to write, and what its next calls do. */
    var outbound: bytes
    var outPlan: seq<Turn>

    constructor (host: Host, inbound: bytes, inPlan: seq<Turn>, outPlan: seq<Turn>)
      ensures this.host == host && Stream(this.inbound, this.inPlan) == Stream(inbound, inPlan)
      ensures Stream(outbound, this.outPlan) == Stream([], outPlan)
    {
      this.host, this.inbound, this.inPlan, this.outbound, this.outPlan := host, inbound, inPlan, [], outPlan;
    }

    /** The system call read, into buf at off. */
    method Read(buf: array<byte>, off: nat, n: nat) returns (r: Syscall)
      requires off + n <= buf.Length && n > 0
      modifies this`inbound, this`inPlan, buf
      ensures var g := OneRead(old(Stream(inbound, inPlan)), n);
        && Stream(inbound, inPlan) == g.rest && r.ret == g.code && r.eintr == Eintr(old(inPlan))
        && buf[..off + |g.data|] == old(buf[..off]) + g.data
    {
      var turn := if inPlan == [] then Moves(n) else inPlan[0];
      inPlan := if inPlan == [] then [] else inPlan[1..];
      if turn.Moves? {
        var k := Share(turn.k, Min(n, |inbound|));
        forall i | 0 <= i < k {
          buf[off + i] := inbound[i];
        }
        inbound := inbound[k..];
        return Syscall(k, false);
      }
      return Syscall(-1, turn.Interrupted?);
    }

    /** tcp_read_n. */
    method ReadN(buf: array<byte>, n: nat) returns (r: int)
      requires n <= buf.Length
      modifies this`inbound, this`inPlan, buf
      ensures var g := Tcp.ReadN(old(Stream(inbound, inPlan)), n);
        && r == g.code <= n && Stream(inbound, inPlan) == g.rest
        && (r >= 0 ==> buf[..r] == g.data)
    {
      ghost var g := Tcp.ReadN(Stream(inbound, inPlan), n);
      ReadNBounds(Stream(inbound, inPlan), n);
      hide Tcp.ReadN, OneRead, Eintr;
      var off := 0;
      assert buf[..0] + g.data == g.data;
      while off < n
        invariant 0 <= off <= n
        invariant var now := Tcp.ReadN(Stream(inbound, inPlan), n - off);
          && g.rest == now.rest && g.code == (if now.code < 0 then -1 else off + now.code)
          && (now.code >= 0 ==> g.data == buf[..off] + now.data)
        decreases |inPlan|, n - off
      {
        ghost var now, ahead := OneRead(Stream(inbound, inPlan), n - off), buf[..off];
        StepRead(Stream(inbound, inPlan), n - off);
        var r := Read(buf, off, n - off);
        if r.ret < 0 {
          assert buf[..off] == ahead;
          if r.eintr {
            continue;
          }
          return -1;
        }
        if r.ret == 0 {
          assert buf[..off] + [] == buf[..off];
          return off;
        }
        SumOfParts(ahead, now.data, Tcp.ReadN(now.rest, n - off - r.ret).data);
        off := off + r.ret;
      }
      assert buf[..off] + [] == buf[..off];
      NothingAsked(Stream(inbound, inPlan));
      return off;
    }

    /** The system call write, from b at off. */
    method Write(b: bytes, off: nat) returns (r: Syscall)
      requires off < |b|
      modifies this`outbound, this`outPlan
      ensures var turn, most := if old(outPlan) == [] then Moves(|b|) else old(outPlan)[0], |b| - off;
        && outPlan == (if old(outPlan) == [] then [] else old(outPlan)[1..])
        && r.ret == (if turn.Moves? then Min(turn.k, most) else -1) && r.eintr == turn.Interrupted?
        && outbound == old(outbound) + if turn.Moves? then b[off..off + r.ret] else []
    {
      var turn := if outPlan == [] then Moves(|b|) else outPlan[0];
      outPlan := if outPlan == [] then [] else outPlan[1..];
      if turn.Moves? {
        var k := Min(turn.k, |b| - off);
        outbound := outbound + b[off..off + k];
        return Syscall(k, false);
      }
      return Syscall(-1, turn.Interrupted?);
    }

    /** tcp_write_n. */
    method WriteN(b: bytes) returns (r: int)
      modifies this`outbound, this`outPlan
      ensures var p := Tcp.WriteN(old(Stream(outbound, outPlan)), b);
        r == p.code && Stream(outbound, outPlan) == p.rest
    {
      ghost var p := Tcp.WriteN(Stream(outbound, outPlan), b);
      ghost var _ := WriteNExact(Stream(outbound, outPlan), b);
      var off := 0;
      assert b[0..] == b;
      while off < |b|
        invariant 0 <= off <= |b|
        invariant var now := Tcp.WriteN(Stream(outbound, outPlan), b[off..]);
          p.rest == now.rest && p.code == if now.code < 0 then -1 else off + now.code
        decreases |outPlan|, |b| - off
      {
        StepWrite(Stream(outbound, outPlan), b[off..]);
        ghost var before := outbound;
        var r := Write(b, off);
        if r.ret < 0 {
          assert outbound == before;
          if r.eintr {
            continue;
          }
          return -1;
        }
        assert b[off..][..r.ret] == b[off..off + r.ret] && b[off..][r.ret..] == b[off + r.ret..];
        off := off + r.ret;
      }
      return off;
    }

    /** tcp_send. */
    method Send(msg: bytes, now: u64) returns (r: int)
      modifies this`outbound, this`outPlan
      ensures var p := Tcp.Send(host, old(Stream(outbound, outPlan)), Message(msg, now));
        r == p.code && Stream(outbound, outPlan) == p.rest
    {
      hide Tcp.WriteN, StoreHeader, HeaderEncode;
      var hdr := HeaderEncode(host, MSG_TYPE_RAW, U32(|msg|), now);
      var n1 := WriteN(StoreHeader(host, hdr));
      if n1 != MSG_HEADER_SIZE {
        return ERR_IO;
      }
      var n2 := WriteN(msg);
      if n2 != |msg| {
        return ERR_IO;
      }
      return |msg|;
    }

    /** tcp_recv. */
    method Recv(buf: array<byte>, len: nat) returns (r: int)
      requires len <= buf.Length
      modifies this`inbound, this`inPlan, buf
      ensures var g := Tcp.Recv(host, old(Stream(inbound, inPlan)), len);
        && r == g.code <= len && Stream(inbound, inPlan) == g.rest
        && (r >= 0 ==> buf[..r] == g.data)
    {
      hide Tcp.ReadN, HeaderDecode, LoadHeader;
      var headerBuf := new byte[MSG_HEADER_SIZE];
      var n1 := ReadN(headerBuf, MSG_HEADER_SIZE);
      if n1 <= 0 {
        assert buf[..0] == [];
        return n1;
      }
      if n1 != MSG_HEADER_SIZE {
        return ERR_IO;
      }
      var payloadLen := HeaderDecode(host, LoadHeader(host, headerBuf[..MSG_HEADER_SIZE])).len;
      if payloadLen > len {
        return ERR_PARAM;
      }
      var n2 := ReadN(buf, payloadLen);
      if n2 != payloadLen {
        return ERR_IO;
      }
      return payloadLen;
    }
  }

  /** One call of read. */
  function OneRead(s: Stream, n: nat): (g: Got)
    ensures -1 <= g.code <= n && |g.data| == Max(g.code, 0)
  {
    var turn := if s.plan == [] then Moves(n) else s.plan[0];
    var plan := if s.plan == [] then [] else s.plan[1..];
    if turn.Moves? then
      var r := Share(turn.k, Min(n, |s.data|));
      Got(r, s.data[..r], Stream(s.data[r..], plan))
    else Got(-1, [], s.(plan := plan))
  }

  predicate Eintr(plan: seq<Turn>) {
    plan != [] && plan[0].Interrupted?
  }

  /** One turn of the loop of tcp_read_n. */
  lemma {:induction false} StepRead(s: Stream, n: nat)
    requires n > 0
    ensures var o := OneRead(s, n);
      && (|o.rest.plan| < |s.plan| || (o.rest.plan == s.plan && o.code >= 0))
      && Tcp.ReadN(s, n) ==
          if o.code < 0 then (if Eintr(s.plan) then Tcp.ReadN(o.rest, n) else o)
          else if o.code == 0 then o
          else
            var g := Tcp.ReadN(o.rest, n - o.code);
            if g.code < 0 then Got(-1, [], g.rest) else Got(o.code + g.code, o.data + g.data, g.rest)
  {
    if s.plan == [] {
      var r := Min(n, |s.data|);
      if r > 0 {
        assert s.data[r..] == [] || n == r;
        assert s.data[r..][..0] == [] && s.data[r..][0..] == s.data[r..];
        assert s.data[..r] + [] == s.data[..r];
      }
    }
  }

  lemma {:induction false} NothingAsked(s: Stream)
    ensures Tcp.ReadN(s, 0) == Got(0, [], s)
  {
  }

  lemma {:induction false} StepWrite(o: Stream, b: bytes)
    requires b != []
    ensures o.plan == [] ==> Tcp.WriteN(o, b) == Put(|b|, o.(data := o.data + b))
    ensures o.data + [] == o.data && o.data + b[..|b|] == o.data + b
  {
  }

  lemma {:induction false} SumOfParts(a: bytes, b: bytes, c: bytes)
    ensures (a + b) + c == a + (b + c)
  {
  }
}
