/** The output buffer of ikcp_flush: `buffer`, the moving `ptr`, and the output callback, which here appends to a log
    of datagrams. */
module Packers {
  import opened Serial
  import opened Types
  import opened Wire

  lemma {:induction false} NoSegments(d: seq<Seg>)
    ensures Size(d) == 0 <==> d == []
  {
  }

  class Packer {
    const conv: u32
    const mtu: nat
    const buffer: array<byte>
    /** ptr - buffer. */
    var ptr: nat
    /** What the output callback was given so far. */
    var sent: seq<bytes>
    /** The segments the bytes stand for. */
    ghost var packing: Packing

    ghost predicate Valid()
      reads this, buffer
    {
      && buffer.Length == (mtu + OVERHEAD) * 3 && ptr <= mtu
      && buffer[..ptr] == EncodeAll(conv, packing.cur)
      && sent == EncodeEach(conv, packing.out)
    }

    /** The buffer as ikcp_create allocates it. */
    constructor (conv: u32, mtu: nat)
      ensures Valid() && fresh(buffer) && this.conv == conv && this.mtu == mtu
      ensures packing == Packing([], []) && sent == []
    {
      this.conv, this.mtu := conv, mtu;
      buffer := new byte[(mtu + OVERHEAD) * 3];
      ptr, sent, packing := 0, [], Packing([], []);
    }

    /** ikcp_encode8u, ikcp_encode16u, ikcp_encode32u and memcpy: bytes at ptr, ptr moved behind them. */
    method Append(b: bytes)
      requires ptr + |b| <= buffer.Length
      modifies this`ptr, buffer
      ensures ptr == old(ptr) + |b|
      ensures buffer[..ptr] == old(buffer[..ptr]) + b
    {
      forall i | 0 <= i < |b| {
        buffer[ptr + i] := b[i];
      }
      ptr := ptr + |b|;
    }

    /** The first eight bytes of ikcp_encode_seg. */
    method EncodeFront(s: Seg)
      requires ptr + 8 <= buffer.Length
      modifies this`ptr, buffer
      ensures ptr == old(ptr) + 8
      ensures buffer[..ptr] == old(buffer[..ptr])
                               + (Le32(conv) + [CmdByte(s.cmd), (s.frg % 256) as byte] + Le16(s.wnd))
    {
      hide Le32, Le16;
      Le32Length(conv);
      Le16Length(s.wnd);
      ghost var b0 := buffer[..ptr];
      Append(Le32(conv));
      Append([CmdByte(s.cmd)]);
      Append([(s.frg % 256) as byte]);
      Append(Le16(s.wnd));
      assert buffer[..ptr] == b0 + (Le32(conv) + [CmdByte(s.cmd), (s.frg % 256) as byte] + Le16(s.wnd));
    }

    /** The four numbers at the end of ikcp_encode_seg. */
    method EncodeNumbers(s: Seg)
      requires ptr + 16 <= buffer.Length
      modifies this`ptr, buffer
      ensures ptr == old(ptr) + 16
      ensures buffer[..ptr] == old(buffer[..ptr]) + (Le32(s.ts) + Le32(s.sn) + Le32(s.una) + Le32(|s.data|))
    {
      hide Le32;
      Le32Length(s.ts);
      Le32Length(s.sn);
      Le32Length(s.una);
      Le32Length(|s.data|);
      ghost var b0 := buffer[..ptr];
      Append(Le32(s.ts));
      Append(Le32(s.sn));
      Append(Le32(s.una));
      Append(Le32(|s.data|));
      assert buffer[..ptr] == b0 + (Le32(s.ts) + Le32(s.sn) + Le32(s.una) + Le32(|s.data|));
    }

    /** ikcp_encode_seg: the header, member by member. */
    method EncodeHeader(s: Seg)
      requires ptr + OVERHEAD <= buffer.Length
      modifies this`ptr, buffer
      ensures ptr == old(ptr) + OVERHEAD
      ensures buffer[..ptr] == old(buffer[..ptr]) + Header(conv, s)
    {
      hide Le32, Le16;
      ghost var b0 := buffer[..ptr];
      EncodeFront(s);
      EncodeNumbers(s);
      assert buffer[..ptr] == b0 + Header(conv, s);
    }

    /** ikcp_output with the bytes before ptr, and ptr back to the start of the buffer; an empty buffer is not sent. */
    method Output()
      requires Valid()
      modifies this`ptr, this`sent, this`packing
      ensures Valid() && packing == Packing(Close(old(packing)), [])
    {
      EncodedLength(conv, packing.cur);
      if ptr > 0 {
        sent := sent + [buffer[..ptr]];
        packing := Packing(packing.out + [packing.cur], []);
      } else {
        NoSegments(packing.cur);
      }
      ptr := 0;
      assert buffer[..0] == [];
    }

    /** "if (size + need > mtu) output; encode". */
    method Put(s: Seg)
      requires Valid() && SegSize(s) <= mtu
      modifies this, buffer
      ensures Valid() && packing == Wire.Put(mtu, old(packing), s)
    {
      EncodedLength(conv, packing.cur);
      if ptr + SegSize(s) > mtu {
        Output();
      }
      EncodeHeader(s);
      Append(s.data);
      assert (packing.cur + [s])[..|packing.cur|] == packing.cur;
      packing := Packing(packing.out, packing.cur + [s]);
    }

    /** "flash remain segments", and a fresh packing for the next flush. */
    method Finish()
      requires Valid()
      modifies this`ptr, this`sent, this`packing
      ensures Valid() && packing == Packing(Close(old(packing)), [])
    {
      Output();
    }
  }
}
