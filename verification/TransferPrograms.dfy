/** The loops of client_main.c and server_main.c over their buffers.  omni_send and omni_recv, the file and the stop
    requests are what a script says they did. */
module TransferPrograms {
  import opened Serial
  import opened Types
  import opened Headers
  import opened Tcp
  import opened Transfer

  class Client {
    const host: Host
    const file: bytes
    const chunkSize: nat
    var pos: nat
    var eof: bool
    var running: bool
    var totalSent: nat
    /** The frames omni_send was called with, and its answers. */
    var handed: seq<bytes>
    var replies: seq<int>

    ghost function View(): Sender
      reads this
    {
      Sender(pos, eof, running, totalSent, handed, replies)
    }

    constructor (host: Host, file: bytes, chunkSize: nat)
      ensures View() == SENDER_START && this.host == host && this.file == file && this.chunkSize == chunkSize
    {
      this.host, this.file, this.chunkSize := host, file, chunkSize;
      pos, eof, running, totalSent, handed, replies := 0, false, true, 0, [], [];
    }

    /** fread: up to n bytes of the file into chunk; at the end of the file it sets the end-of-file indicator. */
    method Fread(chunk: array<byte>, n: nat) returns (nread: nat)
      requires chunk.Length == chunkSize && pos <= |file| && chunkSize > 0
      modifies this`pos, this`eof, chunk
      ensures nread == Share(n, Min(chunkSize, |file| - old(pos))) && pos == old(pos) + nread
      ensures eof == (old(eof) || nread == 0) && chunk[..nread] == file[old(pos)..old(pos) + nread]
    {
      nread := Share(n, Min(chunkSize, |file| - pos));
      forall i | 0 <= i < nread {
        chunk[i] := file[pos + i];
      }
      pos := pos + nread;
      eof := eof || nread == 0;
    }

    /** send_app_message: header and payload into one frame, one call of omni_send. */
    method SendAppMessage(kind: u32, payload: bytes, now: u64, reply: int) returns (rc: int)
      requires |payload| < MOD
      modifies this`handed, this`replies
      ensures var (s, sent) := SendApp(host, old(View()), kind, payload, now, reply);
        View() == s && rc == if sent then 0 else ERR_IO
    {
      hide StoreHeader, HeaderEncode;
      var totalLen := MSG_HEADER_SIZE + |payload|;
      var frame := new byte[totalLen];
      var hdr := StoreHeader(host, HeaderEncode(host, kind, |payload|, now));
      forall i | 0 <= i < MSG_HEADER_SIZE {
        frame[i] := hdr[i];
      }
      forall i | 0 <= i < |payload| {
        frame[MSG_HEADER_SIZE + i] := payload[i];
      }
      assert frame[..] == hdr + payload;
      handed, replies := handed + [frame[..]], replies + [reply];
      return if reply != totalLen then ERR_IO else 0;
    }

    /** One turn of the sending loop. */
    method Turn(chunk: array<byte>, p: Pass)
      requires chunk.Length == chunkSize && pos <= |file| && 1 <= chunkSize <= MAX_CHUNK
      modifies this, chunk
      ensures View() == SendTurn(host, file, chunkSize, old(View()), p)
    {
      hide AppFrame;
      match p {
        case Stop =>
          running := false;
        case Fault =>
          running := false;
        case Chunk(size, now, reply) =>
          var nread := Fread(chunk, size);
          if nread > 0 {
            var rc := SendAppMessage(MSG_TYPE_FILE_CHUNK, chunk[..nread], now, reply);
            if rc != 0 {
              running := false;
            } else {
              totalSent := totalSent + nread;
            }
          }
      }
    }

    /** The sending part of main. */
    method Run(c: Script)
      requires View() == SENDER_START && 1 <= chunkSize <= MAX_CHUNK
      modifies this
      ensures View() == SendFile(host, file, chunkSize, c)
    {
      hide AppFrame, SendTurn;
      var chunk := new byte[chunkSize];
      var i := 0;
      assert c.passes[0..] == c.passes;
      while running && !eof
        invariant 0 <= i <= |c.passes| && pos <= |file|
        invariant SendLoop(host, file, chunkSize, View(), c.passes[i..])
               == SendLoop(host, file, chunkSize, SENDER_START, c.passes)
        decreases |c.passes| - i, running
      {
        if i == |c.passes| {
          running := false;
          break;
        }
        assert c.passes[i..][1..] == c.passes[i + 1..];
        TurnStays(host, file, chunkSize, View(), c.passes[i]);
        Turn(chunk, c.passes[i]);
        i := i + 1;
      }
      running := running && c.alive;
      if running {
        var rc := SendAppMessage(MSG_TYPE_FILE_END, [], c.now, c.reply);
        if rc != 0 {
          running := false;
        }
      }
    }
  }

  class ServerRuntime {
    const host: Host
    const tcp: bool
    var running: bool
    var transferDone: bool
    var outFile: bytes
    var bytesWritten: nat

    ghost function View(): Server
      reads this
    {
      Server(running, transferDone, outFile, bytesWritten)
    }

    constructor (host: Host, tcp: bool)
      ensures View() == SERVER_START && this.host == host && this.tcp == tcp
    {
      this.host, this.tcp := host, tcp;
      running, transferDone, outFile, bytesWritten := true, false, [], 0;
    }

    /** fwrite, which takes no more than the disk has room for. */
    method Fwrite(payload: bytes, disk: nat) returns (nw: nat)
      modifies this`outFile
      ensures nw == Min(disk, |payload|) && outFile == old(outFile) + payload[..nw]
    {
      nw := Min(disk, |payload|);
      outFile := outFile + payload[..nw];
    }

    /** decode_app_message on the first n bytes of the buffer. */
    method DecodeAppMessage(frame: array<byte>, n: nat) returns (rc: int, hdr: MsgHeader, payload: bytes)
      requires n <= frame.Length
      ensures match DecodeApp(host, frame[..n])
              case Bad(code) => rc == code
              case Good(h, p) => rc == 0 && hdr == h && payload == p
    {
      hide HeaderDecode, LoadHeader;
      hdr, payload := MsgHeader(0, 0, 0), [];
      if n < MSG_HEADER_SIZE {
        return ERR_PARAM, hdr, payload;
      }
      assert frame[..n][..MSG_HEADER_SIZE] == frame[..MSG_HEADER_SIZE];
      hdr := HeaderDecode(host, LoadHeader(host, frame[..MSG_HEADER_SIZE]));
      if hdr.len + MSG_HEADER_SIZE != n {
        return ERR_IO, hdr, payload;
      }
      assert frame[..n][MSG_HEADER_SIZE..] == frame[MSG_HEADER_SIZE..n];
      return 0, hdr, frame[MSG_HEADER_SIZE..n];
    }

    /** One turn of recv_thread_main behind omni_recv. */
    method Turn(frame: array<byte>, n: int, disk: nat)
      requires running && n <= frame.Length
      modifies this`running, this`transferDone, this`outFile, this`bytesWritten
      ensures View() == ServeTurn(host, tcp, old(View()), Incoming(n, if n > 0 then frame[..n] else [], disk))
    {
      hide DecodeApp;
      if n < 0 {
        running := false;
        return;
      }
      if n == 0 {
        if tcp {
          running := false;
        }
        return;
      }
      var rc, hdr, payload := DecodeAppMessage(frame, n);
      BadCode(host, frame[..n]);
      if rc != 0 {
        return;
      }
      if hdr.kind == MSG_TYPE_FILE_CHUNK {
        var nw := Fwrite(payload, disk);
        if nw != |payload| {
          running := false;
        } else {
          bytesWritten := bytesWritten + nw;
        }
      } else if hdr.kind == MSG_TYPE_FILE_END {
        transferDone := true;
      }
    }

    /** recv_thread_main, for as long as the script of arrivals lasts. */
    method RecvThread(xs: seq<Incoming>)
      requires forall i :: 0 <= i < |xs| ==> xs[i].code <= SERVER_FRAME_BUF_SIZE && |xs[i].data| == Max(xs[i].code, 0)
      modifies this
      ensures View() == Serve(host, tcp, old(View()), xs)
    {
      hide ServeTurn;
      var frame := new byte[SERVER_FRAME_BUF_SIZE];
      var i := 0;
      assert xs[0..] == xs;
      while running && i < |xs|
        invariant 0 <= i <= |xs|
        invariant Serve(host, tcp, View(), xs[i..]) == Serve(host, tcp, old(View()), xs)
      {
        var n := xs[i].code;
        forall k | 0 <= k < |xs[i].data| {
          frame[k] := xs[i].data[k];
        }
        assert n > 0 ==> frame[..n] == xs[i].data;
        assert xs[i] == Incoming(n, if n > 0 then frame[..n] else [], xs[i].disk);
        assert xs[i..][1..] == xs[i + 1..];
        Turn(frame, n, xs[i].disk);
        i := i + 1;
      }
    }
  }

  lemma {:induction false} TurnStays(h: Host, file: bytes, chunk: nat, s: Sender, p: Pass)
    requires s.pos <= |file|
    ensures SendTurn(h, file, chunk, s, p).pos <= |file|
  {
    hide AppFrame;
  }

  lemma {:induction false} BadCode(h: Host, frame: bytes)
    ensures DecodeApp(h, frame).Bad? ==> DecodeApp(h, frame).code < 0
  {
  }
}
