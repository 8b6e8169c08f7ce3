/** client_main.c and server_main.c: a file is sent in chunks, each a message of its own, and written as it comes. */
module Transfer {
  import opened Serial
  import opened Types
  import opened Headers
  import opened Tcp

  const MAX_CHUNK := 65536
  const SERVER_FRAME_BUF_SIZE := MSG_HEADER_SIZE + 65536

  // ----- application messages

  /** The frame send_app_message builds. */
  function AppFrame(h: Host, kind: u32, payload: bytes, now: u64): (f: bytes)
    ensures |f| == MSG_HEADER_SIZE + |payload|
  {
    StoreHeader(h, HeaderEncode(h, kind, U32(|payload|), now)) + payload
  }

  datatype Decoded = Bad(code: int) | Good(hdr: MsgHeader, payload: bytes)

  /** decode_app_message. */
  function DecodeApp(h: Host, frame: bytes): Decoded {
    if |frame| < MSG_HEADER_SIZE then Bad(ERR_PARAM)
    else
      var hdr := HeaderDecode(h, LoadHeader(h, frame[..MSG_HEADER_SIZE]));
      if hdr.len + MSG_HEADER_SIZE != |frame| then Bad(ERR_IO) else Good(hdr, frame[MSG_HEADER_SIZE..])
  }

  /** What one machine frames, every machine takes apart. */
  lemma {:induction false} AppRoundTrip(h: Host, h': Host, kind: u32, payload: bytes, now: u64)
    requires |payload| < MOD
    ensures DecodeApp(h', AppFrame(h, kind, payload, now)) == Good(MsgHeader(kind, |payload|, now), payload)
  {
    hide HeaderDecode, LoadHeader, HeaderEncode, StoreHeader;
    var f := AppFrame(h, kind, payload, now);
    HeaderRoundTrip(h, h', kind, |payload|, now);
    assert f[..MSG_HEADER_SIZE] == StoreHeader(h, HeaderEncode(h, kind, |payload|, now));
  }

  /** decode_app_message accepts exactly the frames some machine could have built, and names what they were built of. */
  lemma {:induction false} DecodeExact(h: Host, h': Host, frame: bytes)
    ensures var d := DecodeApp(h', frame);
      d.Good? ==> |d.payload| < MOD && frame == AppFrame(h, d.hdr.kind, d.payload, d.hdr.timestamp)
    ensures DecodeApp(h', frame).Good? <==> |frame| >= 16 && Announced(frame) + 16 == |frame|
  {
    hide HeaderDecode, LoadHeader, HeaderEncode, StoreHeader, WireHeader, Announced;
    if |frame| >= 16 {
      var b := frame[..16];
      HeaderIsOnto(h', b);
      var d := HeaderDecode(h', LoadHeader(h', b));
      AnnouncedHeader(d.kind, d.len, d.timestamp, frame[16..]);
      HeaderOnWire(h, d.kind, d.len, d.timestamp);
      assert b + frame[16..] == frame;
    }
  }

  // ----- the sender

  /** What one turn of the loop of main meets: a stop request, a read error, or at least one and at most `size` bytes
      of the file and a result of omni_send for them. */
  datatype Pass = Stop | Fault | Chunk(size: nat, now: u64, reply: int)

  /** A whole run: the passes; whether `running` is still set behind the loop; time and result for FILE_END. */
  datatype Script = Script(passes: seq<Pass>, alive: bool, now: u64, reply: int)

  /** The variables of main, the frames handed to omni_send, and what it answered. */
  datatype Sender = Sender(pos: nat, eof: bool, running: bool, total: nat, handed: seq<bytes>, replies: seq<int>)

  const SENDER_START := Sender(0, false, true, 0, [], [])

  /** send_app_message; false for ERR_IO. */
  function SendApp(h: Host, s: Sender, kind: u32, payload: bytes, now: u64, reply: int): (Sender, bool) {
    var f := AppFrame(h, kind, payload, now);
    (s.(handed := s.handed + [f], replies := s.replies + [reply]), reply == |f|)
  }

  /** One turn of the sending loop. */
  function SendTurn(h: Host, file: bytes, chunk: nat, s: Sender, t: Pass): Sender
    requires s.pos <= |file|
  {
    match t
    case Stop => s.(running := false)
    case Fault => s.(running := false)
    case Chunk(size, now, reply) =>
      var n := Share(size, Min(chunk, |file| - s.pos));
      if n == 0 then s.(eof := true)
      else
        var (s', sent) := SendApp(h, s, MSG_TYPE_FILE_CHUNK, file[s.pos..s.pos + n], now, reply);
        if sent then s'.(pos := s.pos + n, total := s.total + n) else s'.(pos := s.pos + n, running := false)
  }

  /** The sending loop; a script that is too short ends in a stop request. */
  function SendLoop(h: Host, file: bytes, chunk: nat, s: Sender, passes: seq<Pass>): (s': Sender)
    requires s.pos <= |file|
    ensures s'.pos <= |file|
    decreases |passes|
  {
    if !s.running || s.eof then s
    else if passes == [] then s.(running := false)
    else SendLoop(h, file, chunk, SendTurn(h, file, chunk, s, passes[0]), passes[1..])
  }

  /** Behind the loop: FILE_END, if still running. */
  function SendEnd(h: Host, s: Sender, c: Script): Sender {
    var s1 := s.(running := s.running && c.alive);
    if !s1.running then s1
    else
      var (s2, sent) := SendApp(h, s1, MSG_TYPE_FILE_END, [], c.now, c.reply);
      s2.(running := sent)
  }

  function SendFile(h: Host, file: bytes, chunk: nat, c: Script): Sender {
    SendEnd(h, SendLoop(h, file, chunk, SENDER_START, c.passes), c)
  }

  // ----- the receiver

  /** A result of omni_recv, the bytes it put into the buffer, and how many bytes fwrite will take. */
  datatype Incoming = Incoming(code: int, data: bytes, disk: nat)

  /** ServerRuntime; `out` is the contents of the output file. */
  datatype Server = Server(running: bool, done: bool, out: bytes, written: nat)

  const SERVER_START := Server(true, false, [], 0)

  /** One turn of recv_thread_main. */
  function ServeTurn(h: Host, tcp: bool, s: Server, x: Incoming): Server {
    if x.code < 0 then s.(running := false)
    else if x.code == 0 then (if tcp then s.(running := false) else s)
    else
      match DecodeApp(h, x.data)
      case Bad(_) => s
      case Good(hdr, payload) =>
        if hdr.kind == MSG_TYPE_FILE_CHUNK then
          var nw := Min(x.disk, |payload|);
          var s1 := s.(out := s.out + payload[..nw]);
          if nw != |payload| then s1.(running := false) else s1.(written := s.written + nw)
        else if hdr.kind == MSG_TYPE_FILE_END then s.(done := true)
        else s
  }

  function Serve(h: Host, tcp: bool, s: Server, xs: seq<Incoming>): Server
    decreases |xs|
  {
    if xs == [] || !s.running then s else Serve(h, tcp, ServeTurn(h, tcp, s, xs[0]), xs[1..])
  }

  // ----- what the sender hands over

  predicate ChunkFrame(h: Host, chunk: nat, f: bytes) {
    var d := DecodeApp(h, f);
    d.Good? && d.hdr.kind == MSG_TYPE_FILE_CHUNK && 1 <= |d.payload| <= chunk
  }

  predicate EndFrame(h: Host, f: bytes) {
    var d := DecodeApp(h, f);
    d.Good? && d.hdr.kind == MSG_TYPE_FILE_END && d.payload == []
  }

  function Payload(h: Host, f: bytes): bytes {
    var d := DecodeApp(h, f);
    if d.Good? then d.payload else []
  }

  function Payloads(h: Host, fs: seq<bytes>): bytes {
    if fs == [] then [] else Payloads(h, fs[..|fs| - 1]) + Payload(h, fs[|fs| - 1])
  }

  /** A list of frames that carries a prefix of the file in chunks; only behind the whole file stands FILE_END. */
  ghost predicate Upload(h: Host, file: bytes, chunk: nat, fs: seq<bytes>) {
    && Payloads(h, fs) <= file
    && forall i :: 0 <= i < |fs| ==>
         ChunkFrame(h, chunk, fs[i]) || (i == |fs| - 1 && EndFrame(h, fs[i]) && Payloads(h, fs) == file)
  }

  lemma {:induction false} PayloadsSnoc(h: Host, fs: seq<bytes>, f: bytes)
    ensures Payloads(h, fs + [f]) == Payloads(h, fs) + Payload(h, f)
  {
    assert (fs + [f])[..|fs|] == fs;
  }

  lemma {:induction false} PayloadsMono(h: Host, fs: seq<bytes>, k: nat)
    requires k <= |fs|
    ensures Payloads(h, fs[..k]) <= Payloads(h, fs)
  {
    if k < |fs| {
      var n := |fs| - 1;
      PayloadsMono(h, fs[..n], k);
      assert fs[..n][..k] == fs[..k];
    } else {
      assert fs[..k] == fs;
    }
  }

  lemma {:induction false} UploadPrefix(h: Host, file: bytes, chunk: nat, fs: seq<bytes>, k: nat)
    requires Upload(h, file, chunk, fs) && k <= |fs|
    ensures Upload(h, file, chunk, fs[..k])
  {
    PayloadsMono(h, fs, k);
    if k == |fs| { assert fs[..k] == fs; }
  }

  predicate AllChunks(h: Host, chunk: nat, fs: seq<bytes>) {
    forall i :: 0 <= i < |fs| ==> ChunkFrame(h, chunk, fs[i])
  }

  /** omni_send answered each of the first n frames with its length. */
  predicate Answered(fs: seq<bytes>, replies: seq<int>, n: int) {
    |fs| == |replies| && forall i :: 0 <= i < n && i < |fs| ==> replies[i] == |fs[i]|
  }

  /** The state of the sending loop: frames for file[..pos], all of them sent unless the loop has stopped. */
  ghost predicate LoopOk(h: Host, file: bytes, chunk: nat, s: Sender) {
    && s.pos <= |file| && Payloads(h, s.handed) == file[..s.pos] && AllChunks(h, chunk, s.handed)
    && Answered(s.handed, s.replies, if s.running then |s.handed| else |s.handed| - 1)
    && (s.running ==> s.total == s.pos)
    && (s.eof ==> s.pos == |file|)
  }

  lemma {:induction false} HandOver(h: Host, chunk: nat, fs: seq<bytes>, replies: seq<int>, f: bytes, reply: int)
    requires AllChunks(h, chunk, fs) && Answered(fs, replies, |fs|)
    ensures ChunkFrame(h, chunk, f) ==> AllChunks(h, chunk, fs + [f])
    ensures Answered(fs + [f], replies + [reply], |fs|)
    ensures reply == |f| ==> Answered(fs + [f], replies + [reply], |fs + [f]|)
    ensures Payloads(h, fs + [f]) == Payloads(h, fs) + Payload(h, f)
  {
    hide ChunkFrame, Payload;
    PayloadsSnoc(h, fs, f);
  }

  lemma {:induction false} SendTurnKeeps(h: Host, h': Host, file: bytes, chunk: nat, s: Sender, t: Pass)
    requires 1 <= chunk <= MAX_CHUNK && LoopOk(h', file, chunk, s) && s.running
    ensures LoopOk(h', file, chunk, SendTurn(h, file, chunk, s, t))
  {
    hide DecodeApp, AppFrame, AllChunks, Payloads;
    if t.Chunk? {
      var n := Share(t.size, Min(chunk, |file| - s.pos));
      if n > 0 {
        var p := file[s.pos..s.pos + n];
        AppRoundTrip(h, h', MSG_TYPE_FILE_CHUNK, p, t.now);
        HandOver(h', chunk, s.handed, s.replies, AppFrame(h, MSG_TYPE_FILE_CHUNK, p, t.now), t.reply);
        hide Answered;
        assert file[..s.pos] + p == file[..s.pos + n];
      }
    }
  }

  lemma {:induction false} SendLoopKeeps(h: Host, h': Host, file: bytes, chunk: nat, s: Sender, passes: seq<Pass>)
    requires 1 <= chunk <= MAX_CHUNK && LoopOk(h', file, chunk, s)
    ensures var s' := SendLoop(h, file, chunk, s, passes); LoopOk(h', file, chunk, s') && (s'.running ==> s'.eof)
    decreases |passes|
  {
    if s.running && !s.eof && passes != [] {
      SendTurnKeeps(h, h', file, chunk, s, passes[0]);
      SendLoopKeeps(h, h', file, chunk, SendTurn(h, file, chunk, s, passes[0]), passes[1..]);
    }
  }

  lemma {:induction false} UploadEnd(h: Host, file: bytes, chunk: nat, fs: seq<bytes>, f: bytes)
    requires AllChunks(h, chunk, fs)
    ensures Payloads(h, fs) <= file ==> Upload(h, file, chunk, fs)
    ensures Payloads(h, fs) == file && EndFrame(h, f) ==>
      Upload(h, file, chunk, fs + [f]) && Payloads(h, fs + [f]) == file && EndFrame(h, (fs + [f])[|fs|])
  {
    hide ChunkFrame, DecodeApp;
    PayloadsSnoc(h, fs, f);
    assert file + [] == file;
  }

  /** Everything the client ever hands to omni_send is an upload of its file: FILE_END only behind the whole file.
      Nothing is handed over after a send that failed. */
  lemma {:induction false} SendFileUploads(h: Host, h': Host, file: bytes, chunk: nat, c: Script)
    requires 1 <= chunk <= MAX_CHUNK
    ensures var s := SendFile(h, file, chunk, c);
      Upload(h', file, chunk, s.handed) && Answered(s.handed, s.replies, |s.handed| - 1)
  {
    hide DecodeApp, AppFrame, SendLoop, Upload, AllChunks, Payloads, ChunkFrame, EndFrame;
    StartOk(h', file, chunk);
    SendLoopKeeps(h, h', file, chunk, SENDER_START, c.passes);
    var s := SendLoop(h, file, chunk, SENDER_START, c.passes);
    var f := AppFrame(h, MSG_TYPE_FILE_END, [], c.now);
    EndRoundTrip(h, h', c.now);
    UploadEnd(h', file, chunk, s.handed, f);
    if s.running && c.alive {
      assert file[..|file|] == file;
      HandOver(h', chunk, s.handed, s.replies, f, c.reply);
      hide Answered;
    }
  }

  lemma {:induction false} EndRoundTrip(h: Host, h': Host, now: u64)
    ensures EndFrame(h', AppFrame(h, MSG_TYPE_FILE_END, [], now))
  {
    hide DecodeApp, AppFrame;
    AppRoundTrip(h, h', MSG_TYPE_FILE_END, [], now);
  }

  lemma {:induction false} StartOk(h: Host, file: bytes, chunk: nat)
    ensures LoopOk(h, file, chunk, SENDER_START)
  {
  }

  /** A run in which nothing stops the client. */
  predicate Smooth(h: Host, file: bytes, chunk: nat, s: Sender, passes: seq<Pass>)
    requires s.pos <= |file|
    decreases |passes|
  {
    passes != [] && passes[0].Chunk? &&
    var s' := SendTurn(h, file, chunk, s, passes[0]);
    s'.running && (s'.eof || Smooth(h, file, chunk, s', passes[1..]))
  }

  lemma {:induction false} SmoothEnds(h: Host, file: bytes, chunk: nat, s: Sender, passes: seq<Pass>)
    requires s.pos <= |file| && s.running && !s.eof && Smooth(h, file, chunk, s, passes)
    ensures var s' := SendLoop(h, file, chunk, s, passes); s'.running && s'.eof
    decreases |passes|
  {
    var s' := SendTurn(h, file, chunk, s, passes[0]);
    if !s'.eof { SmoothEnds(h, file, chunk, s', passes[1..]); }
  }

  /** If nothing stops it, the client hands over the whole file and FILE_END, and every send succeeded. */
  lemma {:induction false} SmoothUpload(h: Host, h': Host, file: bytes, chunk: nat, c: Script)
    requires 1 <= chunk <= MAX_CHUNK
    requires Smooth(h, file, chunk, SENDER_START, c.passes) && c.alive && c.reply == MSG_HEADER_SIZE
    ensures var s := SendFile(h, file, chunk, c);
      && s.total == |file| && Payloads(h', s.handed) == file && Answered(s.handed, s.replies, |s.handed|)
      && s.handed != [] && EndFrame(h', s.handed[|s.handed| - 1])
  {
    hide DecodeApp, AppFrame, SendLoop, Upload, AllChunks, Payloads, ChunkFrame, EndFrame, Smooth;
    StartOk(h', file, chunk);
    SendLoopKeeps(h, h', file, chunk, SENDER_START, c.passes);
    SmoothEnds(h, file, chunk, SENDER_START, c.passes);
    var s := SendLoop(h, file, chunk, SENDER_START, c.passes);
    var f := AppFrame(h, MSG_TYPE_FILE_END, [], c.now);
    EndRoundTrip(h, h', c.now);
    UploadEnd(h', file, chunk, s.handed, f);
    assert file[..|file|] == file;
    HandOver(h', chunk, s.handed, s.replies, f, c.reply);
    hide Answered;
  }

  /** The passes of a client whose reads are full and whose sends all succeed, from position pos on. */
  function FullPasses(file: bytes, chunk: nat, pos: nat): seq<Pass>
    requires pos <= |file| && chunk > 0
    decreases |file| - pos
  {
    var n := Min(chunk, |file| - pos);
    [Chunk(chunk, 0, MSG_HEADER_SIZE + n)] + if n == 0 then [] else FullPasses(file, chunk, pos + n)
  }

  lemma {:induction false} FullPassesSmooth(h: Host, file: bytes, chunk: nat, s: Sender)
    requires s.pos <= |file| && chunk > 0 && s.running && !s.eof
    ensures Smooth(h, file, chunk, s, FullPasses(file, chunk, s.pos))
    decreases |file| - s.pos
  {
    hide AppFrame;
    var passes := FullPasses(file, chunk, s.pos);
    var s' := SendTurn(h, file, chunk, s, passes[0]);
    if !s'.eof {
      FullPassesSmooth(h, file, chunk, s');
      assert passes[1..] == FullPasses(file, chunk, s'.pos);
    }
  }

  // ----- what the receiver makes of it

  /** Until the server stops, each message that arrives is the next of fs. */
  predicate Feed(tcp: bool, xs: seq<Incoming>, fs: seq<bytes>)
    decreases |xs|
  {
    xs == [] ||
    if xs[0].code > 0 then fs != [] && xs[0].data == fs[0] && Feed(tcp, xs[1..], fs[1..])
    else if xs[0].code == 0 && !tcp then Feed(tcp, xs[1..], fs)
    else true
  }

  /** The server behind j frames of an upload. */
  ghost predicate ServerOk(h: Host, file: bytes, fs: seq<bytes>, j: nat, s: Server) {
    && j <= |fs| && s.out <= file && s.written <= |s.out|
    && (s.running ==> s.out == Payloads(h, fs[..j]) && s.written == |s.out|)
    && (s.done ==> j == |fs| && s.out == file && s.written == |file|)
    && (s.running && j == |fs| && fs != [] && EndFrame(h, fs[j - 1]) ==> s.done)
  }

  /** What a frame of an upload does to the server. */
  lemma {:induction false} ServeFrame(h: Host, tcp: bool, chunk: nat, s: Server, x: Incoming)
    requires x.code > 0
    ensures ChunkFrame(h, chunk, x.data) ==>
      var p := Payload(h, x.data);
      var nw := Min(x.disk, |p|);
      !EndFrame(h, x.data) && ServeTurn(h, tcp, s, x)
        == Server(s.running && nw == |p|, s.done, s.out + p[..nw], if nw == |p| then s.written + nw else s.written)
    ensures EndFrame(h, x.data) ==> Payload(h, x.data) == [] && ServeTurn(h, tcp, s, x) == s.(done := true)
  {
    hide DecodeApp;
  }

  lemma {:induction false} ServeTurnKeeps(h: Host, tcp: bool, file: bytes, chunk: nat, fs: seq<bytes>, j: nat,
                                          s: Server, x: Incoming)
    requires Upload(h, file, chunk, fs) && j < |fs| && ServerOk(h, file, fs, j, s) && s.running
    requires x.code > 0 && x.data == fs[j]
    ensures ServerOk(h, file, fs, j + 1, ServeTurn(h, tcp, s, x))
  {
    hide DecodeApp, ServeTurn, Payload, ChunkFrame, EndFrame;
    assert fs[..j + 1] == fs[..j] + [fs[j]];
    PayloadsSnoc(h, fs[..j], fs[j]);
    PayloadsMono(h, fs, j + 1);
    assert fs[..|fs|] == fs;
    hide Payloads;
    ServeFrame(h, tcp, chunk, s, x);
    var p := Payload(h, fs[j]);
    if ChunkFrame(h, chunk, fs[j]) {
      assert s.out + p[..Min(x.disk, |p|)] <= s.out + p;
    } else {
      assert s.out + [] == s.out;
    }
  }

  lemma {:induction false} ServeKeeps(h: Host, tcp: bool, file: bytes, chunk: nat, fs: seq<bytes>, j: nat,
                                      s: Server, xs: seq<Incoming>) returns (j': nat)
    requires Upload(h, file, chunk, fs) && ServerOk(h, file, fs, j, s) && Feed(tcp, xs, fs[j..])
    ensures ServerOk(h, file, fs, j', Serve(h, tcp, s, xs))
    decreases |xs|
  {
    assert j <= |fs|;
    hide ServeTurn, ServerOk, Upload;
    j' := j;
    if xs != [] && s.running {
      var s' := ServeTurn(h, tcp, s, xs[0]);
      if xs[0].code > 0 {
        assert j < |fs|;
        ServeTurnKeeps(h, tcp, file, chunk, fs, j, s, xs[0]);
        assert fs[j..][1..] == fs[j + 1..];
        j' := ServeKeeps(h, tcp, file, chunk, fs, j + 1, s', xs[1..]);
      } else {
        QuietTurnKeeps(h, tcp, file, fs, j, s, xs[0]);
        if xs[0].code == 0 && !tcp {
          j' := ServeKeeps(h, tcp, file, chunk, fs, j, s', xs[1..]);
        }
      }
    }
  }

  lemma {:induction false} QuietTurnKeeps(h: Host, tcp: bool, file: bytes, fs: seq<bytes>, j: nat, s: Server,
                                          x: Incoming)
    requires ServerOk(h, file, fs, j, s) && x.code <= 0
    ensures ServerOk(h, file, fs, j, ServeTurn(h, tcp, s, x))
    ensures ServeTurn(h, tcp, s, x).running <==> s.running && x.code == 0 && !tcp
  {
  }

  /** Fed with the frames of an upload in order, whatever the disk takes, the server's file is always a prefix of the
      client's, and the whole of it once transfer_done is set. */
  lemma {:induction false} ServedIsPrefix(h: Host, tcp: bool, file: bytes, chunk: nat, fs: seq<bytes>,
                                          xs: seq<Incoming>)
    requires Upload(h, file, chunk, fs) && Feed(tcp, xs, fs)
    ensures var s := Serve(h, tcp, SERVER_START, xs);
      s.out <= file && s.written <= |s.out| && (s.done ==> s.out == file && s.written == |file|)
  {
    assert fs[0..] == fs && fs[..0] == [];
    var _ := ServeKeeps(h, tcp, file, chunk, fs, 0, SERVER_START, xs);
  }

  /** All of fs arrives, and the disk takes it. */
  predicate Complete(tcp: bool, xs: seq<Incoming>, fs: seq<bytes>)
    decreases |xs|
  {
    fs == [] ||
    (xs != [] &&
     if xs[0].code > 0 then xs[0].data == fs[0] && xs[0].disk >= |fs[0]| && Complete(tcp, xs[1..], fs[1..])
     else xs[0].code == 0 && !tcp && Complete(tcp, xs[1..], fs))
  }

  lemma {:induction false} DoneStays(h: Host, tcp: bool, s: Server, xs: seq<Incoming>)
    requires s.done
    ensures Serve(h, tcp, s, xs).done
    decreases |xs|
  {
    hide DecodeApp;
    if xs != [] && s.running { DoneStays(h, tcp, ServeTurn(h, tcp, s, xs[0]), xs[1..]); }
  }

  lemma {:induction false} ServeQuiet(h: Host, tcp: bool, s: Server, x: Incoming)
    requires x.code == 0 && !tcp
    ensures ServeTurn(h, tcp, s, x) == s
  {
  }

  lemma {:induction false} PayloadShorter(h: Host, f: bytes)
    ensures |Payload(h, f)| <= |f|
  {
  }

  lemma {:induction false} CompleteIsDone(h: Host, tcp: bool, chunk: nat, fs: seq<bytes>, s: Server, xs: seq<Incoming>)
    requires s.running && Complete(tcp, xs, fs)
    requires fs != [] && EndFrame(h, fs[|fs| - 1])
    requires forall i :: 0 <= i < |fs| - 1 ==> ChunkFrame(h, chunk, fs[i])
    ensures Serve(h, tcp, s, xs).done
    decreases |xs|
  {
    hide DecodeApp, ServeTurn, ChunkFrame, EndFrame, Payload;
    var s' := ServeTurn(h, tcp, s, xs[0]);
    PayloadShorter(h, xs[0].data);
    if xs[0].code > 0 { ServeFrame(h, tcp, chunk, s, xs[0]); }
    if xs[0].code == 0 {
      ServeQuiet(h, tcp, s, xs[0]);
      CompleteIsDone(h, tcp, chunk, fs, s', xs[1..]);
    } else if |fs| > 1 {
      assert ChunkFrame(h, chunk, fs[0]);
      CompleteIsDone(h, tcp, chunk, fs[1..], s', xs[1..]);
    } else {
      DoneStays(h, tcp, s', xs[1..]);
    }
  }

  // ----- when the server stops, and what it has then

  /** The turn ends the loop: an error, a TCP peer that closed, or a chunk the disk does not take as a whole. */
  predicate Stops(h: Host, tcp: bool, x: Incoming) {
    if x.code <= 0 then x.code < 0 || tcp
    else
      var d := DecodeApp(h, x.data);
      d.Good? && d.hdr.kind == MSG_TYPE_FILE_CHUNK && x.disk < |d.payload|
  }

  predicate IsEnd(h: Host, x: Incoming) {
    x.code > 0 && DecodeApp(h, x.data).Good? && DecodeApp(h, x.data).hdr.kind == MSG_TYPE_FILE_END
  }

  lemma {:induction false} TurnExact(h: Host, tcp: bool, s: Server, x: Incoming)
    requires s.running
    ensures var s' := ServeTurn(h, tcp, s, x);
      (s'.running <==> !Stops(h, tcp, x)) && (s'.done <==> s.done || IsEnd(h, x))
  {
    hide HeaderDecode, LoadHeader;
  }

  /** recv_thread_main runs exactly until the first turn that stops it, whatever else it is given, and transfer_done is
      set exactly if a FILE_END came before that. */
  lemma {:induction false} ServeExact(h: Host, tcp: bool, s: Server, xs: seq<Incoming>)
    requires s.running
    ensures var s' := Serve(h, tcp, s, xs);
      && (s'.running <==> forall i :: 0 <= i < |xs| ==> !Stops(h, tcp, xs[i]))
      && (s'.done <==>
            s.done || exists i :: 0 <= i < |xs| && IsEnd(h, xs[i]) && forall j :: 0 <= j < i ==> !Stops(h, tcp, xs[j]))
    decreases |xs|
  {
    hide ServeTurn, Stops, IsEnd;
    if xs != [] {
      var s', tail := ServeTurn(h, tcp, s, xs[0]), xs[1..];
      TurnExact(h, tcp, s, xs[0]);
      assert forall i :: 1 <= i < |xs| ==> xs[i] == tail[i - 1];
      if s'.running {
        ServeExact(h, tcp, s', tail);
        var r := Serve(h, tcp, s, xs);
        assert r == Serve(h, tcp, s', tail);
        if i :| 0 <= i < |tail| && IsEnd(h, tail[i]) && forall j :: 0 <= j < i ==> !Stops(h, tcp, tail[j]) {
          forall j | 0 <= j < i + 1 ensures !Stops(h, tcp, xs[j]) {
            if j > 0 { assert xs[j] == tail[j - 1]; }
          }
          assert IsEnd(h, xs[i + 1]);
        }
        if i :| 0 < i < |xs| && IsEnd(h, xs[i]) && forall j :: 0 <= j < i ==> !Stops(h, tcp, xs[j]) {
          assert IsEnd(h, tail[i - 1]) && forall j :: 0 <= j < i - 1 ==> tail[j] == xs[j + 1];
        }
      } else {
        assert Stops(h, tcp, xs[0]);
      }
    }
  }

  /** Every frame of an upload is a header and at most a chunk, and fits the server's buffer. */
  lemma {:induction false} UploadFits(h: Host, file: bytes, chunk: nat, fs: seq<bytes>)
    requires Upload(h, file, chunk, fs) && chunk <= MAX_CHUNK
    ensures forall i :: 0 <= i < |fs| ==>
      MSG_HEADER_SIZE <= |fs[i]| <= MSG_HEADER_SIZE + chunk <= SERVER_FRAME_BUF_SIZE
  {
    hide HeaderDecode, LoadHeader;
  }
}
