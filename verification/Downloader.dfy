/** The downloader of n_downloader.c, one method for each mutex-protected section. */
module Downloader {
  import opened Wrappers
  import opened SStreamSpec
  import opened SStream
  import D = DownloaderSpec
  import P = DownloaderProtocol

  lemma ColonFound(h: Text, c: nat)
    requires c < |h| && MatchesAt(h, D.ContentLengthKey(), c)
    ensures c <= FindFrom(h, D.COLON, c) < |h|
  {
    var i := c + 14;
    hide D.ContentLengthKey;
    assert h[c..c + 15][14] == 58;
    assert h[i..i + 1] == [58];
    assert MatchesAt(h, D.COLON, i);
  }

  lemma NoNumberAtEnd(h: Text)
    ensures D.NumberAt(h, |h|).0 == 0
  {
    assert h[|h|..] == [];
  }

  // `U_sstream_find` and `U_sstream_get_long` for the status line.
  method ReadStatus(ss: SStream, ghost h: Text) returns (status: int)
    requires ss.Valid() && ss.status == Ok && ss.pos == 0 && ss.str[..] == h && 0 < ss.len == |h|
    modifies ss`pos, ss`status
    ensures ss.Valid() && status == D.HttpStatus(h).0
    ensures status == 200 ==> ss.status == Ok && ss.pos == D.HttpStatus(h).1
  {
    hide LongAt, FindFrom, StrtolMeaning;
    assert ss.str[..ss.len] == h;
    var found := ss.Find(D.SPACE);
    assert ss.str[ss.pos..ss.len] == h[ss.pos..];
    status := ss.GetLong();
  }

  // The same for Content-Length.
  method ReadContentLength(ss: SStream, ghost h: Text) returns (content: Option<int>)
    requires ss.Valid() && ss.status == Ok && ss.str[..] == h && ss.len == |h|
    modifies ss`pos, ss`status
    ensures content == D.ContentLengthFrom(h, old(ss.pos))
  {
    hide LongAt, FindFrom, StrtolMeaning, D.ContentLengthKey;
    assert ss.str[..ss.len] == h;
    content := None;
    var found := ss.Find(D.ContentLengthKey());
    if found {
      ColonFound(h, ss.pos);
      var colon := ss.Find(D.COLON);
      ss.pos := ss.pos + 1;
      assert ss.str[ss.pos..ss.len] == h[ss.pos..];
      NoNumberAtEnd(h);
      var length := ss.GetLong();
      content := Some(length);
    }
  }

  // The part of ndl_read_response that evaluates the header with a string stream.
  method ParseHeaderText(h: Text) returns (status: int, content: Option<int>)
    requires 0 < |h| < 0x1_0000_0000
    ensures (status, content) == D.ParseHeader(h)
  {
    hide D.HttpStatus, D.ContentLengthFrom;
    var str := new Octet[|h|](i requires 0 <= i < |h| => h[i]);
    assert str[..] == h;
    var ss := new SStream(str, |h|);
    status := ReadStatus(ss, h);
    content := None;
    if status == 200 {
      content := ReadContentLength(ss, h);
    }
  }

  // The loop of ndl_read_response over the start positions of an empty line, which stops four bytes early.
  method FindHeaderEnd(buf: Text, bufPos: nat) returns (found: bool, i: nat)
    requires 16 < bufPos <= |buf|
    ensures found == D.HeaderSeen(buf[..bufPos])
    ensures found ==> i == FindFrom(buf[..bufPos], D.CRLF2, 0)
  {
    ghost var r := buf[..bufPos];
    found, i := false, 0;
    while i < bufPos - 4
      invariant i <= bufPos - 4 && FindFrom(r, D.CRLF2, i) == FindFrom(r, D.CRLF2, 0)
    {
      assert buf[i..i + 4] == r[i..i + 4];
      if buf[i..i + 4] == D.CRLF2 {
        found := true;
        return;
      }
      i := i + 1;
    }
  }

  // ndl_read_response
  method ReadResponse(e: D.Entry, io: D.Io) returns (r: D.Entry)
    requires D.GoodEntry(e) && e.state == D.WaitReply
    requires io.nread > 0 ==> |io.bytes| == io.nread && e.bufPos + io.nread <= |e.buf|
    ensures r == D.ReadResponse(e, io)
  {
    hide D.ParseHeader, FindFrom, D.HeaderText;
    r := e;
    var didRead := io.canRead && (!e.ssl || io.nread >= 0);
    if didRead {
      if io.nread > 0 {
        r := D.Stored(e, io.bytes);
        if r.hdrLength == 0 && 16 < r.bufPos {
          var found, i := FindHeaderEnd(r.buf, r.bufPos);
          if found {
            r := TakeHeader(r, i);
          }
        }
      } else {
        r := r.(state := D.Finished);
        if r.status == D.Running {
          r := r.(status := if D.Wrap64(r.hdrLength + r.contentLength) == r.bufPos then D.Done else D.SizeMismatch);
        }
      }
    }
  }

  lemma HeaderInPlace(buf: Text, n: nat, i: nat)
    requires i + 4 <= n <= |buf|
    ensures buf[i := 0][..i + 4] == D.HeaderText(buf[..n], i)
  {
    var b := buf[i := 0];
    assert b[..i + 4] == b[..i] + [b[i]] + b[i + 1..i + 4];
    assert b[..i] == buf[..n][..i] && b[i + 1..i + 4] == buf[..n][i + 1..i + 4];
  }

  // What ndl_read_response does once the empty line is found at i.
  method TakeHeader(e: D.Entry, i: nat) returns (r: D.Entry)
    requires e.bufPos <= |e.buf| < 0x1_0000_0000 && e.hdrLength == 0 && D.HeaderSeen(e.buf[..e.bufPos])
    requires i == FindFrom(e.buf[..e.bufPos], D.CRLF2, 0)
    ensures r == D.ScanHeader(e)
  {
    hide FindFrom, D.ParseHeader, D.HeaderText;
    r := e.(buf := e.buf[i := 0], hdrLength := i + 4, contentLength := 0);
    HeaderInPlace(e.buf, e.bufPos, i);
    var status, content := ParseHeaderText(r.buf[..i + 4]);
    if status != 200 {
      r := r.(status := if status == 404 then D.NotFound else D.Failed);
    } else if content.Some? {
      r := r.(contentLength := content.value);
      if |r.buf| < D.Wrap64(r.hdrLength + r.contentLength) {
        r := r.(status := D.TooLarge);
      }
    }
  }

  lemma TwoSteps(d: P.Dl, op: P.Op, next: P.Op)
    ensures P.ExecAll(d, [op, next]) == P.Exec(P.Exec(d, op), next)
  {
    hide P.Exec;
    assert [op, next][..1] == [op] && [op][..0] == [];
    assert P.ExecAll(d, [op]) == P.Exec(P.ExecAll(d, []), op);
  }

  // ndl_connect, up to the host name
  method Connect(e: D.Entry, io: D.Io) returns (r: D.Entry)
    ensures r == D.Connect(e, io)
    ensures r.state in {D.SslHandshake, D.TcpConnected, D.Finished} && (r.state == D.SslHandshake ==> r.ssl)
    ensures r.status == if r.state == D.Finished then D.Failed else D.Starting
    ensures D.GoodEntry(e) && e.state == D.Initial ==> D.GoodEntry(r)
  {
    r := e;
    if D.HTTPS <= e.url {
      r := r.(ssl := true);
      if io.connected {
        r := r.(status := D.Starting, state := D.SslHandshake);
        return;
      }
    } else if D.HTTP <= e.url {
      r := r.(ssl := false);
      if io.connected {
        r := r.(status := D.Starting, state := D.TcpConnected);
        return;
      }
    }
    r := r.(status := D.Failed, state := D.Finished);
  }

  // ndl_ssl_handhsake
  method Handshake(e: D.Entry, io: D.Io) returns (r: D.Entry)
    ensures r == D.Handshake(e, io)
    ensures r.state in {e.state, D.SslConnected, D.Finished}
    ensures r.state == D.Finished != e.state ==> r.status == D.HandshakeFailed
    ensures D.GoodEntry(e) && e.state == D.SslHandshake ==> D.GoodEntry(r)
  {
    r := e;
    if io.handshake < 0 {
      r := r.(status := D.HandshakeFailed, state := D.Finished);
    } else if io.handshake != 0 {
      r := r.(state := D.SslConnected);
    }
  }

  // ndl_send_request, after the request text has been put together
  method SendRequest(e: D.Entry, io: D.Io) returns (r: D.Entry)
    ensures r == D.SendRequest(e, io)
    ensures r.state in {D.WaitReply, D.Finished} && |r.buf| == |e.buf|
    ensures r.status == if r.state == D.WaitReply then D.Running else D.SendRequestFailed
    ensures D.GoodEntry(e) && e.state in {D.TcpConnected, D.SslConnected} ==> D.GoodEntry(r)
  {
    if D.GoodEntry(e) { D.StepKeeps(e, io); }
    r := e;
    if io.sent {
      r := r.(hdrLength := 0);
      r := r.(buf := D.Zeroed(|r.buf|), state := D.WaitReply, status := D.Running);
    } else {
      r := r.(status := D.SendRequestFailed, state := D.Finished);
    }
  }

  lemma HeadIsGood(d: P.Dl)
    requires P.Inv(d) && d.busy != []
    ensures D.GoodEntry(d.busy[0]) && d.busy[0].bufPos <= |d.busy[0].buf|
  {
    hide P.IdBag, P.Range, D.Reflects, D.Fresh;
  }

  lemma InHandIsGood(d: P.Dl, k: nat)
    requires P.Inv(d) && k < |d.inHand|
    ensures var e := d.inHand[k]; D.GoodEntry(e) && e.state == D.Finished && e.hdrLength <= e.bufPos <= |e.buf|
  {
    hide P.IdBag, P.Range, D.Reflects;
  }

  class Downloader {
    var mode: D.Mode
    var handle: int
    var busy: seq<D.Entry>
    var done: seq<D.Entry>
    ghost var inHand: seq<D.Entry>
    ghost var delivered: seq<D.Entry>
    var accepted: nat        // numbers the entries; not in the program
    ghost var admitted: nat

    ghost function Model(): P.Dl
      reads this
    {
      P.Dl(mode, handle, busy, done, inHand, delivered, accepted, admitted)
    }

    ghost predicate Valid()
      reads this
    {
      P.Inv(Model())
    }

    constructor ()
      ensures Valid() && Model() == P.BOOT
    {
      mode, handle, busy, done, inHand, delivered, accepted, admitted := D.Off, 0, [], [], [], [], 0, 0;
      new;
      P.BootInv();
    }

    // N_DownloadInit
    method Init()
      requires Valid()
      modifies this
      ensures Valid() && Model() == P.Exec(old(Model()), P.Init)
    {
      P.ExecKeeps(Model(), P.Init);
      if mode == D.Off {
        handle, mode := 1, D.Idle;
      }
    }

    // N_DownloadShutDown up to the join
    method BeginShutDown()
      requires Valid()
      modifies this
      ensures Valid() && Model() == P.Exec(old(Model()), P.BeginShutDown)
    {
      P.ExecKeeps(Model(), P.BeginShutDown);
      if mode == D.Idle {
        mode := D.ShuttingDown;
      }
    }

    // N_DownloadShutDown after the join
    method EndShutDown()
      requires Valid()
      modifies this
      ensures Valid() && Model() == P.Exec(old(Model()), P.EndShutDown)
    {
      P.ExecKeeps(Model(), P.EndShutDown);
      if mode == D.ShuttingDown {
        mode := D.Off;
      }
    }

    // The state test of N_Download
    method Admit() returns (ok: bool)
      requires Valid()
      modifies this`admitted
      ensures Valid() && Model() == P.Exec(old(Model()), P.Admit)
      ensures ok == (mode != D.Off && mode != D.ShuttingDown)
      ensures admitted == old(admitted) + if ok then 1 else 0
    {
      hide P.Inv;
      P.ExecKeeps(Model(), P.Admit);
      ok := mode != D.Off && mode != D.ShuttingDown;
      if ok {
        admitted := admitted + 1;
      }
    }

    // The locked section of N_Download
    method Submit(url: Text, maxSize: nat, hasCallback: bool, alloc: bool) returns (result: int)
      requires Valid() && admitted > 0 && maxSize < 0x1_0000_0000
      modifies this
      ensures Valid() && Model() == P.Exec(old(Model()), P.Submit(url, maxSize, hasCallback, alloc))
      ensures result == P.SubmitResult(old(Model()), alloc)
    {
      hide P.Inv, D.Zeroed;
      P.ExecKeeps(Model(), P.Submit(url, maxSize, hasCallback, alloc));
      result := 0;
      admitted := admitted - 1;
      if alloc {
        if handle <= 0 {
          handle := 1;
        }
        result := handle;
        handle := if handle == 0x7FFF_FFFF then -0x8000_0000 else handle + 1;
        busy := busy + [P.NewEntry(accepted, result, url, maxSize, hasCallback)];
        accepted := accepted + 1;
      }
    }

    // N_Download without interruption
    method Download(url: Text, maxSize: nat, hasCallback: bool, alloc: bool) returns (result: int)
      requires Valid() && maxSize < 0x1_0000_0000
      modifies this
      ensures Valid()
      ensures var d := old(Model());
              if d.mode == D.Off || d.mode == D.ShuttingDown then result == 0 && Model() == d
              else
                && Model() == P.ExecAll(d, [P.Admit, P.Submit(url, maxSize, hasCallback, alloc)])
                && result == P.SubmitResult(P.DoAdmit(d), alloc)
    {
      hide P.Inv;
      ghost var d := Model();
      var ok := Admit();
      if !ok {
        return 0;
      }
      result := Submit(url, maxSize, hasCallback, alloc);
      TwoSteps(d, P.Admit, P.Submit(url, maxSize, hasCallback, alloc));
    }

    // One pass of ndl_thread. A read never returns more than it was asked for.
    method ThreadPass(io: D.Io)
      requires Valid()
      requires io.nread > 0 && busy != [] ==> |io.bytes| == io.nread && busy[0].bufPos + io.nread <= |busy[0].buf|
      modifies this
      ensures Valid() && Model() == P.Exec(old(Model()), P.Work(io))
    {
      hide P.Inv, D.GoodEntry, D.Connect, D.SendRequest, D.Handshake, D.ReadResponse;
      P.ExecKeeps(Model(), P.Work(io));
      if mode == D.Off || mode == D.ShuttingDown || busy == [] {
        return;
      }
      var e := busy[0];
      HeadIsGood(Model());
      var r := e;
      match e.state {
        case Initial => r := Connect(e, io);
        case TcpConnected => r := SendRequest(e, io);
        case SslConnected => r := SendRequest(e, io);
        case SslHandshake => r := Handshake(e, io);
        case WaitReply => r := ReadResponse(e, io);
        case Finished =>
          busy := busy[1..];
          done := [e] + done;
          return;
      }
      busy := busy[0 := r];
    }

    // N_DownloadStep up to the unlock
    method Take() returns (taken: Option<D.Entry>)
      requires Valid()
      modifies this
      ensures Valid() && Model() == P.Exec(old(Model()), P.Take)
      ensures taken == if old(mode) == D.Off || old(done) == [] then None else Some(old(done)[0])
    {
      P.ExecKeeps(Model(), P.Take);
      taken := None;
      if mode != D.Off && done != [] {
        taken := Some(done[0]);
        done := done[1..];
        inHand := inHand + [taken.value];
      }
    }

    // The rest of N_DownloadStep: what the callback is given, if there is one.
    method Deliver(e: D.Entry, ghost k: nat)
      returns (called: bool, status: D.Status, header: Option<Text>, data: Option<Text>)
      requires Valid() && k < |inHand| && inHand[k] == e
      modifies this
      ensures Valid() && Model() == P.Exec(old(Model()), P.Deliver(k))
      ensures called == e.hasCallback && status == e.status
      ensures D.GoodEntry(e) && data == if called then D.Payload(e) else None
      ensures header == if called && e.hdrLength != 0 then Some(e.buf[..e.hdrLength]) else None
    {
      hide P.Inv, D.GoodEntry;
      P.ExecKeeps(Model(), P.Deliver(k));
      InHandIsGood(Model(), k);
      called, status, header, data := e.hasCallback, e.status, None, None;
      if called && e.hdrLength != 0 {
        header := Some(e.buf[..e.hdrLength]);
      }
      if called && e.status == D.Done && e.contentLength != 0 {
        D.PayloadInBuffer(e);
        data := Some(e.buf[e.hdrLength..e.hdrLength + e.contentLength]);
      }
      inHand, delivered := inHand[..k] + inHand[k + 1..], delivered + [e];
    }
  }
}
