/** The downloader of n_downloader.c as a state machine whose steps are its mutex-protected sections. */
module DownloaderSpec {
  import opened Wrappers
  import opened SStreamSpec

  // enum ndl_entry_state
  datatype EntryState = Initial | TcpConnected | SslHandshake | SslConnected | WaitReply | Finished

  // N_DownloadStatus
  datatype Status =
    | Starting | Running | Done | Failed | NotFound | SizeMismatch | SendRequestFailed | HandshakeFailed | TooLarge

  // N_DownloadEntry. `id` numbers the accepted downloads; `received` is everything read from the socket.
  datatype Entry = Entry(id: nat, handle: int, ssl: bool, status: Status, state: EntryState, hasCallback: bool,
                         url: Text, hdrLength: nat, contentLength: int, buf: Text, bufPos: nat, received: Text)

  // enum ndl_state
  datatype Mode = Off | ShuttingDown | Operating | Idle

  // What the network layer answers in one step of the worker.
  datatype Io = Io(connected: bool, handshake: int, sent: bool, canRead: bool, nread: int, bytes: Text)

  const HTTPS: Text := [104, 116, 116, 112, 115, 58, 47, 47]   // "https://"
  const HTTP: Text := [104, 116, 116, 112, 58, 47, 47]         // "http://"
  const CRLF2: Text := [13, 10, 13, 10]
  const SPACE: Text := [32]
  const COLON: Text := [58]

  // "Content-Length:"
  function ContentLengthKey(): (t: Text)
    ensures |t| == 15 && t[14] == COLON[0]
  {
    [67, 111, 110, 116, 101, 110, 116, 45, 76, 101, 110, 103, 116, 104, 58]
  }

  function Zeroed(n: nat): (s: Text)
    ensures |s| == n
  {
    seq(n, _ => 0)
  }

  // Signed 64-bit addition.
  function Wrap64(x: int): int {
    (x + 0x8000_0000_0000_0000) % 0x1_0000_0000_0000_0000 - 0x8000_0000_0000_0000
  }

  // ----- the reply header -----

  // The text parsed as the header: up to the empty line, whose first character has been overwritten.
  function HeaderText(r: Text, i: nat): (h: Text)
    requires i + 4 <= |r|
    ensures |h| == i + 4
  {
    r[..i] + [0] + r[i + 1..i + 4]
  }

  // U_sstream_get_long at p: the number and the position behind it, or 0 on an error.
  function NumberAt(h: Text, p: nat): (r: (int, nat))
    requires p <= |h|
    ensures r.1 <= |h| && InLong(r.0)
  {
    match LongAt(h[p..])
    case Some(r) => (r.0, p + r.1)
    case None => (0, p)
  }

  // The number behind the first space of a header: the HTTP status.
  function HttpStatus(h: Text): (r: (int, nat))
    ensures r.1 <= |h|
  {
    var p := FindFrom(h, SPACE, 0);
    NumberAt(h, if p < |h| then p else 0)
  }

  // The number behind the first colon of the first Content-Length after position q.
  function ContentLengthFrom(h: Text, q: nat): (r: Option<int>)
    requires q <= |h|
    ensures r.Some? ==> InLong(r.value)
  {
    var c := FindFrom(h, ContentLengthKey(), q);
    if c == |h| then None
    else
      var d := FindFrom(h, COLON, c);
      if d == |h| then Some(0) else Some(NumberAt(h, d + 1).0)
  }

  // The HTTP status of a header and, for status 200, the value of Content-Length if there is one.
  function ParseHeader(h: Text): (r: (int, Option<int>))
    ensures r.1.Some? ==> r.0 == 200 && InLong(r.1.value)
  {
    (HttpStatus(h).0, if HttpStatus(h).0 == 200 then ContentLengthFrom(h, HttpStatus(h).1) else None)
  }

  // hdr_length, content_length and status as functions of everything received so far.
  datatype Reply = Reply(hdrLength: nat, contentLength: int, status: Status)

  function HeaderSeen(r: Text): bool {
    16 < |r| && FindFrom(r, CRLF2, 0) + 4 < |r|
  }

  function ReplyOf(r: Text, bufSize: nat): Reply {
    if !HeaderSeen(r) then Reply(0, 0, Running)
    else
      var i := FindFrom(r, CRLF2, 0);
      var (status, content) := ParseHeader(HeaderText(r, i));
      var length := content.GetOr(0);
      Reply(i + 4, length,
            if status == 404 then NotFound else if status != 200 then Failed
            else if content.Some? && bufSize < Wrap64(i + 4 + length) then TooLarge else Running)
  }

  // ----- the steps of one entry -----

  // ndl_connect; the host name is not modelled.
  function Connect(e: Entry, io: Io): Entry {
    if HTTPS <= e.url then
      if io.connected then e.(ssl := true, status := Starting, state := SslHandshake)
      else e.(ssl := true, status := Failed, state := Finished)
    else if HTTP <= e.url then
      if io.connected then e.(ssl := false, status := Starting, state := TcpConnected)
      else e.(ssl := false, status := Failed, state := Finished)
    else e.(status := Failed, state := Finished)
  }

  // ndl_ssl_handhsake
  function Handshake(e: Entry, io: Io): Entry {
    if io.handshake < 0 then e.(status := HandshakeFailed, state := Finished)
    else if io.handshake == 0 then e
    else e.(state := SslConnected)
  }

  // ndl_send_request
  function SendRequest(e: Entry, io: Io): Entry {
    if io.sent then e.(hdrLength := 0, buf := Zeroed(|e.buf|), state := WaitReply, status := Running)
    else e.(status := SendRequestFailed, state := Finished)
  }

  // The entry after bytes have been stored, before the header is looked for.
  function Stored(e: Entry, c: Text): (m: Entry)
    requires e.bufPos + |c| <= |e.buf|
    ensures m.bufPos <= |m.buf| == |e.buf|
  {
    e.(buf := e.buf[..e.bufPos] + c + e.buf[e.bufPos + |c|..], bufPos := e.bufPos + |c|, received := e.received + c)
  }

  // The reply header is looked for until it is found.
  function ScanHeader(e: Entry): Entry
    requires e.bufPos <= |e.buf|
  {
    if e.hdrLength == 0 && HeaderSeen(e.buf[..e.bufPos]) then
      var r := e.buf[..e.bufPos];
      var i := FindFrom(r, CRLF2, 0);
      var reply := ReplyOf(r, |e.buf|);
      e.(buf := e.buf[i := 0], hdrLength := reply.hdrLength, contentLength := reply.contentLength,
         status := if reply.status == Running then e.status else reply.status)
    else e
  }

  // ndl_read_response
  function ReadResponse(e: Entry, io: Io): Entry
    requires e.bufPos <= |e.buf|
  {
    if !io.canRead || (e.ssl && io.nread < 0) then e
    else if io.nread > 0 then
      if |io.bytes| == io.nread && e.bufPos + |io.bytes| <= |e.buf| then
        ScanHeader(Stored(e, io.bytes))
      else e
    else
      e.(state := Finished,
         status := if e.status != Running then e.status
                   else if Wrap64(e.hdrLength + e.contentLength) == e.bufPos then Done else SizeMismatch)
  }

  function StepEntry(e: Entry, io: Io): Entry
    requires e.bufPos <= |e.buf|
  {
    match e.state
    case Initial => Connect(e, io)
    case TcpConnected => SendRequest(e, io)
    case SslConnected => SendRequest(e, io)
    case WaitReply => ReadResponse(e, io)
    case SslHandshake => Handshake(e, io)
    case Finished => e
  }

  // ----- what one entry goes through -----

  // What the first bufPos bytes of the buffer are: the header's empty line has been overwritten.
  function BufferOf(r: Text): (b: Text)
    ensures |b| == |r|
  {
    if HeaderSeen(r) then r[FindFrom(r, CRLF2, 0) := 0] else r
  }

  // The entry's fields are those of the bytes received, whenever and however they came in.
  ghost predicate Reflects(e: Entry, status: Status) {
    && |e.received| == e.bufPos <= |e.buf| < 0x1_0000_0000
    && e.buf[..e.bufPos] == BufferOf(e.received)
    && ReplyOf(e.received, |e.buf|) == Reply(e.hdrLength, e.contentLength, status)
  }

  ghost predicate GoodEntry(e: Entry) {
    && e.hdrLength <= e.bufPos <= |e.buf| < 0x1_0000_0000
    && match e.state
       case WaitReply => Reflects(e, e.status)
       case Finished =>
         && e.status != Starting && e.status != Running
         && (e.status == Done ==> Reflects(e, Running) && Wrap64(e.hdrLength + e.contentLength) == e.bufPos)
       case _ => Fresh(e)
  }

  ghost predicate Fresh(e: Entry) {
    e.status == Starting && e.received == [] && e.bufPos == 0 && e.hdrLength == 0 && e.contentLength == 0
  }

  // More input does not move the end of a header that has been seen.
  lemma HeaderStable(r: Text, c: Text)
    requires HeaderSeen(r)
    ensures HeaderSeen(r + c) && FindFrom(r + c, CRLF2, 0) == FindFrom(r, CRLF2, 0)
    ensures HeaderText(r + c, FindFrom(r, CRLF2, 0)) == HeaderText(r, FindFrom(r, CRLF2, 0))
  {
    var i := FindFrom(r, CRLF2, 0);
    forall j | 0 <= j <= i ensures MatchesAt(r + c, CRLF2, j) == MatchesAt(r, CRLF2, j) {
      assert (r + c)[j..j + 4] == r[j..j + 4];
    }
    FirstMatch(r + c, CRLF2, i);
  }

  lemma FirstMatch(s: Text, pat: Text, i: nat)
    requires pat != [] && i < |s| && MatchesAt(s, pat, i) && forall j :: 0 <= j < i ==> !MatchesAt(s, pat, j)
    ensures FindFrom(s, pat, 0) == i
  {
  }

  lemma ReplyStable(r: Text, c: Text, bufSize: nat)
    requires HeaderSeen(r)
    ensures ReplyOf(r + c, bufSize) == ReplyOf(r, bufSize) && BufferOf(r + c) == BufferOf(r) + c
  {
    hide ParseHeader, HeaderText;
    HeaderStable(r, c);
  }

  lemma StoredPrefix(e: Entry, c: Text)
    requires e.bufPos + |c| <= |e.buf|
    ensures Stored(e, c).buf[..e.bufPos + |c|] == e.buf[..e.bufPos] + c
  {
  }

  lemma ScanKeeps(e: Entry, c: Text)
    requires Reflects(e, e.status) && e.bufPos + |c| <= |e.buf|
    ensures var e' := ScanHeader(Stored(e, c)); Reflects(e', e'.status)
  {
    hide ParseHeader, FindFrom, HeaderText;
    var r, m := e.received, Stored(e, c);
    StoredPrefix(e, c);
    if HeaderSeen(r) {
      ReplyStable(r, c, |e.buf|);
      assert e.hdrLength != 0;
    } else {
      assert m.buf[..m.bufPos] == r + c;
      if HeaderSeen(r + c) {
        var i := FindFrom(r + c, CRLF2, 0);
        assert m.buf[i := 0][..m.bufPos] == (r + c)[i := 0];
      }
    }
  }

  lemma ReadKeeps(e: Entry, io: Io)
    requires e.state == WaitReply && GoodEntry(e)
    ensures GoodEntry(ReadResponse(e, io))
  {
    hide ParseHeader, FindFrom, HeaderText, ScanHeader, Reflects;
    if io.nread > 0 && |io.bytes| == io.nread && e.bufPos + |io.bytes| <= |e.buf| {
      ScanKeeps(e, io.bytes);
      ScanFrame(Stored(e, io.bytes));
      HeaderInside(ScanHeader(Stored(e, io.bytes)));
    }
    ReflectsStatus(e);
  }

  lemma HeaderInside(e: Entry)
    requires Reflects(e, e.status)
    ensures e.hdrLength <= e.bufPos
  {
    hide ParseHeader, FindFrom, HeaderText;
  }

  lemma ScanFrame(e: Entry)
    requires e.bufPos <= |e.buf|
    ensures ScanHeader(e).state == e.state && |ScanHeader(e).buf| == |e.buf| && ScanHeader(e).bufPos == e.bufPos
    ensures ScanHeader(e).received == e.received && ScanHeader(e).id == e.id && ScanHeader(e).handle == e.handle
    ensures ScanHeader(e).url == e.url && ScanHeader(e).hasCallback == e.hasCallback
  {
    hide ParseHeader, ReplyOf;
  }

  // Closing an entry leaves what it has received; an entry that waits never has the status Starting.
  lemma ReflectsStatus(e: Entry)
    requires Reflects(e, e.status)
    ensures e.status != Starting && e.status != Done
    ensures forall s: EntryState, t: Status :: Reflects(e.(state := s, status := t), e.status)
  {
    hide ParseHeader, FindFrom, HeaderText;
  }

  lemma StepKeeps(e: Entry, io: Io)
    requires GoodEntry(e)
    ensures GoodEntry(StepEntry(e, io))
  {
    hide ParseHeader, FindFrom;
    if e.state == WaitReply {
      ReadKeeps(e, io);
    } else if e.state == TcpConnected || e.state == SslConnected {
      assert SendRequest(e, io).received == [];
    }
  }

  // ----- the whole reply -----

  // Reading the reply in these pieces, then the end of the stream.
  function Chunk(c: Text): Io { Io(true, 0, true, true, |c|, c) }

  const EOF: Io := Io(true, 0, true, true, 0, [])

  function ReadAll(e: Entry, chunks: seq<Text>): (r: Entry)
    requires e.bufPos <= |e.buf|
    ensures r.bufPos <= |r.buf| && |r.buf| == |e.buf|
    decreases |chunks|
  {
    if chunks == [] then e
    else ReadResponse(ReadAll(e, chunks[..|chunks| - 1]), Chunk(chunks[|chunks| - 1]))
  }

  function Concat(chunks: seq<Text>): Text
    decreases |chunks|
  {
    if chunks == [] then [] else Concat(chunks[..|chunks| - 1]) + chunks[|chunks| - 1]
  }

  // However the reply is split into reads, the entry ends up the same: a function of the bytes alone.
  lemma {:induction false} SplitIndependent(e: Entry, chunks: seq<Text>)
    requires e.state == WaitReply && GoodEntry(e) && e.received == [] && e.status == Running
    requires (forall k :: 0 <= k < |chunks| ==> chunks[k] != []) && |Concat(chunks)| <= |e.buf|
    ensures var r := ReadAll(e, chunks);
            r.state == WaitReply && r.received == Concat(chunks) && |r.buf| == |e.buf| && Reflects(r, r.status)
    decreases |chunks|
  {
    if chunks != [] {
      var n := |chunks| - 1;
      SplitIndependent(e, chunks[..n]);
      ReadKeeps(ReadAll(e, chunks[..n]), Chunk(chunks[n]));
    }
  }

  // The status a whole reply ends with.
  function FinalStatus(r: Text, bufSize: nat): Status {
    var reply := ReplyOf(r, bufSize);
    if reply.status != Running then reply.status
    else if Wrap64(reply.hdrLength + reply.contentLength) == |r| then Done else SizeMismatch
  }

  // What of a reply the buffer takes. Once it is full the next read asks for 0 bytes and gets none.
  function Fitting(reply: Text, room: nat): (r: Text)
    ensures |r| <= room && r <= reply
  {
    if |reply| <= room then reply else reply[..room]
  }

  // Any reply ends the download with a status that depends on the bytes that fit alone.
  lemma {:induction false} WholeReply(e: Entry, chunks: seq<Text>, reply: Text)
    requires e.state == WaitReply && GoodEntry(e) && e.received == [] && e.status == Running
    requires (forall k :: 0 <= k < |chunks| ==> chunks[k] != []) && Concat(chunks) == Fitting(reply, |e.buf|)
    ensures var r := ReadResponse(ReadAll(e, chunks), EOF);
            && r.state == Finished && r.received == Fitting(reply, |e.buf|)
            && r.status == FinalStatus(Fitting(reply, |e.buf|), |e.buf|)
  {
    hide ParseHeader, FindFrom, HeaderText, ReadAll, Concat;
    SplitIndependent(e, chunks);
  }

  // A complete reply of status 200 that fits is reported as done exactly when its body is not empty: the
  // search for the header's end leaves out a header with nothing behind it.
  lemma {:induction false} CompleteReply(e: Entry, chunks: seq<Text>, head: Text, body: Text)
    requires e.state == WaitReply && GoodEntry(e) && e.received == [] && e.status == Running
    requires forall k :: 0 <= k < |chunks| ==> chunks[k] != []
    requires Concat(chunks) == head + CRLF2 + body && 16 < |head + CRLF2 + body| <= |e.buf|
    requires FindFrom(head + CRLF2 + body, CRLF2, 0) == |head|
    requires ParseHeader(HeaderText(head + CRLF2 + body, |head|)) == (200, Some(|body|))
    ensures ReadResponse(ReadAll(e, chunks), EOF).status == if body != [] then Done else SizeMismatch
  {
    hide ParseHeader, FindFrom, HeaderText, ReadAll, Concat, ReadResponse;
    WholeReply(e, chunks, head + CRLF2 + body);
  }

  // A reply of another status ends as not found for 404 and as failed otherwise, again unless nothing is
  // behind its header.
  lemma {:induction false} RefusedReply(e: Entry, chunks: seq<Text>, head: Text, body: Text)
    requires e.state == WaitReply && GoodEntry(e) && e.received == [] && e.status == Running
    requires forall k :: 0 <= k < |chunks| ==> chunks[k] != []
    requires Concat(chunks) == head + CRLF2 + body && 16 < |head + CRLF2 + body| <= |e.buf|
    requires FindFrom(head + CRLF2 + body, CRLF2, 0) == |head|
    requires ParseHeader(HeaderText(head + CRLF2 + body, |head|)).0 != 200
    ensures ReadResponse(ReadAll(e, chunks), EOF).status ==
            if body == [] then SizeMismatch
            else if ParseHeader(HeaderText(head + CRLF2 + body, |head|)).0 == 404 then NotFound
            else Failed
  {
    hide ParseHeader, FindFrom, HeaderText, ReadAll, Concat, ReadResponse;
    WholeReply(e, chunks, head + CRLF2 + body);
  }

  // A reply of status 200 that does not tell its length is never reported as done.
  lemma {:induction false} UnannouncedReply(e: Entry, chunks: seq<Text>, head: Text, body: Text)
    requires e.state == WaitReply && GoodEntry(e) && e.received == [] && e.status == Running
    requires forall k :: 0 <= k < |chunks| ==> chunks[k] != []
    requires Concat(chunks) == head + CRLF2 + body && 16 < |head + CRLF2 + body| <= |e.buf|
    requires FindFrom(head + CRLF2 + body, CRLF2, 0) == |head|
    requires ParseHeader(HeaderText(head + CRLF2 + body, |head|)) == (200, None)
    ensures ReadResponse(ReadAll(e, chunks), EOF).status == SizeMismatch
  {
    hide ParseHeader, FindFrom, HeaderText, ReadAll, Concat, ReadResponse;
    WholeReply(e, chunks, head + CRLF2 + body);
    LengthKept(|head| + 4);
    LengthKept(0);
  }

  // A reply of status 200 longer than the buffer, whose header fits and tells the length: the buffer fills
  // up, the next read asks for nothing and ends the download as too large.
  lemma {:induction false} OversizedReply(e: Entry, chunks: seq<Text>, head: Text, body: Text)
    requires e.state == WaitReply && GoodEntry(e) && e.received == [] && e.status == Running
    requires forall k :: 0 <= k < |chunks| ==> chunks[k] != []
    requires |e.buf| < |head + CRLF2 + body| < 0x8000_0000_0000_0000
    requires Concat(chunks) == Fitting(head + CRLF2 + body, |e.buf|) && HeaderSeen(Concat(chunks))
    requires FindFrom(head + CRLF2 + body, CRLF2, 0) == |head|
    requires ParseHeader(HeaderText(head + CRLF2 + body, |head|)) == (200, Some(|body|))
    ensures ReadResponse(ReadAll(e, chunks), EOF).status == TooLarge
  {
    hide ParseHeader, FindFrom, HeaderText, ReadAll, Concat, ReadResponse, HeaderSeen;
    var r, n := head + CRLF2 + body, |e.buf|;
    WholeReply(e, chunks, r);
    HeaderStable(r[..n], r[n..]);
    assert r[..n] + r[n..] == r;
    LengthKept(|head| + 4 + |body|);
  }

  lemma LengthKept(x: nat)
    requires x < 0x8000_0000_0000_0000
    ensures Wrap64(x) == x
  {
  }

  // "HTTP/1.1", " 200 OK", "Content-Length:" and " 0"
  const PROTOCOL: Text := [72, 84, 84, 80, 47, 49, 46, 49]
  const STATUS_OK: Text := [32, 50, 48, 48, 32, 79, 75]
  const LENGTH_ZERO: Text := [32, 48]

  function StatusLine(): Text { PROTOCOL + STATUS_OK }

  function LengthLine(): Text { ContentLengthKey() + LENGTH_ZERO }

  function EmptyReply(): Text { StatusLine() + [13, 10] + LengthLine() + CRLF2 }

  // A header with nothing behind it is a complete reply of status 200 with a content length of 0, and it is
  // reported as a size mismatch.
  lemma EmptyBodyReply(bufSize: nat)
    ensures FindFrom(EmptyReply(), CRLF2, 0) == 34 == |EmptyReply()| - 4
    ensures ParseHeader(HeaderText(EmptyReply(), 34)) == (200, Some(0))
    ensures FinalStatus(EmptyReply(), bufSize) == SizeMismatch
  {
    hide FindFrom, HttpStatus, ContentLengthFrom, StatusLine, LengthLine;
    var r, behind := EmptyReply(), [0, 10, 13, 10];
    EmptyReplyHeader();
    var h := HeaderText(r, 34);
    LinesWritten();
    assert h == StatusLine() + [13, 10] + LengthLine() + behind;
    StatusOf([32, 79, 75, 13, 10] + LengthLine() + behind);
    assert h == PROTOCOL + [32, 50, 48, 48] + ([32, 79, 75, 13, 10] + LengthLine() + behind);
    LengthOf(StatusLine() + [13, 10], 12, behind);
    assert h == (StatusLine() + [13, 10]) + ContentLengthKey() + LENGTH_ZERO + behind;
    assert !HeaderSeen(r);
    LengthKept(0);
  }

  lemma LinesWritten()
    ensures StatusLine() == PROTOCOL + [32, 50, 48, 48] + [32, 79, 75] && |StatusLine()| == 15
    ensures LengthLine() == ContentLengthKey() + LENGTH_ZERO && |LengthLine()| == 17
    ensures 67 !in (StatusLine() + [13, 10])[12..]
    ensures 13 !in StatusLine() && 13 !in LengthLine()
  {
    assert (StatusLine() + [13, 10])[12..] == [32, 79, 75, 13, 10];
    assert 13 !in PROTOCOL && 13 !in STATUS_OK && 13 !in ContentLengthKey() && 13 !in LENGTH_ZERO;
  }

  lemma EmptyReplyHeader()
    ensures |EmptyReply()| == 38 && FindFrom(EmptyReply(), CRLF2, 0) == 34
  {
    hide StatusLine, LengthLine, ContentLengthKey;
    LinesWritten();
    var a, b, r := StatusLine(), LengthLine(), EmptyReply();
    forall j | 0 <= j < 34 ensures !MatchesAt(r, CRLF2, j) {
      assert r[j] == if j < 15 then a[j] else if j == 15 then 13 else if j == 16 then 10 else b[j - 17];
      assert r[17] == b[0];
      NoMatchAt(r, CRLF2, j, if j == 15 then 2 else 0);
    }
    assert r[34..38] == CRLF2;
    FirstMatch(r, CRLF2, 34);
  }

  lemma NoMatchAt(s: Text, pat: Text, j: nat, k: nat)
    requires k < |pat| && j + k < |s| && s[j + k] != pat[k]
    ensures !MatchesAt(s, pat, j)
  {
    assert j + |pat| <= |s| ==> s[j..j + |pat|][k] == s[j + k];
  }

  // The first place of a text whose first character does not occur before.
  lemma FoundBehind(a: Text, pat: Text, rest: Text, from: nat)
    requires pat != [] && from <= |a| && pat[0] !in a[from..]
    ensures FindFrom(a + pat + rest, pat, from) == |a|
    decreases |a| - from
  {
    var s := a + pat + rest;
    if from == |a| {
      assert s[from..from + |pat|] == pat;
    } else {
      assert a[from..][0] == a[from] && a[from + 1..] == a[from..][1..];
      NoMatchAt(s, pat, from, 0);
      FoundBehind(a, pat, rest, from + 1);
    }
  }

  lemma StatusOf(rest: Text)
    requires rest != [] && !IsDigit(rest[0])
    ensures HttpStatus(PROTOCOL + [32, 50, 48, 48] + rest) == (200, 12)
  {
    hide LongAt, FindFrom, Value;
    var h := PROTOCOL + [32, 50, 48, 48] + rest;
    assert h == PROTOCOL + SPACE + ([50, 48, 48] + rest);
    assert PROTOCOL[0..] == PROTOCOL;
    FoundBehind(PROTOCOL, SPACE, [50, 48, 48] + rest, 0);
    var s := h[8..];
    assert s == [32, 50, 48, 48] + rest;
    assert s[1..4] == [50, 48, 48];
    TwoHundred();
    LongAtNumeral(s, 1, 0, 4);
  }

  lemma TwoHundred()
    ensures AllDigits([50, 48, 48]) && Value([50, 48, 48]) == 200
    ensures AllDigits([48]) && Value([48]) == 0
  {
    assert [50][..0] == [] && [48][..0] == [];
    assert [50, 48][..1] == [50];
    assert [50, 48, 48][..2] == [50, 48];
  }

  lemma LengthOf(a: Text, from: nat, rest: Text)
    requires from <= |a| && 67 !in a[from..] && rest != [] && !IsDigit(rest[0])
    ensures ContentLengthFrom(a + ContentLengthKey() + LENGTH_ZERO + rest, from) == Some(0)
  {
    hide LongAt, FindFrom, Value;
    var key := ContentLengthKey();
    var h := a + key + LENGTH_ZERO + rest;
    assert h == a + key + (LENGTH_ZERO + rest);
    FoundBehind(a, key, LENGTH_ZERO + rest, from);
    var b := a + key[..14];
    assert h == b + COLON + (LENGTH_ZERO + rest);
    assert b[|a|..] == key[..14] && 58 !in key[..14];
    FoundBehind(b, COLON, LENGTH_ZERO + rest, |a|);
    var s := h[|b| + 1..];
    assert s == LENGTH_ZERO + rest && s[1..2] == [48];
    TwoHundred();
    LongAtNumeral(s, 1, 0, 2);
  }

  // N_DownloadStep: the data handed to the callback.
  function Payload(e: Entry): Option<Text>
    requires GoodEntry(e)
  {
    if e.status == Done && e.contentLength != 0 && e.state == Finished
    then PayloadInBuffer(e); Some(e.buf[e.hdrLength..e.hdrLength + e.contentLength]) else None
  }

  lemma PayloadInBuffer(e: Entry)
    requires GoodEntry(e) && e.state == Finished && e.status == Done && e.contentLength != 0
    ensures HeaderSeen(e.received) && e.hdrLength == FindFrom(e.received, CRLF2, 0) + 4
    ensures 0 < e.contentLength && e.hdrLength + e.contentLength == e.bufPos == |e.received|
  {
    hide ParseHeader, FindFrom, HeaderText;
  }

  // A callback that carries data delivers exactly the bytes received after the first empty line, as many
  // as the header's Content-Length says, under status 200, all of it inside the buffer.
  lemma DeliversTheBody(e: Entry)
    requires GoodEntry(e) && e.state == Finished && Payload(e).Some?
    ensures var r, i := e.received, FindFrom(e.received, CRLF2, 0);
            && i + 4 <= |r| <= |e.buf| && MatchesAt(r, CRLF2, i) && (forall j :: 0 <= j < i ==> !MatchesAt(r, CRLF2, j))
            && Payload(e) == Some(r[i + 4..])
            && ParseHeader(HeaderText(r, i)) == (200, Some(|Payload(e).value|))
  {
    hide ParseHeader, HeaderText;
    PayloadInBuffer(e);
    var r, i := e.received, FindFrom(e.received, CRLF2, 0);
    assert e.buf[i + 4..e.bufPos] == e.buf[..e.bufPos][i + 4..];
    assert BufferOf(r)[i + 4..] == r[i + 4..];
  }
}
