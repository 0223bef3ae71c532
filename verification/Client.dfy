/**
  The receiving side of gfclient.c: one recv() for the header, then recv() until the announced
  length has arrived. Receive errors are not modelled; the peer may close early.
 */
module Clients {
  import opened CStrings
  import opened Wrappers
  import opened Decimals
  import opened Protocols

  const BUFSIZE := 4096

  /** What successive recv() calls return; after the last one the peer has closed. */
  predicate IsChunking(chunks: seq<string>) {
    forall i :: 0 <= i < |chunks| ==> 0 < |chunks[i]| <= BUFSIZE
  }

  /** One recv() fills a buffer of 4096 bytes at most. */
  lemma ChunkSize(data: string)
    ensures IsChunking([data]) <==> 0 < |data| <= 4096
  {
    assert [data][0] == data;
  }

  function Flat(chunks: seq<string>): string {
    if chunks == [] then "" else chunks[0] + Flat(chunks[1..])
  }

  /** The result of gfc_perform and the bytes it passed to the write callback. */
  datatype Transfer = Broken | Done(ret: int, written: string)

  /** parse_chunk: whether the announced length arrived, and the bytes passed on. */
  function Receive(chunks: seq<string>, got: nat, length: nat): (bool, string) {
    if got >= length then (true, "")
    else if chunks == [] then (false, "")
    else
      var rest := Receive(chunks[1..], got + |chunks[0]|, length);
      (rest.0, chunks[0] + rest.1)
  }

  function Perform(chunks: seq<string>): Transfer {
    match ParseHeader(if chunks == [] then "" else chunks[0])
    case Undefined => Broken
    case Rejected(_) => Done(-1, "")
    case Accepted(status, length, body) =>
      if status != OK then Done(0, body)
      else
        var rest := Receive(if chunks == [] then [] else chunks[1..], |body|, length);
        Done(if rest.0 then 0 else -1, body + rest.1)
  }

  class Socket {
    var incoming: seq<string>

    constructor (chunks: seq<string>)
      ensures incoming == chunks
    {
      incoming := chunks;
    }

    method Recv() returns (data: string)
      modifies this
      ensures old(incoming) == [] ==> data == "" && incoming == []
      ensures old(incoming) != [] ==> [data] + incoming == old(incoming)
    {
      if incoming == [] {
        return "";
      }
      data, incoming := incoming[0], incoming[1..];
    }
  }

  class GfcRequest {
    var status: Status
    var filelen: nat
    var bytesReceived: nat
    var written: string  // everything passed to writefunc

    constructor ()
      ensures bytesReceived == 0 && written == ""
    {
      status, filelen, bytesReceived, written := OK, 0, 0, "";
    }

    /** `broken` stands for undefined behaviour on an incomplete first chunk. */
    method ReadHeader(sock: Socket) returns (broken: bool, ret: int)
      requires bytesReceived == 0 && written == ""
      modifies this, sock
      ensures sock.incoming == if old(sock.incoming) == [] then [] else old(sock.incoming)[1..]
      ensures bytesReceived == |written|
      ensures match ParseHeader(if old(sock.incoming) == [] then "" else old(sock.incoming)[0])
              case Undefined => broken
              case Rejected(s) => !broken && ret == -1 && status == s && written == ""
              case Accepted(s, length, body) =>
                !broken && ret == 0 && status == s && filelen == length && written == body
    {
      broken, ret := false, -1;
      var data := sock.Recv();
      match ParseHeader(data)
      case Undefined => broken := true;
      case Rejected(s) => status := s;
      case Accepted(s, length, body) =>
        status, filelen := s, length;
        written := written + body;
        bytesReceived := bytesReceived + |body|;
        ret := 0;
    }

    method ReadChunks(sock: Socket) returns (ret: int)
      requires IsChunking(sock.incoming) && bytesReceived == |written|
      modifies this, sock
      ensures status == old(status) && filelen == old(filelen) && bytesReceived == |written|
      ensures old(status) != OK ==> ret == 0 && written == old(written)
      ensures old(status) == OK ==>
                var r := Receive(old(sock.incoming), old(bytesReceived), filelen);
                ret == (if r.0 then 0 else -1) && written == old(written) + r.1
    {
      ret := 0;
      ghost var chunks, i := sock.incoming, 0;
      while status == OK && bytesReceived < filelen
        invariant 0 <= i <= |chunks| && sock.incoming == chunks[i..] && bytesReceived == |written|
        invariant status == old(status) && filelen == old(filelen)
        invariant status != OK ==> written == old(written)
        invariant status == OK ==>
                    var all := Receive(chunks, old(bytesReceived), filelen);
                    var rest := Receive(chunks[i..], bytesReceived, filelen);
                    all.0 == rest.0 && old(written) + all.1 == written + rest.1
        decreases |chunks| - i
      {
        var data := sock.Recv();
        if data == "" {
          return -1;
        }
        assert chunks[i..][0] == chunks[i] && chunks[i..][1..] == chunks[i + 1..];
        Reassociate(written, data, Receive(chunks[i + 1..], bytesReceived + |data|, filelen).1);
        written := written + data;
        bytesReceived := bytesReceived + |data|;
        i := i + 1;
      }
    }

    method PerformTransfer(sock: Socket) returns (broken: bool, ret: int)
      requires IsChunking(sock.incoming) && bytesReceived == 0 && written == ""
      modifies this, sock
      ensures bytesReceived == |written|
      ensures Perform(old(sock.incoming)) == if broken then Broken else Done(ret, written)
    {
      broken, ret := ReadHeader(sock);
      if broken || ret < 0 {
        return;
      }
      ret := ReadChunks(sock);
    }
  }

  lemma Reassociate(a: string, b: string, c: string)
    ensures (a + b) + c == a + (b + c)
  {}

  // ---- Delivery -----------------------------------------------------------------

  lemma {:induction false} ReceiveAll(chunks: seq<string>, got: nat, length: nat)
    requires IsChunking(chunks) && got + |Flat(chunks)| <= length
    ensures Receive(chunks, got, length) == (got + |Flat(chunks)| == length, Flat(chunks))
  {
    if chunks != [] {
      assert chunks[0] != "";
      ReceiveAll(chunks[1..], got + |chunks[0]|, length);
    }
  }

  /**
    When the first recv() holds the whole header, every chunking of the rest delivers exactly the
    body, and the transfer succeeds exactly when all announced bytes arrived.
   */
  lemma DeliversBody(chunks: seq<string>, length: nat, body: string)
    requires IsChunking(chunks) && Flat(chunks) == OkHeader(length) + body && |body| <= length
    requires chunks != [] && |chunks[0]| >= |OkHeader(length)|
    ensures Perform(chunks) == Done(if |body| == length then 0 else -1, body)
  {
    hide ParseHeader, OkHeader, Receive;
    var h := OkHeader(length);
    var first, rest := chunks[0][|h|..], Flat(chunks[1..]);
    assert chunks[0] == h + first by {
      assert chunks[0] == Flat(chunks)[..|chunks[0]|];
    }
    assert first + rest == Flat(chunks)[|h|..] == body;
    OkHeaderParses(length, first);
    ReceiveAll(chunks[1..], |first|, length);
  }

  /** With enough bytes to come, the transfer succeeds on an initial part of them. */
  lemma {:induction false} ReceiveEnough(chunks: seq<string>, got: nat, length: nat)
    requires got + |Flat(chunks)| >= length
    ensures var r := Receive(chunks, got, length); r.0 && r.1 <= Flat(chunks) && got + |r.1| >= length
  {
    if got < length {
      assert chunks != [];
      ReceiveEnough(chunks[1..], got + |chunks[0]|, length);
    }
  }

  /** Some recv() returns the last of the first `n` bytes that the peer sends. */
  ghost predicate Breaks(chunks: seq<string>, n: nat) {
    exists k :: 0 <= k <= |chunks| && |Flat(chunks[..k])| == n
  }

  lemma BreaksLater(chunks: seq<string>, n: nat)
    requires chunks != [] && n > 0
    ensures Breaks(chunks, n) <==> n >= |chunks[0]| && Breaks(chunks[1..], n - |chunks[0]|)
  {
    if Breaks(chunks, n) {
      var k :| 0 <= k <= |chunks| && |Flat(chunks[..k])| == n;
      assert chunks[..k][1..] == chunks[1..][..k - 1];
    }
    if n >= |chunks[0]| && Breaks(chunks[1..], n - |chunks[0]|) {
      var k :| 0 <= k <= |chunks| - 1 && |Flat(chunks[1..][..k])| == n - |chunks[0]|;
      assert chunks[..k + 1][1..] == chunks[1..][..k];
    }
  }

  /** The receive loop stops exactly at the announced length if and only if a recv() ends there. */
  lemma {:induction false} ReceiveStops(chunks: seq<string>, got: nat, length: nat)
    requires IsChunking(chunks) && got <= length <= got + |Flat(chunks)|
    ensures got + |Receive(chunks, got, length).1| == length <==> Breaks(chunks, length - got)
  {
    if got == length {
      assert |Flat(chunks[..0])| == 0;
    } else {
      BreaksLater(chunks, length - got);
      if got + |chunks[0]| <= length {
        ReceiveStops(chunks[1..], got + |chunks[0]|, length);
      }
    }
  }

  /** This server and this client together: everything behind the end marker's last byte comes one place late. */
  lemma PairTransfer(chunks: seq<string>, file: string)
    requires IsChunking(chunks) && Flat(chunks) == ServerHeader(GF_OK, |file|) + file
    requires chunks != [] && |chunks[0]| >= |ServerHeader(GF_OK, |file|)|
    ensures var body := "\n" + chunks[0][|ServerHeader(GF_OK, |file|)|..];
            && body + Flat(chunks[1..]) == "\n" + file
            && Perform(chunks) == Done(0, body + Receive(chunks[1..], |body|, |file|).1)
  {
    hide ParseHeader, ServerHeader;
    var h := ServerHeader(GF_OK, |file|);
    var first, rest := chunks[0][|h|..], Flat(chunks[1..]);
    assert chunks[0] == h + first by {
      assert chunks[0] == Flat(chunks)[..|chunks[0]|];
    }
    assert first + rest == Flat(chunks)[|h|..] == file;
    ServerBodyIsShifted(|file|, first);
    var body := END_OF_HEADER[3..] + first;
    assert body == "\n" + first && body + rest == "\n" + file;
    ReceiveEnough(chunks[1..], |body|, |file|);
  }

  /**
    With the header inside the first recv(), the transfer succeeds on a line feed followed by the file,
    of which the last byte may be missing.
   */
  lemma PairShiftsBody(chunks: seq<string>, file: string)
    requires IsChunking(chunks) && Flat(chunks) == ServerHeader(GF_OK, |file|) + file
    requires chunks != [] && |chunks[0]| >= |ServerHeader(GF_OK, |file|)|
    ensures Perform(chunks).Done? && Perform(chunks).ret == 0
    ensures Perform(chunks).written <= "\n" + file && |Perform(chunks).written| >= |file|
  {
    hide ParseHeader, ServerHeader, Perform;
    PairTransfer(chunks, file);
    var body := "\n" + chunks[0][|ServerHeader(GF_OK, |file|)|..];
    ReceiveEnough(chunks[1..], |body|, |file|);
  }

  lemma ServerHeaderIsText(status: int, length: nat)
    ensures ServerHeader(status, length) != ""
  {}

  predicate AllLineFeeds(file: string) { forall i :: 0 <= i < |file| ==> file[i] == '\n' }

  /**
    With the header inside the first recv(), the pair delivers a file exactly when it is a nonempty run
    of line feeds and some recv() ends one byte before the end of the response. `PairDeliversAlwaysIff`
    covers the other sizes of the first recv().
   */
  lemma PairDeliversIff(chunks: seq<string>, file: string)
    requires IsChunking(chunks) && Flat(chunks) == ServerHeader(GF_OK, |file|) + file
    requires chunks != [] && |chunks[0]| >= |ServerHeader(GF_OK, |file|)|
    ensures Perform(chunks) == Done(0, file) <==>
            file != "" && AllLineFeeds(file) && Breaks(chunks, |Flat(chunks)| - 1)
  {
    hide ParseHeader, ServerHeader, Perform, Breaks;
    PairTransfer(chunks, file);
    PairShiftsBody(chunks, file);
    var h := ServerHeader(GF_OK, |file|);
    var body := "\n" + chunks[0][|h|..];
    var written := Perform(chunks).written;
    if file != "" {
      ServerHeaderIsText(GF_OK, |file|);
      BreaksLater(chunks, |Flat(chunks)| - 1);
      if |body| <= |file| {
        ReceiveStops(chunks[1..], |body|, |file|);
      } else {
        assert |Flat(chunks[1..])| == 0;
      }
      ShiftedIsConstant(file);
    }
  }

  lemma ShiftedIsConstant(file: string)
    ensures file <= "\n" + file <==> AllLineFeeds(file)
  {
    if file <= "\n" + file {
      for i := 0 to |file|
        invariant forall k :: 0 <= k < i ==> file[k] == '\n'
      {
        assert file[i] == ("\n" + file)[i];
      }
    }
  }

  /** Bytes that a first chunk passes on are a final part of that chunk. */
  lemma BodyIsSuffix(data: string)
    requires ParseHeader(data).Accepted? && ParseHeader(data).body != ""
    ensures ParseHeader(data).body[0] in data
  {
    hide ScanHeader, CString, StatusOf;
    var f := ScanHeader(CString(data));
    assert ParseHeader(data).body == data[f.end + |END_OF_HEADER|..];
  }

  lemma HeaderHasNoX(length: nat)
    ensures 'x' !in OkHeader(length) && 'x' !in ServerHeader(GF_OK, length)
  {}

  /** A text in chunks of at most the buffer size. */
  function Chop(s: string): (chunks: seq<string>)
    ensures IsChunking(chunks)
    decreases |s|
  {
    if s == "" then []
    else if |s| <= BUFSIZE then [s]
    else [s[..BUFSIZE]] + Chop(s[BUFSIZE..])
  }

  lemma {:induction false} ChopIsFlat(s: string)
    ensures Flat(Chop(s)) == s
    decreases |s|
  {
    if |s| > BUFSIZE {
      ChopIsFlat(s[BUFSIZE..]);
      assert Chop(s)[1..] == Chop(s[BUFSIZE..]);
    } else if s != "" {
      assert [s][1..] == [] && s + "" == s;
    }
  }

  /** A first chunk that ends inside a header without x's never leads to a body that starts with an x. */
  lemma CutTextFails(chunks: seq<string>, h: string, body: string)
    requires IsChunking(chunks) && chunks != [] && Flat(chunks) == h + body && 'x' !in h
    requires |chunks[0]| < |h| && body != "" && body[0] == 'x'
    ensures Perform(chunks) != Done(0, body)
  {
    hide ParseHeader;
    var data := chunks[0];
    assert data == Flat(chunks)[..|data|] == h[..|data|];
    if ParseHeader(data).Accepted? {
      if ParseHeader(data).body != "" {
        BodyIsSuffix(data);
        assert ParseHeader(data).body[0] in h;
      } else if chunks[1..] != [] {
        assert chunks[1] != "" && chunks[1][0] == Flat(chunks)[|data|] == h[|data|];
      }
    }
  }

  lemma CutHeaderFails(chunks: seq<string>, length: nat, body: string)
    requires IsChunking(chunks) && chunks != [] && Flat(chunks) == OkHeader(length) + body
    requires |chunks[0]| < |OkHeader(length)| && body != "" && body[0] == 'x'
    ensures Perform(chunks) != Done(0, body)
  {
    hide OkHeader, Perform;
    HeaderHasNoX(length);
    CutTextFails(chunks, OkHeader(length), body);
  }

  /** Whatever the body and its chunking, a first chunk of `r` bytes is enough. */
  ghost predicate AlwaysDelivers(length: nat, r: nat) {
    forall chunks, body ::
      IsChunking(chunks) && chunks != [] && |chunks[0]| == r && |body| == length
      && Flat(chunks) == OkHeader(length) + body
      ==> Perform(chunks) == Done(0, body)
  }

  /** A text in chunks, `r` bytes in the first one. */
  lemma FirstOf(t: string, r: nat) returns (chunks: seq<string>)
    requires 0 < r <= BUFSIZE && r <= |t|
    ensures IsChunking(chunks) && chunks != [] && |chunks[0]| == r && Flat(chunks) == t
  {
    chunks := [t[..r]] + Chop(t[r..]);
    ChopIsFlat(t[r..]);
    assert chunks[1..] == Chop(t[r..]);
  }

  lemma DeliversNonemptyIff(length: nat, r: nat)
    requires length > 0 && 0 < r <= BUFSIZE
    ensures AlwaysDelivers(length, r) <==> r >= |OkHeader(length)|
  {
    hide Perform, OkHeader, Chop;
    if r >= |OkHeader(length)| {
      forall chunks, body | IsChunking(chunks) && chunks != [] && |chunks[0]| == r && |body| == length
                            && Flat(chunks) == OkHeader(length) + body
        ensures Perform(chunks) == Done(0, body)
      {
        DeliversBody(chunks, length, body);
      }
    } else {
      var body := seq(length, _ => 'x');
      var chunks := FirstOf(OkHeader(length) + body, r);
      CutHeaderFails(chunks, length, body);
    }
  }

  const EMPTY_HEADER := SCHEME + (" " + (OK_WORD + (" " + ("0" + END_OF_HEADER))))

  /** The header of an empty file, cut behind its length or inside its end marker. */
  lemma EmptyCutAfterLength(r: nat)
    requires |EMPTY_HEADER| - 4 <= r < |EMPTY_HEADER|
    ensures ParseHeader(EMPTY_HEADER[..r]) == if r == |EMPTY_HEADER| - 4 then Accepted(OK, 0, "") else Undefined
  {
    hide ScanHeader, CString, Value;
    var data, rest := EMPTY_HEADER[..r], EMPTY_HEADER[12..r];
    assert Decimal(0) == "0";
    ValueOfDecimal(0);
    CStringOf(data, "");
    assert data + "" == data && CString("") == "";
    ScanFields(SCHEME, OK_WORD, "0", rest);
    assert data == SCHEME + (" " + (OK_WORD + (" " + ("0" + rest))));
  }

  /** Cut in front of the number, the header is refused, or the read goes on to misplace its bytes. */
  lemma EmptyCutBeforeLength(r: nat)
    requires 0 < r < |EMPTY_HEADER| - 4
    ensures var p := ParseHeader(EMPTY_HEADER[..r]); p.Accepted? ==> p.status == OK && p.body != ""
  {
    hide ScanHeader, CString;
    var data := EMPTY_HEADER[..r];
    CStringOf(data, "");
    assert data + "" == data && CString("") == "";
    if r < 9 {
      SchemeCut(r);
    } else {
      var status, rest := if r == 9 then "O" else "OK", if r == 11 then " " else "";
      CutHeaderText(r);
      ScanTwoWords(SCHEME, " ", status, rest);
      NoNumber();
    }
  }

  lemma CutHeaderText(r: nat)
    requires 9 <= r < 12
    ensures EMPTY_HEADER[..r] == SCHEME + (" " + ((if r == 9 then "O" else "OK") + if r == 11 then " " else ""))
  {}

  lemma NoNumber()
    ensures ScanNumber("") == None && ScanNumber(" ") == None
  {}

  lemma SchemeCut(r: nat)
    requires 0 < r < 9
    ensures var f := ScanHeader(EMPTY_HEADER[..r]); f.scheme != Some(SCHEME) || f.status == None
  {
    var scheme, rest := EMPTY_HEADER[..if r < 7 then r else 7], EMPTY_HEADER[if r < 7 then r else 7..r];
    assert EMPTY_HEADER[..r] == "" + (scheme + rest);
    ScanWordAt("", scheme, rest);
    assert rest == "" || rest == " ";
    assert ScanWord(rest) == None;
  }

  /**
    For an empty file the client also gets by when its first recv() ends right behind the length, since it
    then expects no more.
   */
  lemma DeliversEmptyIff(r: nat)
    requires 0 < r <= BUFSIZE
    ensures AlwaysDelivers(0, r) <==> r >= |OkHeader(0)| || r == |OkHeader(0)| - 4
  {
    hide ParseHeader;
    var h := EMPTY_HEADER;
    assert OkHeader(0) == h;
    forall chunks, body | IsChunking(chunks) && chunks != [] && |chunks[0]| == r && |body| == 0
                          && Flat(chunks) == OkHeader(0) + body
      ensures Perform(chunks) == Done(0, body) <==> r >= |h| || r == |h| - 4
    {
      assert h + body == h && Flat(chunks) == h && chunks[0] == h[..r];
      if r == |h| {
        DeliversBody(chunks, 0, body);
      } else if r < |h| - 4 {
        EmptyCutBeforeLength(r);
      } else {
        EmptyCutAfterLength(r);
      }
    }
    if r < |h| {
      var chunks := [h[..r], h[r..]];
      assert chunks[1..] == [h[r..]] && [h[r..]][1..] == [];
      assert Flat([h[r..]]) == h[r..] + "" == h[r..];
      assert Flat(chunks) == h[..r] + h[r..] == h == OkHeader(0) + "";
      assert IsChunking(chunks);
    }
  }

  /**
    The client is right for all bodies and chunkings exactly when its first recv() holds the header or,
    for an empty file, ends right behind the length.
   */
  lemma DeliversIff(length: nat, r: nat)
    requires 0 < r <= BUFSIZE
    ensures AlwaysDelivers(length, r) <==>
            r >= |OkHeader(length)| || (length == 0 && r == |OkHeader(length)| - |END_OF_HEADER|)
  {
    hide AlwaysDelivers, OkHeader;
    if length == 0 {
      DeliversEmptyIff(r);
    } else {
      DeliversNonemptyIff(length, r);
    }
  }

  /** A failure that this server reports ends the transfer with no bytes written and without an error. */
  lemma FailureIsEmpty(chunks: seq<string>, status: int, length: nat)
    requires status != GF_OK && chunks == [ServerHeader(status, length)]
    ensures Perform(chunks) == Done(0, "")
    ensures ParseHeader(chunks[0]).status == if status == 400 then FileNotFound else Error
  {
    ServerFailureParses(if status == GF_FILE_NOT_FOUND then NOT_FOUND_WORD else ERROR_WORD);
  }

  /** A connection that is closed at once fails. */
  lemma ClosedAtOnceFails()
    ensures Perform([]) == Done(-1, "")
  {
    NothingRefused("");
  }

  // ---- This server with this client, whatever the first recv() returns -----------

  ghost predicate PairAlwaysDelivers(length: nat, r: nat) {
    forall chunks, file ::
      IsChunking(chunks) && chunks != [] && |chunks[0]| == r && |file| == length
      && Flat(chunks) == ServerHeader(GF_OK, length) + file
      ==> Perform(chunks) == Done(0, file)
  }

  /** No size of the first recv() lets the pair deliver every file of a length other than zero. */
  lemma PairFailsNonempty(length: nat, r: nat)
    requires 0 < r <= BUFSIZE && length > 0 && r <= |ServerHeader(GF_OK, length)| + length
    ensures !PairAlwaysDelivers(length, r)
  {
    hide ServerHeader, Perform;
    var h, file := ServerHeader(GF_OK, length), seq(length, _ => 'x');
    var chunks := FirstOf(h + file, r);
    if r < |h| {
      HeaderHasNoX(length);
      CutTextFails(chunks, h, file);
    } else {
      PairShiftsBody(chunks, file);
      assert Perform(chunks).written[0] == '\n';
    }
  }

  const EMPTY_SERVER_HEADER := SCHEME + (" " + (OK_WORD + (" " + ("0" + (" " + END_OF_HEADER)))))

  /** The server's header of an empty file, cut behind its length: only two cuts lead to no body. */
  lemma EmptyServerCut(r: nat)
    requires 12 <= r <= |EMPTY_SERVER_HEADER|
    ensures ParseHeader(EMPTY_SERVER_HEADER[..r]) ==
            if r == 12 then Accepted(OK, 0, "") else if r < 16 then Undefined
            else Accepted(OK, 0, EMPTY_SERVER_HEADER[16..r])
  {
    hide ScanHeader, CString, Value;
    var data, rest := EMPTY_SERVER_HEADER[..r], EMPTY_SERVER_HEADER[12..r];
    assert Decimal(0) == "0";
    ValueOfDecimal(0);
    CStringOf(data, "");
    assert data + "" == data && CString("") == "";
    ScanFields(SCHEME, OK_WORD, "0", rest);
    assert data == SCHEME + (" " + (OK_WORD + (" " + ("0" + rest))));
    assert r >= 16 ==> data[16..] == EMPTY_SERVER_HEADER[16..r];
  }

  lemma PairEmptyFile(chunks: seq<string>)
    requires IsChunking(chunks) && chunks != [] && Flat(chunks) == EMPTY_SERVER_HEADER
    ensures Perform(chunks) == Done(0, "") <==> |chunks[0]| == 12 || |chunks[0]| == 16
  {
    hide ParseHeader;
    var h, r := EMPTY_SERVER_HEADER, |chunks[0]|;
    assert chunks[0] == Flat(chunks)[..r] == h[..r];
    if r < 12 {
      assert h[..r] == EMPTY_HEADER[..r];
      EmptyCutBeforeLength(r);
    } else {
      EmptyServerCut(r);
    }
  }

  /**
    With this server and this client, a size `r` of the first recv() delivers every file of a length
    exactly when the file is empty and the recv() ends right behind the length or one byte before the
    end of the header, unless the whole response is shorter than `r`.
   */
  lemma PairDeliversAlwaysIff(length: nat, r: nat)
    requires 0 < r <= BUFSIZE
    ensures var size := |ServerHeader(GF_OK, length)|;
            PairAlwaysDelivers(length, r) <==>
            r > size + length || (length == 0 && (r == size - |SPACE_AND_END| || r == size - 1))
  {
    hide ServerHeader, Perform;
    var h := ServerHeader(GF_OK, length);
    if r > |h| + length {
      TooShort(length, r);
    } else if length > 0 {
      PairFailsNonempty(length, r);
    } else {
      EmptyServerHeader();
      forall chunks, file | IsChunking(chunks) && chunks != [] && |chunks[0]| == r && |file| == 0
                            && Flat(chunks) == h + file
        ensures Perform(chunks) == Done(0, file) <==> r == 12 || r == 16
      {
        assert h + file == h;
        PairEmptyFile(chunks);
      }
      var chunks := FirstOf(h, r);
      assert h + "" == h;
    }
  }

  lemma EmptyServerHeader()
    ensures ServerHeader(GF_OK, 0) == EMPTY_SERVER_HEADER
  {
    assert Decimal(0) == "0";
  }

  lemma TooShort(length: nat, r: nat)
    requires r > |ServerHeader(GF_OK, length)| + length
    ensures PairAlwaysDelivers(length, r)
  {
    hide ServerHeader, Perform;
    forall chunks | IsChunking(chunks) && chunks != [] ensures |Flat(chunks)| >= |chunks[0]| {}
  }
}
