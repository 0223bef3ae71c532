/**
  The GETFILE messages: what client and server print, and how each parses the other's message.
  A buffer is a C string: its text ends at the first NUL.
 */
module Protocols {
  import opened CStrings
  import opened Wrappers
  import opened Tokenizers
  import opened Decimals

  const END_OF_HEADER := "\r\n\r\n"
  const SCHEME := "GETFILE"
  const METHOD := "GET"
  const OK_WORD := "OK"
  const NOT_FOUND_WORD := "FILE_NOT_FOUND"
  const ERROR_WORD := "ERROR"

  datatype Status = OK | FileNotFound | Error | Invalid

  /** The request template of the client. */
  function Request(path: string): string {
    SCHEME + (" " + (METHOD + (" " + (path + END_OF_HEADER))))
  }

  /** The header of a response in the form of the protocol description, without the optional space. */
  function OkHeader(length: nat): string {
    SCHEME + (" " + (OK_WORD + (" " + (Decimal(length) + END_OF_HEADER))))
  }

  const GF_OK := 200
  const GF_FILE_NOT_FOUND := 400

  /** What gfs_sendheader prints: a space always precedes the end marker. */
  function ServerHeader(status: int, length: nat): string {
    if status == GF_OK then SCHEME + (" " + (OK_WORD + (" " + (Decimal(length) + (" " + END_OF_HEADER)))))
    else SCHEME + (" " + ((if status == GF_FILE_NOT_FOUND then NOT_FOUND_WORD else ERROR_WORD) + (" " + END_OF_HEADER)))
  }

  // ---- sscanf with "%s %s %zd%n" ------------------------------------------------

  function SpaceRun(s: string): (n: nat)
    ensures n <= |s|
    ensures n < |s| ==> !IsSpace(s[n])
  {
    if s == "" || !IsSpace(s[0]) then 0 else 1 + SpaceRun(s[1..])
  }

  /** One %s: the word after leading space, and the text behind it. */
  function ScanWord(s: string): Option<(string, string)> {
    var t := s[SpaceRun(s)..];
    var n := WordLength(t);
    if n == 0 then None else Some((t[..n], t[n..]))
  }

  /** One %zd without a sign: the number after leading space, and the text behind it. */
  function ScanNumber(s: string): Option<(nat, string)> {
    var t := s[SpaceRun(s)..];
    var n := DigitRun(t);
    if n == 0 then None else Some((Value(t[..n]), t[n..]))
  }

  /** Fields that sscanf filled in; `end` counts the bytes in front of the text behind the number. */
  datatype Scanned = Scanned(scheme: Option<string>, status: Option<string>, length: Option<nat>, end: int)

  function ScanHeader(s: string): Scanned {
    match ScanWord(s)
    case None => Scanned(None, None, None, 0)
    case Some((scheme, s1)) =>
      match ScanWord(s1)
      case None => Scanned(Some(scheme), None, None, 0)
      case Some((status, s2)) =>
        match ScanNumber(s2)
        case None => Scanned(Some(scheme), Some(status), None, 0)
        case Some((length, s3)) => Scanned(Some(scheme), Some(status), Some(length), |s| - |s3|)
  }

  function StatusOf(word: string): Status {
    if word == OK_WORD then OK
    else if word == NOT_FOUND_WORD then FileNotFound
    else if word == ERROR_WORD then Error
    else Invalid
  }

  /**
    What parse_header makes of the bytes of the first recv(): the status and length it stores and the
    body bytes it passes on. `Undefined` stands for a read of a field that was never filled in, or a
    body length that wraps below zero.
   */
  datatype Parsed = Undefined | Rejected(status: Status) | Accepted(status: Status, length: nat, body: string)

  function ParseHeader(data: string): Parsed {
    if data == "" then Rejected(Invalid)
    else
      var f := ScanHeader(CString(data));
      if f.scheme == None then Rejected(Invalid)
      else if f.scheme != Some(SCHEME) then Rejected(Invalid)
      else if f.status == None then Undefined
      else
        var status := StatusOf(f.status.value);
        var length := if f.length.None? then 0 else f.length.value;
        if status == Invalid then Rejected(Invalid)
        else if status == OK && f.end < |data| then
          if f.end < 0 || |data| < f.end + |END_OF_HEADER| then Undefined
          else Accepted(status, length, data[f.end + |END_OF_HEADER|..])
        else Accepted(status, length, "")
  }

  predicate AllSpaces(s: string) { forall i :: 0 <= i < |s| ==> IsSpace(s[i]) }

  lemma ScanWordAt(lead: string, w: string, rest: string)
    requires AllSpaces(lead) && IsWord(w) && (rest == "" || IsSpace(rest[0]))
    ensures ScanWord(lead + (w + rest)) == Some((w, rest))
  {
    SpaceRunOf(lead, w + rest);
    Parts(lead, w + rest);
    WordLengthOf(w, rest);
    Parts(w, rest);
  }

  lemma Parts(a: string, b: string)
    ensures (a + b)[..|a|] == a && (a + b)[|a|..] == b
  {}

  lemma Halves(s: string, n: nat)
    requires n <= |s|
    ensures s == s[..n] + s[n..]
  {}

  lemma {:induction false} SpaceRunOf(lead: string, rest: string)
    requires AllSpaces(lead) && (rest == "" || !IsSpace(rest[0]))
    ensures SpaceRun(lead + rest) == |lead|
  {
    if lead == "" {
      assert lead + rest == rest;
    } else {
      assert (lead + rest)[1..] == lead[1..] + rest;
      SpaceRunOf(lead[1..], rest);
    }
  }

  lemma ScanNumberAt(lead: string, digits: string, rest: string)
    requires AllSpaces(lead) && digits != "" && AllDigits(digits) && (rest == "" || !IsDigit(rest[0]))
    ensures ScanNumber(lead + (digits + rest)) == Some((Value(digits), rest))
  {
    assert !IsSpace((digits + rest)[0]);
    SpaceRunOf(lead, digits + rest);
    Parts(lead, digits + rest);
    DigitRunOf(digits, rest);
    Parts(digits, rest);
  }

  /** Two words at the front of a text: the third field is scanned from what follows them. */
  lemma ScanTwoWords(scheme: string, lead: string, status: string, rest: string)
    requires IsWord(scheme) && lead != "" && AllSpaces(lead) && IsWord(status) && (rest == "" || IsSpace(rest[0]))
    ensures var s := scheme + (lead + (status + rest));
            ScanHeader(s) ==
            match ScanNumber(rest)
            case None => Scanned(Some(scheme), Some(status), None, 0)
            case Some((length, s3)) => Scanned(Some(scheme), Some(status), Some(length), |s| - |s3|)
  {
    var s1 := lead + (status + rest);
    ScanWordAt("", scheme, s1);
    assert "" + (scheme + s1) == scheme + s1;
    ScanWordAt(lead, status, rest);
  }

  /** All three fields, each behind one space. */
  lemma ScanFields(scheme: string, status: string, digits: string, rest: string)
    requires IsWord(scheme) && IsWord(status) && digits != "" && AllDigits(digits) && (rest == "" || !IsDigit(rest[0]))
    ensures ScanHeader(scheme + (" " + (status + (" " + (digits + rest)))))
            == Scanned(Some(scheme), Some(status), Some(Value(digits)), |scheme| + |status| + 2 + |digits|)
  {
    hide ScanHeader, ScanWord, ScanNumber, SpaceRun, WordLength, DigitRun, Value, Decimal, CString;
    ScanNumberAt(" ", digits, rest);
    ScanTwoWords(scheme, " ", status, " " + (digits + rest));
  }

  lemma Regroup(a: string, b: string, c: string, d: string, e: string, f: string)
    ensures (a + (b + (c + (d + e)))) + f == a + (b + (c + (d + (e + f))))
  {}

  /** A printed header is one C string, so what follows it in the buffer does not disturb the scan. */
  lemma HeaderText(scheme: string, status: string, third: string, tail: string)
    requires NulFree(scheme) && NulFree(status) && NulFree(third)
    ensures CString(scheme + (" " + (status + (" " + third))) + tail)
            == scheme + (" " + (status + (" " + (third + CString(tail)))))
  {
    hide ScanHeader, ScanWord, ScanNumber, SpaceRun, WordLength, DigitRun, Value, Decimal, CString;
    var s := scheme + (" " + (status + (" " + third)));
    assert NulFree(s);
    CStringOf(s, tail);
    Regroup(scheme, " ", status, " ", third, CString(tail));
    assert s + CString(tail) == scheme + (" " + (status + (" " + (third + CString(tail)))));
  }

  /** The client recovers status and length from every header that the server prints. */
  lemma ServerHeaderParses(status: int, length: nat)
    ensures ParseHeader(ServerHeader(status, length)).Accepted?
    ensures ParseHeader(ServerHeader(status, length)).status
            == if status == GF_OK then OK else if status == GF_FILE_NOT_FOUND then FileNotFound else Error
    ensures status == GF_OK ==> ParseHeader(ServerHeader(status, length)).length == length
  {
    if status == GF_OK {
      ServerOkParses(length);
    } else if status == GF_FILE_NOT_FOUND {
      ServerFailureParses(NOT_FOUND_WORD);
    } else {
      ServerFailureParses(ERROR_WORD);
    }
  }

  const SPACE_AND_END := " " + END_OF_HEADER

  lemma ServerOkParses(length: nat)
    ensures ParseHeader(ServerHeader(GF_OK, length)) == Accepted(OK, length, END_OF_HEADER[3..])
  {
    ServerBodyIsShifted(length, "");
    assert ServerHeader(GF_OK, length) + "" == ServerHeader(GF_OK, length);
    assert END_OF_HEADER[3..] + "" == END_OF_HEADER[3..];
  }

  /**
    The client skips four bytes behind the length. This server prints a space there too, so the last
    byte of its end marker is passed on in front of the body.
   */
  lemma ServerBodyIsShifted(length: nat, body: string)
    ensures ParseHeader(ServerHeader(GF_OK, length) + body) == Accepted(OK, length, END_OF_HEADER[3..] + body)
  {
    hide ScanHeader, ScanWord, ScanNumber, SpaceRun, WordLength, DigitRun, Value, Decimal, CString;
    var digits, rest := Decimal(length), SPACE_AND_END + CString(body);
    HeaderText(SCHEME, OK_WORD, digits + SPACE_AND_END, body);
    assert (digits + SPACE_AND_END) + CString(body) == digits + rest;
    ScanFields(SCHEME, OK_WORD, digits, rest);
    ValueOfDecimal(length);
    EndOfServerHeader(digits, body);
    Parts(SCHEME + (" " + (OK_WORD + (" " + (digits + SPACE_AND_END[..4])))), END_OF_HEADER[3..] + body);
  }

  lemma EndOfServerHeader(digits: string, body: string)
    ensures SCHEME + (" " + (OK_WORD + (" " + (digits + SPACE_AND_END)))) + body
            == SCHEME + (" " + (OK_WORD + (" " + (digits + SPACE_AND_END[..4])))) + (END_OF_HEADER[3..] + body)
  {}

  lemma NoNumberAtEnd()
    ensures ScanNumber(SPACE_AND_END) == None && CString("") == ""
  {
    SpaceRunOf(SPACE_AND_END, "");
    assert SPACE_AND_END + "" == SPACE_AND_END;
  }

  lemma ServerFailureParses(word: string)
    requires word == NOT_FOUND_WORD || word == ERROR_WORD
    ensures ParseHeader(SCHEME + (" " + (word + SPACE_AND_END))) == Accepted(StatusOf(word), 0, "")
  {
    hide ScanHeader, ScanWord, ScanNumber, SpaceRun, WordLength, DigitRun, Value, Decimal, CString;
    var s := SCHEME + (" " + (word + SPACE_AND_END));
    CStringOf(s, "");
    assert s + "" == s;
    NoNumberAtEnd();
    ScanTwoWords(SCHEME, " ", word, SPACE_AND_END);
  }

  /** A first recv() that holds the whole header leaves exactly the body bytes behind it. */
  lemma OkHeaderParses(length: nat, body: string)
    ensures ParseHeader(OkHeader(length) + body) == Accepted(OK, length, body)
  {
    hide ScanHeader, ScanWord, ScanNumber, SpaceRun, WordLength, DigitRun, Value, Decimal, CString;
    var digits, rest := Decimal(length), END_OF_HEADER + CString(body);
    HeaderText(SCHEME, OK_WORD, digits + END_OF_HEADER, body);
    assert (digits + END_OF_HEADER) + CString(body) == digits + rest;
    ScanFields(SCHEME, OK_WORD, digits, rest);
    ValueOfDecimal(length);
    Parts(OkHeader(length), body);
  }

  // ---- parse_request over strtok ------------------------------------------------

  function SkipAny(s: string, delims: string): (n: nat)
    ensures n <= |s|
    ensures n < |s| ==> s[n] !in delims
    ensures forall i :: 0 <= i < n ==> s[i] in delims
  {
    if s == "" || s[0] !in delims then 0 else 1 + SkipAny(s[1..], delims)
  }

  function TokenLength(s: string, delims: string): (n: nat)
    ensures n <= |s|
    ensures n < |s| ==> s[n] in delims
    ensures forall i :: 0 <= i < n ==> s[i] !in delims
  {
    if s == "" || s[0] in delims then 0 else 1 + TokenLength(s[1..], delims)
  }

  /** One call of strtok on the text that the previous call left: the token, and the text behind it. */
  function Strtok(s: string, delims: string): (r: Option<(string, string)>)
    ensures r.Some? ==> r.value.0 != "" && forall i :: 0 <= i < |r.value.0| ==> r.value.0[i] !in delims
  {
    var t := s[SkipAny(s, delims)..];
    var n := TokenLength(t, delims);
    if t == "" then None else Some((t[..n], if n < |t| then t[n + 1..] else ""))
  }

  /** `Crash` is the comparison of a missing method, a null pointer, with a string. */
  datatype ParsedRequest = Path(path: string) | NoPath | Crash

  const LINE_ENDS := "\r\n\r\n"

  function ParseRequest(s: string): ParsedRequest {
    match Strtok(s, " ")
    case None => NoPath
    case Some((scheme, s1)) =>
      if scheme != SCHEME then NoPath
      else
        match Strtok(s1, " ")
        case None => Crash
        case Some((method_, s2)) =>
          if method_ != METHOD then NoPath
          else
            match Strtok(s2, LINE_ENDS)
            case None => NoPath
            case Some((path, _)) => Path(path)
  }

  lemma {:induction false} TokenLengthOf(token: string, rest: string, delims: string)
    requires (forall i :: 0 <= i < |token| ==> token[i] !in delims) && (rest == "" || rest[0] in delims)
    ensures TokenLength(token + rest, delims) == |token|
  {
    if token == "" {
      assert token + rest == rest;
    } else {
      assert (token + rest)[1..] == token[1..] + rest;
      TokenLengthOf(token[1..], rest, delims);
    }
  }

  lemma StrtokAt(token: string, c: char, rest: string, delims: string)
    requires token != "" && (forall i :: 0 <= i < |token| ==> token[i] !in delims) && c in delims
    ensures Strtok(token + ([c] + rest), delims) == Some((token, rest))
  {
    var s := token + ([c] + rest);
    assert s[0] == token[0] && s[0..] == s;
    TokenLengthOf(token, [c] + rest, delims);
    Parts(token, [c] + rest);
    Parts([c], rest);
    assert s[|token| + 1..] == ([c] + rest)[1..];
  }

  /** Parsing the printed request returns the path, spaces in it included. */
  lemma RequestParses(path: string)
    requires path != "" && forall i :: 0 <= i < |path| ==> path[i] !in {'\r', '\n'}
    ensures ParseRequest(Request(path)) == Path(path)
  {
    hide Strtok;
    assert forall i :: 0 <= i < |path| ==> path[i] !in LINE_ENDS;
    StrtokAt(SCHEME, ' ', METHOD + (" " + (path + END_OF_HEADER)), " ");
    StrtokAt(METHOD, ' ', path + END_OF_HEADER, " ");
    StrtokAt(path, '\r', END_OF_HEADER[1..], LINE_ENDS);
    assert END_OF_HEADER == ['\r'] + END_OF_HEADER[1..];
  }

  /** The text of a request, and what the server makes of it. */
  lemma RequestText(path: string)
    ensures Request(path) == "GETFILE GET " + path + "\r\n\r\n"
    ensures path != "" && (forall i :: 0 <= i < |path| ==> path[i] !in {'\r', '\n'}) ==>
              ParseRequest("GETFILE GET " + path + "\r\n\r\n") == Path(path)
  {
    hide ParseRequest;
    assert "GETFILE GET " == SCHEME + " " + METHOD + " ";
    assert Request(path) == SCHEME + " " + METHOD + " " + path + END_OF_HEADER;
    if path != "" && forall i :: 0 <= i < |path| ==> path[i] !in {'\r', '\n'} {
      RequestParses(path);
    }
  }

  /** A request with another scheme is refused. */
  lemma OtherSchemeRefused(scheme: string, rest: string)
    requires scheme != "" && scheme != "GETFILE" && forall i :: 0 <= i < |scheme| ==> scheme[i] != ' '
    ensures ParseRequest(scheme + (" " + rest)) == NoPath && ParseRequest(scheme) == NoPath
  {
    hide Strtok;
    TokenThen(scheme, rest);
  }

  /** A request with another method is refused. */
  lemma OtherMethodRefused(verb: string, rest: string)
    requires verb != "" && verb != "GET" && forall i :: 0 <= i < |verb| ==> verb[i] != ' '
    ensures ParseRequest("GETFILE " + verb + " " + rest) == NoPath && ParseRequest("GETFILE " + verb) == NoPath
  {
    hide Strtok;
    assert "GETFILE " == "GETFILE" + " ";
    assert "GETFILE " + verb + " " + rest == "GETFILE" + (" " + (verb + (" " + rest)));
    TokenThen("GETFILE", verb + (" " + rest));
    TokenThen(verb, rest);
    assert "GETFILE " + verb == "GETFILE" + (" " + verb);
    TokenThen("GETFILE", verb);
  }

  lemma GetText(ends: string)
    ensures "GETFILE GET " + ends == "GETFILE" + (" " + ("GET" + (" " + ends)))
  {
    assert "GETFILE GET " == "GETFILE" + (" " + ("GET" + " "));
  }

  /** The first token of a text without blanks in front, and what strtok leaves behind it. */
  lemma TokenThen(token: string, rest: string)
    requires token != "" && forall i :: 0 <= i < |token| ==> token[i] != ' '
    ensures Strtok(token + (" " + rest), " ") == Some((token, rest))
    ensures Strtok(token, " ") == Some((token, ""))
  {
    hide Strtok;
    StrtokBehind(0, token, " " + rest);
    assert Blanks(0) + (token + (" " + rest)) == token + (" " + rest);
    assert (" " + rest)[1..] == rest;
    StrtokBehind(0, token, "");
    assert Blanks(0) + (token + "") == token;
  }

  lemma NoTokenIn(ends: string)
    requires forall i :: 0 <= i < |ends| ==> ends[i] in {'\r', '\n'}
    ensures Strtok(ends, LINE_ENDS) == None
  {
    assert forall i :: 0 <= i < |ends| ==> ends[i] in LINE_ENDS by {
      assert LINE_ENDS[0] == '\r' && LINE_ENDS[1] == '\n';
    }
    SkipAnyOf(ends, "", LINE_ENDS);
    assert ends + "" == ends;
    StrtokNone(ends, LINE_ENDS);
  }

  /** A request without a path is refused. */
  lemma NoPathRefused(ends: string)
    requires forall i :: 0 <= i < |ends| ==> ends[i] in {'\r', '\n'}
    ensures ParseRequest("GETFILE GET " + ends) == NoPath
  {
    hide Strtok;
    GetText(ends);
    TokenThen("GETFILE", "GET" + (" " + ends));
    TokenThen("GET", ends);
    NoTokenIn(ends);
  }

  /** An empty request, or one of blanks, is refused. */
  lemma BlankRefused(n: nat)
    ensures ParseRequest(Blanks(n)) == NoPath
  {
    StrtokOfBlanks(Blanks(n));
  }

  lemma OkText(rest: string)
    ensures SCHEME + (" " + (OK_WORD + (" " + rest))) == "GETFILE OK " + rest
  {
    assert "GETFILE OK " == SCHEME + (" " + (OK_WORD + " "));
  }

  lemma Assoc(a: string, b: string, c: string)
    ensures a + (b + c) == (a + b) + c
  {}

  lemma EndText()
    ensures " " + END_OF_HEADER == " \r\n\r\n"
  {}

  /** The text of the client's own form of the header. */
  lemma OkHeaderText(length: nat)
    ensures OkHeader(length) == "GETFILE OK " + Decimal(length) + "\r\n\r\n"
  {
    hide Decimal;
    OkText(Decimal(length) + END_OF_HEADER);
    Assoc("GETFILE OK ", Decimal(length), END_OF_HEADER);
  }

  /** The texts of the headers that the server prints. */
  lemma ServerHeaderText(length: nat)
    ensures ServerHeader(200, length) == "GETFILE OK " + Decimal(length) + " \r\n\r\n"
    ensures ServerHeader(400, length) == "GETFILE FILE_NOT_FOUND \r\n\r\n"
    ensures forall status :: status != 200 && status != 400 ==>
              ServerHeader(status, length) == "GETFILE ERROR \r\n\r\n"
  {
    hide Decimal;
    OkText(Decimal(length) + (" " + END_OF_HEADER));
    EndText();
    Assoc("GETFILE OK ", Decimal(length), " " + END_OF_HEADER);
    FailureTexts();
  }

  lemma FailureTexts()
    ensures SCHEME + (" " + (NOT_FOUND_WORD + (" " + END_OF_HEADER))) == "GETFILE FILE_NOT_FOUND \r\n\r\n"
    ensures SCHEME + (" " + (ERROR_WORD + (" " + END_OF_HEADER))) == "GETFILE ERROR \r\n\r\n"
  {}

  /** A connection that is closed at once is refused, and so is a response of spaces. */
  lemma NothingRefused(spaces: string)
    requires AllSpaces(spaces)
    ensures ParseHeader(spaces) == Rejected(Invalid)
  {
    CStringOf(spaces, "");
    assert spaces + "" == spaces && CString("") == "";
    SpaceRunOf(spaces, "");
    assert spaces[|spaces|..] == "" && WordLength("") == 0;
  }

  /** A response with another scheme is refused, whatever follows it. */
  lemma OtherSchemeRejected(scheme: string, rest: string)
    requires IsWord(scheme) && NulFree(scheme) && scheme != "GETFILE"
    ensures ParseHeader(scheme + (" " + rest)) == Rejected(Invalid)
  {
    hide ScanWord, WordLength;
    CStringOf(scheme, " " + rest);
    CStringOf(" ", rest);
    assert CString(" " + rest) == " " + CString(rest);
    ScanWordAt("", scheme, " " + CString(rest));
    assert "" + (scheme + (" " + CString(rest))) == scheme + (" " + CString(rest));
  }

  /** A status word other than the three known ones is refused, whatever follows it. */
  lemma OtherStatusRejected(status: string, rest: string)
    requires IsWord(status) && NulFree(status) && status != "OK" && status != "FILE_NOT_FOUND" && status != "ERROR"
    ensures ParseHeader(SCHEME + (" " + (status + (" " + rest)))) == Rejected(Invalid)
    ensures SCHEME + (" " + (status + (" " + rest))) == "GETFILE " + status + " " + rest
  {
    hide ScanHeader, ScanWord, WordLength, CString;
    assert "GETFILE " == SCHEME + " ";
    var s := SCHEME + (" " + (status + " "));
    assert SCHEME + (" " + (status + (" " + rest))) == s + rest;
    CStringOf(s, rest);
    assert s + CString(rest) == SCHEME + (" " + (status + (" " + CString(rest))));
    ScanTwoWords(SCHEME, " ", status, " " + CString(rest));
  }

  /** Whatever the request, a path that is returned is nonempty and stays on one line. */
  lemma ParsedPathIsOneLine(s: string)
    requires ParseRequest(s).Path?
    ensures var path := ParseRequest(s).path;
            path != "" && forall i :: 0 <= i < |path| ==> path[i] !in {'\r', '\n'}
  {
    var path := ParseRequest(s).path;
    forall i | 0 <= i < |path| ensures path[i] !in {'\r', '\n'} {
      assert LINE_ENDS[0] == '\r' && LINE_ENDS[1] == '\n';
      assert path[i] !in LINE_ENDS;
    }
  }

  function Blanks(n: nat): (s: string)
    ensures |s| == n && forall i :: 0 <= i < n ==> s[i] == ' '
  {
    seq(n, _ => ' ')
  }

  /** A request of the scheme alone, with spaces around it or none. */
  ghost predicate BareScheme(s: string) {
    exists before: nat, after: nat :: s == Blanks(before) + (SCHEME + Blanks(after))
  }

  lemma {:induction false} SkipAnyOf(lead: string, rest: string, delims: string)
    requires (forall i :: 0 <= i < |lead| ==> lead[i] in delims) && (rest == "" || rest[0] !in delims)
    ensures SkipAny(lead + rest, delims) == |lead|
  {
    if lead == "" {
      assert lead + rest == rest;
    } else {
      assert (lead + rest)[1..] == lead[1..] + rest;
      SkipAnyOf(lead[1..], rest, delims);
    }
  }

  /** Behind blanks, the first token runs up to the next blank. */
  lemma StrtokBehind(before: nat, token: string, rest: string)
    requires token != "" && (forall i :: 0 <= i < |token| ==> token[i] != ' ') && (rest == "" || rest[0] == ' ')
    ensures Strtok(Blanks(before) + (token + rest), " ") == Some((token, if rest == "" then "" else rest[1..]))
  {
    hide SkipAny, TokenLength, Strtok;
    var t := token + rest;
    assert t[0] == token[0];
    SkipAnyOf(Blanks(before), t, " ");
    Parts(Blanks(before), t);
    TokenLengthOf(token, rest, " ");
    StrtokParts(Blanks(before) + t, " ", t, |token|);
    Parts(token, rest);
    if rest != "" {
      Parts(token + [rest[0]], rest[1..]);
      assert t == (token + [rest[0]]) + rest[1..];
    }
  }

  lemma StrtokOfBlanks(s: string)
    ensures Strtok(s, " ") == None <==> s == Blanks(|s|)
  {
    if s == Blanks(|s|) {
      SkipAnyOf(s, "", " ");
      assert s + "" == s;
    }
  }

  /** A text that is cut into tokens at blanks, taken apart at its first token. */
  lemma FirstToken(s: string) returns (before: nat, token: string, rest: string)
    requires Strtok(s, " ").Some?
    ensures s == Blanks(before) + (token + rest) && token != "" && (forall i :: 0 <= i < |token| ==> token[i] != ' ')
    ensures rest == "" || rest[0] == ' '
  {
    hide SkipAny, TokenLength;
    before := SkipAny(s, " ");
    var t := s[before..];
    var n := TokenLength(t, " ");
    token, rest := t[..n], t[n..];
    assert s[..before] == Blanks(before);
    Halves(s, before);
    Halves(t, n);
  }

  /** The server compares a null pointer, and so crashes, exactly on requests of the scheme alone. */
  lemma CrashIff(s: string)
    ensures ParseRequest(s).Crash? <==> BareScheme(s)
  {
    hide Strtok;
    if Strtok(s, " ").Some? {
      var before, token, rest := FirstToken(s);
      StrtokBehind(before, token, rest);
      var s1 := if rest == "" then "" else rest[1..];
      StrtokOfBlanks(s1);
      if ParseRequest(s).Crash? {
        assert rest == Blanks(|rest|);
        assert s == Blanks(before) + (SCHEME + Blanks(|rest|));
      }
    }
    if BareScheme(s) {
      var before: nat, after: nat :| s == Blanks(before) + (SCHEME + Blanks(after));
      StrtokBehind(before, SCHEME, Blanks(after));
      var s1 := if after == 0 then "" else Blanks(after)[1..];
      assert s1 == Blanks(|s1|);
      StrtokOfBlanks(s1);
    }
  }

  lemma BareSchemeCrashes()
    ensures ParseRequest("GETFILE") == Crash
  {
    CrashIff("GETFILE");
    assert "GETFILE" == Blanks(0) + (SCHEME + Blanks(0));
  }

  /** strspn: the first byte from `from` on that is not a delimiter. */
  method SkipDelimiters(buf: array<char>, from: nat, end: nat, delims: string) returns (start: nat)
    requires from <= end <= buf.Length
    ensures start == from + SkipAny(buf[from..end], delims)
  {
    start := from;
    while start < end && buf[start] in delims
      invariant from <= start <= end
      invariant SkipAny(buf[from..end], delims) == start - from + SkipAny(buf[start..end], delims)
    {
      assert buf[start..end][1..] == buf[start + 1..end];
      start := start + 1;
    }
  }

  /** strcspn: the first delimiter from `start` on. */
  method FindDelimiter(buf: array<char>, start: nat, end: nat, delims: string) returns (stop: nat)
    requires start <= end <= buf.Length
    ensures stop == start + TokenLength(buf[start..end], delims)
  {
    stop := start;
    while stop < end && buf[stop] !in delims
      invariant start <= stop <= end
      invariant TokenLength(buf[start..end], delims) == stop - start + TokenLength(buf[stop..end], delims)
    {
      assert buf[stop..end][1..] == buf[stop + 1..end];
      stop := stop + 1;
    }
  }

  /** strtok in place: the byte behind the token becomes a terminator. */
  method StrtokInPlace(buf: array<char>, from: nat, end: nat, delims: string)
    returns (found: bool, start: nat, stop: nat, save: nat)
    requires from <= end < buf.Length && buf[end] == '\0'
    modifies buf
    ensures found <==> Strtok(old(buf[from..end]), delims).Some?
    ensures found ==> start <= stop <= save <= end && buf[stop] == '\0' && buf[end] == '\0'
    ensures found ==> Strtok(old(buf[from..end]), delims) == Some((buf[start..stop], buf[save..end]))
    ensures !found ==> buf[..] == old(buf[..])
  {
    hide Strtok;
    ghost var s := buf[from..end];
    start := SkipDelimiters(buf, from, end, delims);
    if start == end {
      StrtokNone(s, delims);
      return false, end, end, end;
    }
    stop := FindDelimiter(buf, start, end, delims);
    save := if stop < end then stop + 1 else end;
    found := true;
    StrtokInside(buf[..], from, end, delims, start, stop);
    ghost var token, rest := buf[start..stop], buf[save..end];
    buf[stop] := '\0';
    assert token == buf[start..stop];
    assert rest == buf[save..end];
  }

  lemma DropOfSlice(b: string, from: nat, end: nat, at: nat)
    requires from <= at <= end <= |b|
    ensures b[from..end][at - from..] == b[at..end]
  {
    assert b[from..end] == b[from..at] + b[at..end];
  }

  lemma TakeOfSlice(b: string, from: nat, end: nat, at: nat)
    requires from <= at <= end <= |b|
    ensures b[from..end][..at - from] == b[from..at]
  {
    assert b[from..end] == b[from..at] + b[at..end];
  }

  lemma StrtokNone(s: string, delims: string)
    requires SkipAny(s, delims) == |s|
    ensures Strtok(s, delims) == None
  {}

  lemma StrtokParts(s: string, delims: string, t: string, n: nat)
    requires t == s[SkipAny(s, delims)..] && t != "" && n == TokenLength(t, delims)
    ensures Strtok(s, delims) == Some((t[..n], if n < |t| then t[n + 1..] else ""))
  {
    hide SkipAny, TokenLength;
  }

  lemma StrtokInside(b: string, from: nat, end: nat, delims: string, start: nat, stop: nat)
    requires from <= start < end <= |b| && start == from + SkipAny(b[from..end], delims)
    requires stop == start + TokenLength(b[start..end], delims)
    ensures Strtok(b[from..end], delims) == Some((b[start..stop], b[if stop < end then stop + 1 else end..end]))
  {
    hide SkipAny, TokenLength, Strtok;
    var s, t, n := b[from..end], b[start..end], stop - start;
    assert t == s[SkipAny(s, delims)..] by {
      DropOfSlice(b, from, end, start);
    }
    StrtokParts(s, delims, t, n);
    assert t[..n] == b[start..stop] by {
      TakeOfSlice(b, start, end, stop);
    }
    RestOfSlice(b, start, end, stop);
  }

  lemma RestOfSlice(b: string, start: nat, end: nat, stop: nat)
    requires start <= stop <= end <= |b|
    ensures var t, n := b[start..end], stop - start;
            (if n < |t| then t[n + 1..] else "") == b[if stop < end then stop + 1 else end..end]
  {
    if stop < end {
      DropOfSlice(b, start, end, stop + 1);
    }
  }

  /** parse_request: three calls of strtok on the terminated receive buffer. */
  method ParseRequestInPlace(buf: array<char>) returns (r: ParsedRequest)
    requires !NulFree(buf[..])
    modifies buf
    ensures r == ParseRequest(CString(old(buf[..])))
  {
    hide Strtok, CString;
    assert buf[0..] == buf[..];
    var end := StrLen(buf, 0);
    assert buf[0..end] == buf[..end];
    var found, start, stop, save := StrtokInPlace(buf, 0, end, " ");
    if !found || buf[start..stop] != SCHEME {
      return NoPath;
    }
    found, start, stop, save := StrtokInPlace(buf, save, end, " ");
    if !found {
      return Crash;
    }
    if buf[start..stop] != METHOD {
      return NoPath;
    }
    found, start, stop, save := StrtokInPlace(buf, save, end, LINE_ENDS);
    r := if found then Path(buf[start..stop]) else NoPath;
  }
}
