/**
  The sending side: send_data and gfs_send of gfserver.c under the chunked file loop of handler.c.
  send() and pread() may each do less than they are asked to, and a connection that failed stays failed.
 */
module Servers {
  import opened Wrappers
  import opened Protocols
  import opened Contents

  const BUFFER_SIZE := 4096

  ghost predicate ProperPrefix(a: string, b: string) { a <= b && |a| < |b| }

  /** What was on the wire, followed by a proper part of the data. */
  ghost predicate CutShort(before: string, data: string, wire: string) {
    before <= wire && ProperPrefix(wire, before + data)
  }

  class Connection {
    ghost var wire: string  // every byte accepted so far
    var broken: bool

    constructor ()
      ensures wire == "" && !broken
    {
      wire, broken := "", false;
    }

    /** send(): some part of the data, at least a byte, or a failure. */
    method Send(data: string) returns (n: int)
      requires data != ""
      modifies this
      ensures old(broken) ==> n < 0
      ensures n < 0 ==> broken && wire == old(wire)
      ensures n >= 0 ==> 1 <= n <= |data| && !broken && wire == old(wire) + data[..n]
    {
      var fail: bool := *;
      if broken || fail {
        broken := true;
        return -1;
      }
      n :| 1 <= n <= |data|;
      wire := wire + data[..n];
    }

    /** Either all of the data is on the wire, or a proper part of it and the connection is broken. */
    method SendData(data: string) returns (sent: int)
      modifies this
      ensures sent == -1 || sent == |data|
      ensures sent >= 0 ==> wire == old(wire) + data && broken == old(broken)
      ensures sent < 0 ==> broken && CutShort(old(wire), data, wire)
      ensures old(broken) && data != "" ==> sent < 0 && wire == old(wire)
    {
      sent := 0;
      assert data[..0] == "" && wire == wire + "";
      while sent < |data|
        invariant 0 <= sent <= |data| && wire == old(wire) + data[..sent] && broken == old(broken)
        invariant old(broken) ==> sent == 0
        decreases |data| - sent
      {
        var n := Send(data[sent..]);
        if n < 0 {
          assert wire == old(wire) + data[..sent] && data[..sent] <= data;
          return -1;
        }
        assert data[..sent] + data[sent..][..n] == data[..sent + n];
        sent := sent + n;
      }
      assert data[..sent] == data;
    }

    method GfsSend(data: string) returns (sent: int)
      modifies this
      ensures sent == -1 || sent == |data|
      ensures sent >= 0 ==> wire == old(wire) + data && broken == old(broken)
      ensures sent < 0 ==> broken && CutShort(old(wire), data, wire)
      ensures old(broken) && data != "" ==> sent < 0 && wire == old(wire)
    {
      sent := SendData(data);
      if sent != |data| {
        return -1;
      }
    }

    method SendHeader(status: int, length: nat) returns (sent: int)
      modifies this
      ensures sent == -1 || sent == |ServerHeader(status, length)|
      ensures sent >= 0 ==> wire == old(wire) + ServerHeader(status, length) && broken == old(broken)
      ensures sent < 0 ==> broken && CutShort(old(wire), ServerHeader(status, length), wire)
    {
      var header := ServerHeader(status, length);
      sent := SendData(header);
      if sent < |header| {
        return -1;
      }
    }
  }

  /** pread(): up to a buffer of the file from an offset on; nothing on an error. */
  method Pread(file: string, buffer: array<char>, offset: nat) returns (n: int)
    requires offset < |file| && buffer.Length == BUFFER_SIZE
    modifies buffer
    ensures n <= BUFFER_SIZE && offset + n <= |file|
    ensures n > 0 ==> buffer[..n] == file[offset..offset + n]
  {
    var fail: bool := *;
    if fail {
      n := *;
      if n > 0 {
        n := 0;
      }
      return;
    }
    n :| 1 <= n <= BUFFER_SIZE && offset + n <= |file|;
    forall i | 0 <= i < n {
      buffer[i] := file[offset + i];
    }
  }

  /** Where the response stands after `r` bytes of the file, when the header was sent whole or cut short. */
  ghost predicate Sent(conn: Connection, header: string, file: string, r: nat, whole: bool)
    requires r <= |file|
    reads conn
  {
    if whole then !conn.broken && conn.wire == header + file[..r]
    else conn.broken && r == 0 && ProperPrefix(conn.wire, header)
  }

  /** One round of the file loop: some of the file is read and sent, or the response ends cut short. */
  method SendChunk(conn: Connection, file: string, buffer: array<char>, r: nat, ghost header: string, ghost whole: bool)
    returns (n: int)
    requires r < |file| && buffer.Length == BUFFER_SIZE && Sent(conn, header, file, r, whole)
    modifies conn, buffer
    ensures n == -1 || (0 < n && r + n <= |file| && whole && Sent(conn, header, file, r + n, whole))
    ensures n == -1 ==> ProperPrefix(conn.wire, header + file)
  {
    hide ProperPrefix, CutShort;
    n := Pread(file, buffer, r);
    if n <= 0 {
      if whole {
        CutBefore(header, file, r);
      } else {
        CutInHeader(header, file, conn.wire);
      }
      return -1;
    }
    NextChunk(header, file, r, n);
    var w := conn.GfsSend(buffer[..n]);
    if w != n {
      if whole {
        CutInFile(header, file, r, n, conn.wire);
      } else {
        CutInHeader(header, file, conn.wire);
      }
      return -1;
    }
  }

  lemma CutBefore(header: string, file: string, r: nat)
    requires r < |file|
    ensures ProperPrefix(header + file[..r], header + file)
  {
    assert header + file == (header + file[..r]) + file[r..];
  }

  lemma CutInHeader(header: string, file: string, wire: string)
    requires ProperPrefix(wire, header)
    ensures ProperPrefix(wire, header + file)
  {}

  lemma NextChunk(header: string, file: string, r: nat, n: nat)
    requires r + n <= |file|
    ensures header + file[..r + n] == (header + file[..r]) + file[r..r + n]
  {
    assert file[..r + n] == file[..r] + file[r..r + n];
  }

  /**
    The OK branch of handler_get. A positive result means that the wire holds the header and the
    whole file; a failure leaves a proper prefix of that. The result of sending the header is
    ignored, which only an empty file lets pass: it reports 0 even when the header was cut short.
   */
  method SendFile(conn: Connection, file: string) returns (r: int)
    requires !conn.broken && conn.wire == ""
    modifies conn
    ensures r == -1 || r == |file|
    ensures conn.wire <= ServerHeader(GF_OK, |file|) + file
    ensures file != "" ==> (r > 0 <==> conn.wire == ServerHeader(GF_OK, |file|) + file)
    ensures file == "" ==> r == 0 && (conn.wire == ServerHeader(GF_OK, 0) <==> !conn.broken)
  {
    hide ServerHeader;
    ghost var header := ServerHeader(GF_OK, |file|);
    var buffer := new char[BUFFER_SIZE];
    var h := conn.SendHeader(GF_OK, |file|);
    ghost var whole := h >= 0;
    r := 0;
    while r < |file|
      invariant 0 <= r <= |file| && Sent(conn, header, file, r, whole)
      decreases |file| - r
    {
      var w := SendChunk(conn, file, buffer, r, header, whole);
      if w < 0 {
        return -1;
      }
      r := r + w;
    }
    assert file[..|file|] == file;
  }

  /** A chunk that was cut short leaves a proper prefix of the whole response. */
  lemma CutInFile(header: string, file: string, r: nat, n: nat, wire: string)
    requires r + n <= |file| && CutShort(header + file[..r], file[r..r + n], wire)
    ensures ProperPrefix(wire, header + file)
  {
    assert header + file == (header + file[..r] + file[r..r + n]) + file[r + n..];
  }

  /** What the wire holds after `r` was returned: the whole response, or a proper prefix of it with -1. */
  ghost predicate Responded(wire: string, r: int, found: Option<string>) {
    match found
    case None =>
      var header := ServerHeader(GF_FILE_NOT_FOUND, 0);
      (r == |header| && wire == header) || (r == -1 && ProperPrefix(wire, header))
    case Some(file) =>
      var response := ServerHeader(GF_OK, |file|) + file;
      if file == "" then r == 0 && wire <= response
      else (r == |file| && wire == response) || (r == -1 && ProperPrefix(wire, response))
  }

  /** The file behind some row with the key, and nothing when no row has it. */
  ghost predicate IsLookup(rows: seq<Row>, files: map<int, string>, key: string, found: Option<string>) {
    match found
    case None => forall row :: row in rows ==> row.key != key
    case Some(file) => exists row :: row in rows && row.key == key && row.fildes in files && files[row.fildes] == file
  }

  /** With distinct keys the index and the key determine the file. */
  lemma LookupIsUnique(rows: seq<Row>, files: map<int, string>, key: string, a: Option<string>, b: Option<string>)
    requires IsLookup(rows, files, key, a) && IsLookup(rows, files, key, b)
    requires forall i, j :: 0 <= i < j < |rows| ==> rows[i].key != rows[j].key
    ensures a == b
  {
    if a.Some? && b.Some? {
      var x :| x in rows && x.key == key && x.fildes in files && files[x.fildes] == a.value;
      var y :| y in rows && y.key == key && y.fildes in files && files[y.fildes] == b.value;
      var i :| 0 <= i < |rows| && rows[i] == x;
      var j :| 0 <= j < |rows| && rows[j] == y;
      assert i == j;
    }
  }

  method Answer(conn: Connection, found: Option<string>) returns (r: int)
    requires !conn.broken && conn.wire == ""
    modifies conn
    ensures Responded(conn.wire, r, found)
  {
    match found
    case None => r := conn.SendHeader(GF_FILE_NOT_FOUND, 0);
    case Some(file) =>
      r := SendFile(conn, file);
      assert ServerHeader(GF_OK, 0) + "" == ServerHeader(GF_OK, 0);
  }

  /**
    handler_get: looks the path up in the index and answers with the file of a row that has it, or
    with the header of a missing file. Every descriptor in the index is that of an open file.
   */
  method HandlerGet(conn: Connection, content: Content, files: map<int, string>, path: string)
    returns (r: int, ghost found: Option<string>)
    requires !conn.broken && conn.wire == "" && content.Valid()
    requires forall row :: row in content.Rows() ==> row.fildes >= 0 && row.fildes in files
    modifies conn
    ensures IsLookup(content.Rows(), files, path, found) && Responded(conn.wire, r, found)
  {
    hide Responded, ServerHeader;
    var fildes := content.Get(path);
    if fildes < 0 {
      found := None;
      r := Answer(conn, None);
    } else {
      assert Row(path, fildes) in content.Rows();
      found := Some(files[fildes]);
      r := Answer(conn, Some(files[fildes]));
    }
  }
}
