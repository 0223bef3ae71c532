/**
  The buffered readers of console.c, stacked for nested source files. `rest` is what the file
  still holds; read() hands over any nonempty part of it, so nothing may depend on how it splits.
 */
module Rios {
  import opened Lines

  class Rio {
    var rest: string
    var cnt: int
    var bufptr: nat
    const buf: array<char>
    const prev: Rio?

    ghost const Repr: set<object>

    ghost predicate Valid()
      reads Repr
      decreases Repr
    {
      && this in Repr && buf in Repr
      && buf.Length == RIO_BUFSIZE && 0 <= cnt && bufptr + cnt <= RIO_BUFSIZE
      && (prev != null ==>
            prev in Repr && prev.Repr < Repr && {this, buf} !! prev.Repr && prev.Valid())
    }

    /** Text that this reader has still to deliver. */
    ghost function Pending(): string
      requires Valid()
      reads Repr
    {
      buf[bufptr..bufptr + cnt] + rest
    }

    /** The pending texts of the stack, the innermost file first. */
    ghost function Texts(): (texts: seq<string>)
      requires Valid()
      reads Repr
      decreases Repr
      ensures |texts| > 0
    {
      [Pending()] + if prev == null then [] else prev.Texts()
    }

    constructor (text: string, prev: Rio?)
      requires prev != null ==> prev.Valid()
      ensures Valid() && this.prev == prev
      ensures Texts() == [text] + if prev == null then [] else prev.Texts()
      ensures fresh(Repr - if prev == null then {} else prev.Repr)
      ensures prev != null ==> prev.Valid()
    {
      rest := text;
      cnt, bufptr := 0, 0;
      var b := new char[RIO_BUFSIZE];
      buf := b;
      this.prev := prev;
      Repr := {this, b} + if prev == null then {} else prev.Repr;
      new;
      assert Pending() == text;
    }

    /** read(): any number of bytes up to the buffer size; none only at the end of the file. */
    method Fill()
      requires Valid() && cnt == 0
      modifies this, buf
      ensures Valid() && Pending() == old(Pending())
      ensures cnt == 0 <==> old(Pending()) == ""
    {
      bufptr := 0;
      if rest != "" {
        var n :| 1 <= n <= RIO_BUFSIZE && n <= |rest|;
        forall i | 0 <= i < n {
          buf[i] := rest[i];
        }
        cnt := n;
        assert buf[0..n] == rest[..n];
        rest := rest[n..];
      }
    }

    /** The next byte of the file, read() being called when the buffer is empty. */
    method GetByte() returns (c: char, eof: bool)
      requires Valid()
      modifies this, buf
      ensures Valid()
      ensures eof <==> old(Pending()) == ""
      ensures eof ==> Pending() == "" && c == '\0'
      ensures !eof ==> c == old(Pending())[0] && Pending() == old(Pending())[1..]
    {
      if cnt <= 0 {
        Fill();
        if cnt <= 0 {
          return '\0', true;
        }
      }
      assert buf[bufptr..bufptr + cnt][1..] == buf[bufptr + 1..bufptr + cnt];
      assert Pending()[1..] == buf[bufptr + 1..bufptr + cnt] + rest;
      c := buf[bufptr];
      bufptr := bufptr + 1;
      cnt := cnt - 1;
      eof := false;
    }

    method CopyByte(linebuf: array<char>, at: nat) returns (c: char, eof: bool)
      requires Valid() && linebuf !in Repr && at < linebuf.Length
      modifies this, buf, linebuf
      ensures Valid()
      ensures eof <==> old(Pending()) == ""
      ensures eof ==> Pending() == "" && c == '\0' && linebuf[..at] == old(linebuf[..at])
      ensures !eof ==> c == old(Pending())[0] && Pending() == old(Pending())[1..]
      ensures !eof ==> linebuf[..at + 1] == old(linebuf[..at]) + [c]
    {
      c, eof := GetByte();
      if !eof {
        linebuf[at] := c;
        assert linebuf[..at + 1] == linebuf[..at] + [c];
      }
    }

    /** The loop of readline(): copies bytes up to a newline, the limit or the end of the file. */
    method CollectLine(linebuf: array<char>) returns (length: nat, c: char, eof: bool)
      requires Valid() && linebuf.Length == RIO_BUFSIZE && linebuf !in Repr
      modifies this, buf, linebuf
      ensures Valid() && length == LineBytes(old(Pending()), LINE_LIMIT)
      ensures linebuf[..length] == old(Pending())[..length] && Pending() == old(Pending())[length..]
      ensures c == '\n' <==> length > 0 && linebuf[length - 1] == '\n'
      ensures eof <==> |old(Pending())| < 8190 && '\n' !in old(Pending())
    {
      hide LineBytes, Pending, Collected;
      ghost var p := Pending();
      length, c, eof := 0, '\0', false;
      CollectStart(p);
      while length < RIO_BUFSIZE - 2 && !eof && c != '\n'
        invariant length <= |p| && length <= LINE_LIMIT && Valid()
        invariant Pending() == p[length..] && linebuf[..length] == p[..length]
        invariant Collected(p, length, c, eof)
        decreases RIO_BUFSIZE - length, !eof
      {
        CollectNext(p, length, c);
        c, eof := CopyByte(linebuf, length);
        if !eof {
          length := length + 1;
        }
      }
      CollectEnd(p, length, c, eof);
    }

    /**
      readline() up to the point where it pops the reader: the line goes to `linebuf`, and `eof`
      tells that the file has ended. However read() splits the file, the line is the first line of
      the pending text, with its newline and terminator inside the buffer; its length is 0 exactly
      when nothing was pending.
     */
    method ReadLine(linebuf: array<char>) returns (length: nat, eof: bool)
      requires Valid() && linebuf.Length == RIO_BUFSIZE && linebuf !in Repr
      modifies this, buf, linebuf
      ensures Valid() && Pending() == AfterLine(old(Pending()))
      ensures Texts() == [AfterLine(old(Pending()))] + old(Texts())[1..]
      ensures length < 8192 && (length > 0 ==> linebuf[length] == '\0')
      ensures old(Pending()) == "" <==> length == 0
      ensures length > 0 ==> linebuf[..length] == FirstLine(old(Pending()))
      ensures eof <==> |old(Pending())| < 8190 && '\n' !in old(Pending())
    {
      hide LineBytes, Pending;
      ghost var below := if prev == null then [] else prev.Texts();
      var c;
      length, c, eof := CollectLine(linebuf);
      length := EndLine(linebuf, length, c);
      assert below == if prev == null then [] else prev.Texts();
    }
  }

  /** Ends a nonempty line in a newline, if it has none, and in a terminator. */
  method EndLine(linebuf: array<char>, length: nat, c: char) returns (n: nat)
    requires length + 1 < linebuf.Length
    modifies linebuf
    ensures length == 0 ==> n == 0
    ensures length > 0 ==>
              && n < linebuf.Length && linebuf[n] == '\0'
              && linebuf[..n] == if c == '\n' then old(linebuf[..length]) else old(linebuf[..length]) + "\n"
  {
    n := length;
    if n > 0 {
      if c != '\n' {
        linebuf[n] := '\n';
        n := n + 1;
        assert linebuf[..n] == old(linebuf[..length]) + "\n";
      }
      linebuf[n] := '\0';
    }
  }

  /** How far the loop of readline() has come: `length` bytes of the next line, of which `c` is the last. */
  ghost predicate Collected(p: string, length: nat, c: char, eof: bool) {
    && length <= |p| && length <= LINE_LIMIT
    && (if eof then length == |p| && length < LINE_LIMIT && c == '\0' && (length > 0 ==> p[length - 1] != '\n')
        else c == if length == 0 then '\0' else p[length - 1])
    && LineBytes(p, LINE_LIMIT) == length + if c == '\n' then 0 else LineBytes(p[length..], LINE_LIMIT - length)
  }

  lemma CollectStart(p: string)
    ensures p[0..] == p && p[..0] == "" && Collected(p, 0, '\0', false)
  {
    assert p[0..] == p;
  }

  lemma CollectNext(p: string, length: nat, c: char)
    requires Collected(p, length, c, false) && length < LINE_LIMIT && c != '\n'
    ensures length == |p| ==> p[length..] == "" && Collected(p, length, '\0', true)
    ensures length < |p| ==>
              && p[length..] != "" && p[length..][0] == p[length] && p[length..][1..] == p[length + 1..]
              && p[..length + 1] == p[..length] + [p[length]]
              && Collected(p, length + 1, p[length], false)
  {
    if length < |p| {
      assert p[length..][1..] == p[length + 1..];
    }
  }

  lemma CollectEnd(p: string, length: nat, c: char, eof: bool)
    requires Collected(p, length, c, eof) && (length == LINE_LIMIT || eof || c == '\n')
    ensures length == LineBytes(p, LINE_LIMIT) && (c == '\n' <==> length > 0 && p[..length][length - 1] == '\n')
    ensures eof <==> |p| < 8190 && '\n' !in p
  {
    EndsHereIff(p);
  }
}
