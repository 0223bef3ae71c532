/**
  The two-pass tokenizer of console.c. The first pass packs the words of a line into a heap buffer,
  each followed by a terminator once the space behind it is seen; the second unpacks that buffer
  with strlen.
 */
module Tokenizers {
  import opened CStrings
  import opened Wrappers
  import opened Memories

  const POINTER_SIZE := 8

  predicate IsSpace(c: char) {
    c == ' ' || ('\U{0009}' <= c <= '\U{000D}')
  }

  /** The promise that readline makes to the tokenizer. */
  predicate EndsInSpace(line: string) {
    line == "" || IsSpace(line[|line| - 1])
  }

  function WordLength(s: string): (n: nat)
    ensures n <= |s|
    ensures forall i :: 0 <= i < n ==> !IsSpace(s[i])
    ensures n < |s| ==> IsSpace(s[n])
  {
    if s == "" || IsSpace(s[0]) then 0 else 1 + WordLength(s[1..])
  }

  /** The maximal space-free words of a line, in order. */
  function Words(s: string): seq<string>
    decreases |s|
  {
    if s == "" then []
    else if IsSpace(s[0]) then Words(s[1..])
    else
      var n := WordLength(s);
      [s[..n]] + Words(s[n..])
  }

  predicate IsWord(w: string) {
    w != "" && forall i :: 0 <= i < |w| ==> !IsSpace(w[i])
  }

  /** The words, each with its terminator. */
  function Packed(words: seq<string>): seq<char> {
    if words == [] then [] else words[0] + ['\0'] + Packed(words[1..])
  }

  // ---- What the maximal words are ----------------------------------------------

  lemma WordsOfWord(w: string, rest: string)
    requires IsWord(w) && (rest == "" || IsSpace(rest[0]))
    ensures Words(w + rest) == [w] + Words(rest)
  {
    var s := w + rest;
    assert s[0] == w[0];
    WordLengthOf(w, rest);
    assert s[..|w|] == w && s[|w|..] == rest;
  }

  lemma {:induction false} WordLengthOf(w: string, rest: string)
    requires forall i :: 0 <= i < |w| ==> !IsSpace(w[i])
    requires rest == "" || IsSpace(rest[0])
    ensures WordLength(w + rest) == |w|
  {
    if w == "" {
      assert w + rest == rest;
    } else {
      assert (w + rest)[1..] == w[1..] + rest;
      WordLengthOf(w[1..], rest);
    }
  }

  /** A space separates: the words of a text are those before it and those after it. */
  lemma {:induction false} WordsSplit(a: string, c: char, b: string)
    requires IsSpace(c)
    ensures Words(a + [c] + b) == Words(a) + Words(b)
    decreases |a|
  {
    var s := a + [c] + b;
    if a == "" {
      assert s[0] == c && s[1..] == b;
    } else if IsSpace(a[0]) {
      assert s[0] == a[0] && s[1..] == a[1..] + [c] + b;
      WordsSplit(a[1..], c, b);
    } else {
      var n := WordLength(a);
      var w, rest := a[..n], a[n..];
      assert a == w + rest;
      WordsSplit(rest, c, b);
      assert s == w + (rest + [c] + b);
      WordsOfWord(w, rest + [c] + b);
    }
  }

  /** Words are nonempty and free of spaces. */
  lemma {:induction false} WordsAreWords(s: string)
    ensures forall i :: 0 <= i < |Words(s)| ==> IsWord(Words(s)[i])
    ensures NulFree(s) ==> forall i :: 0 <= i < |Words(s)| ==> NulFree(Words(s)[i])
    decreases |s|
  {
    if s != "" {
      if IsSpace(s[0]) {
        WordsAreWords(s[1..]);
      } else {
        WordsAreWords(s[WordLength(s)..]);
      }
    }
  }

  /** The six characters that separate words, and no others. */
  lemma Separators(c: char)
    ensures IsSpace(c) <==> c in {' ', '\t', '\n', '\U{000B}', '\U{000C}', '\r'}
  {}

  lemma TabSeparates(a: string, b: string)
    ensures Words(a + "\t" + b) == Words(a) + Words(b)
  {
    WordsSplit(a, '\t', b);
  }

  /** A text without separators is one word. */
  lemma OneWord(w: string)
    requires w != "" && forall i :: 0 <= i < |w| ==> w[i] !in {' ', '\t', '\n', '\U{000B}', '\U{000C}', '\r'}
    ensures Words(w) == [w]
  {
    forall i | 0 <= i < |w| ensures !IsSpace(w[i]) {
      Separators(w[i]);
    }
    WordsOfWord(w, "");
    assert w + "" == w;
  }

  function Joined(words: seq<string>): string {
    if words == [] then "" else words[0] + " " + Joined(words[1..])
  }

  /** Printing words with spaces and splitting again gives the words back. */
  lemma {:induction false} WordsOfJoined(words: seq<string>)
    requires forall i :: 0 <= i < |words| ==> IsWord(words[i])
    ensures Words(Joined(words)) == words
  {
    if words != [] {
      var w, rest := words[0], Joined(words[1..]);
      WordsOfJoined(words[1..]);
      WordsSplit(w, ' ', rest);
      WordsOfWord(w, "");
      assert w + "" == w;
    }
  }

  // ---- First pass ---------------------------------------------------------------

  /** What the first pass has written, and its two flags, after reading a prefix of the line. */
  datatype Scan = Scan(out: seq<char>, skipping: bool, argc: nat)

  function FirstPass(s: string): (r: Scan)
    ensures |r.out| <= |s|
  {
    if s == "" then Scan([], true, 0)
    else
      var p := FirstPass(s[..|s| - 1]);
      var c := s[|s| - 1];
      if IsSpace(c) then
        if p.skipping then p else Scan(p.out + ['\0'], true, p.argc)
      else
        Scan(p.out + [c], false, if p.skipping then p.argc + 1 else p.argc)
  }

  lemma {:induction false} PackedConcat(a: seq<string>, b: seq<string>)
    ensures Packed(a + b) == Packed(a) + Packed(b)
  {
    if a == [] {
      assert a + b == b;
    } else {
      assert (a + b)[1..] == a[1..] + b && (a + b)[0] == a[0];
      PackedConcat(a[1..], b);
    }
  }

  lemma PackedSnoc(words: seq<string>, w: string)
    ensures Packed(words + [w]) == Packed(words) + w + ['\0']
  {
    PackedConcat(words, [w]);
    assert Packed([w]) == w + ['\0'] + Packed([]) == w + ['\0'];
    assert Packed(words) + (w + ['\0']) == Packed(words) + w + ['\0'];
  }

  lemma DropLast(a: seq<char>, b: seq<char>, c: char)
    requires a + [c] == b + [c]
    ensures a == b
  {
    assert a == (a + [c])[..|a|] && b == (b + [c])[..|b|];
  }

  /** The last word of a text that does not end in a space, and what precedes it. */
  lemma {:induction false} LastWord(s: string) returns (before: string, w: string)
    requires !EndsInSpace(s)
    ensures s == before + w && IsWord(w) && EndsInSpace(before)
    ensures Words(s) == Words(before) + [w]
  {
    hide Words;
    var init, c := s[..|s| - 1], s[|s| - 1];
    assert s == init + [c];
    if EndsInSpace(init) {
      before, w := init, [c];
    } else {
      var b, v := LastWord(init);
      Regroup(b, v, c);
      before, w := b, v + [c];
    }
    WordsAfterSpace(before, w);
  }

  lemma WordsAfterSpace(before: string, w: string)
    requires EndsInSpace(before) && IsWord(w)
    ensures Words(before + w) == Words(before) + [w]
  {
    WordsOfWord(w, "");
    assert w + "" == w;
    if before == "" {
      assert before + w == w;
    } else {
      var a, c := before[..|before| - 1], before[|before| - 1];
      assert before + w == a + [c] + w && before == a + [c] + "";
      WordsSplit(a, c, w);
      WordsSplit(a, c, "");
    }
  }

  lemma OpenWord(s: string) returns (before: string, w: string)
    requires !EndsInSpace(s) && FirstPass(s).out + ['\0'] == Packed(Words(s))
    ensures s == before + w && IsWord(w) && EndsInSpace(before)
    ensures Words(s) == Words(before) + [w] && FirstPass(s).out == Packed(Words(before)) + w
  {
    before, w := LastWord(s);
    PackedConcat(Words(before), [w]);
    assert Packed([w]) == w + ['\0'];
    var p := Packed(Words(before));
    assert Packed(Words(s)) == (p + w) + ['\0'];
    DropLast(FirstPass(s).out, p + w, '\0');
  }

  lemma OpenWordGrows(init: string, c: char)
    requires !EndsInSpace(init) && FirstPass(init).out + ['\0'] == Packed(Words(init)) && !IsSpace(c)
    ensures |Words(init + [c])| == |Words(init)|
    ensures FirstPass(init).out + [c] + ['\0'] == Packed(Words(init + [c]))
  {
    var before, w := OpenWord(init);
    Regroup(before, w, c);
    WordsAfterSpace(before, w + [c]);
    PackedSnoc(Words(before), w + [c]);
    Regroup(Packed(Words(before)), w, c);
  }

  lemma Regroup(p: seq<char>, w: string, c: char)
    ensures (p + w) + [c] == p + (w + [c])
  {}

  /** The first pass packs every word that a space has closed; an open last word has no terminator. */
  lemma {:induction false} FirstPassPacks(s: string)
    ensures FirstPass(s).argc == |Words(s)| && FirstPass(s).skipping == EndsInSpace(s)
    ensures EndsInSpace(s) ==> FirstPass(s).out == Packed(Words(s))
    ensures !EndsInSpace(s) ==> FirstPass(s).out + ['\0'] == Packed(Words(s))
  {
    if s != "" {
      var init, c := s[..|s| - 1], s[|s| - 1];
      FirstPassPacks(init);
      assert s == init + [c] && s == init + [c] + "";
      if IsSpace(c) {
        WordsSplit(init, c, "");
        assert Words(s) == Words(init);
      } else if EndsInSpace(init) {
        WordsAfterSpace(init, [c]);
        PackedConcat(Words(init), [[c]]);
        assert Packed([[c]]) == [c, '\0'];
      } else {
        OpenWordGrows(init, c);
      }
    }
  }

  // ---- Second pass --------------------------------------------------------------

  /** The C string at the front of a block; `None` reads past the end of the block. */
  function TakeString(buf: seq<char>): (r: Option<string>)
    ensures r.Some? ==> |r.value| < |buf| && r.value == buf[..|r.value|] && buf[|r.value|] == '\0' && NulFree(r.value)
    ensures r.None? ==> NulFree(buf)
  {
    if NulFree(buf) then None else Some(CString(buf))
  }

  function SecondPass(buf: seq<char>, argc: nat): Option<seq<string>> {
    if argc == 0 then Some([])
    else
      var s := TakeString(buf);
      if s.None? then None
      else
        var rest := SecondPass(buf[|s.value| + 1..], argc - 1);
        if rest.None? then None else Some([s.value] + rest.value)
  }

  lemma TakeStringAt(w: string, rest: seq<char>)
    requires NulFree(w)
    ensures TakeString(w + ['\0'] + rest) == Some(w)
  {
    var buf := w + ['\0'] + rest;
    assert buf[|w|] == '\0' && buf == w + (['\0'] + rest);
    CStringOf(w, ['\0'] + rest);
    assert w + "" == w;
  }

  lemma {:induction false} SecondPassUnpacks(words: seq<string>, rest: seq<char>)
    requires forall i :: 0 <= i < |words| ==> NulFree(words[i])
    ensures SecondPass(Packed(words) + rest, |words|) == Some(words)
  {
    if words != [] {
      var w, more := words[0], Packed(words[1..]) + rest;
      assert Packed(words) + rest == w + ['\0'] + more;
      TakeStringAt(w, more);
      assert (Packed(words) + rest)[|w| + 1..] == more;
      SecondPassUnpacks(words[1..], rest);
      assert [w] + words[1..] == words;
    }
  }

  /** Without a terminator behind its last word the buffer is read past its end. */
  lemma {:induction false} SecondPassOverruns(words: seq<string>, tail: seq<char>)
    requires forall i :: 0 <= i < |words| ==> NulFree(words[i])
    requires NulFree(tail)
    ensures SecondPass(Packed(words) + tail, |words| + 1) == None
  {
    if words == [] {
      assert Packed(words) + tail == tail;
    } else {
      var w, more := words[0], Packed(words[1..]) + tail;
      assert Packed(words) + tail == w + ['\0'] + more;
      TakeStringAt(w, more);
      assert (Packed(words) + tail)[|w| + 1..] == more;
      SecondPassOverruns(words[1..], tail);
    }
  }

  /** The bytes of the heap buffer that the first pass leaves as malloc gave them. */
  ghost predicate IsFill(line: string, fill: seq<char>) {
    |fill| == |line| + 1 - |FirstPass(line).out|
  }

  ghost predicate ParsesRight(line: string, fill: seq<char>) {
    SecondPass(FirstPass(line).out + fill, FirstPass(line).argc) == Some(Words(line))
  }

  /**
    The tokenizer is right for every content of fresh heap memory exactly on lines that end in a
    space. On any other line some content makes it read past the end of its buffer.
   */
  lemma ParsesRightIff(line: string)
    requires NulFree(line)
    ensures (forall fill :: IsFill(line, fill) ==> ParsesRight(line, fill)) <==> EndsInSpace(line)
  {
    hide Words, Packed, FirstPass, SecondPass;
    WordsAreWords(line);
    FirstPassPacks(line);
    if EndsInSpace(line) {
      forall fill | IsFill(line, fill) ensures ParsesRight(line, fill) {
        SecondPassUnpacks(Words(line), fill);
      }
    } else {
      var before, w := OpenWord(line);
      assert NulFree(before) by {
        assert forall i :: 0 <= i < |before| ==> before[i] == line[i];
      }
      assert NulFree(w) by {
        assert forall i :: 0 <= i < |w| ==> w[i] == line[|before| + i];
      }
      WordsAreWords(before);
      var fill := seq(|line| + 1 - |FirstPass(line).out|, _ => 'x');
      assert FirstPass(line).out + fill == Packed(Words(before)) + (w + fill);
      SecondPassOverruns(Words(before), w + fill);
      assert IsFill(line, fill) && !ParsesRight(line, fill);
    }
  }

  // ---- The tokenizer itself -----------------------------------------------------

  /** Bytes that a list of arguments holds: the pointer array and the strings with terminators. */
  function ArgBytes(argv: seq<string>): int {
    |argv| * POINTER_SIZE + |Packed(argv)|
  }

  /** Each argument costs a pointer of eight bytes, its characters and a terminator. */
  lemma ArgBytesNext(argv: seq<string>, w: string)
    ensures ArgBytes([]) == 0 && ArgBytes(argv + [w]) == ArgBytes(argv) + 8 + |w| + 1
  {
    PackedSnoc(argv, w);
  }

  method Pack(line: string, buf: array<char>) returns (argc: nat)
    requires buf.Length == |line| + 1
    modifies buf
    ensures argc == FirstPass(line).argc
    ensures FirstPass(line).out <= buf[..]
  {
    var src, dst, skipping := 0, 0, true;
    argc := 0;
    while src < |line|
      invariant dst <= src <= |line|
      invariant FirstPass(line[..src]) == Scan(buf[..dst], skipping, argc)
    {
      var c := line[src];
      assert line[..src + 1][..src] == line[..src];
      src := src + 1;
      if IsSpace(c) {
        if !skipping {
          buf[dst] := '\0';
          dst := dst + 1;
          skipping := true;
        }
      } else {
        if skipping {
          argc := argc + 1;
          skipping := false;
        }
        buf[dst] := c;
        dst := dst + 1;
      }
    }
    assert line[..src] == line;
  }

  /** Relies on its caller for the final space that closes the last word. */
  method ParseArgs(mem: Memory, line: string) returns (argv: seq<string>)
    requires mem.Valid() && NulFree(line) && EndsInSpace(line)
    modifies mem
    ensures mem.Valid() && argv == Words(line)
    ensures mem.currentBytes == old(mem.currentBytes) + ArgBytes(argv)
  {
    mem.MallocOrFail(|line| + 1);
    var buf := new char[|line| + 1];
    var argc := Pack(line, buf);
    assert SecondPass(buf[..], argc) == Some(Words(line)) by {
      PackedRight(line, buf[..]);
    }
    mem.CallocOrFail(argc, POINTER_SIZE);
    argv := Unpack(mem, buf, argc, Words(line));
    FirstPassPacks(line);
    mem.FreeBlock(|line| + 1);
  }

  lemma PackedRight(line: string, buf: seq<char>)
    requires NulFree(line) && EndsInSpace(line) && |buf| == |line| + 1 && FirstPass(line).out <= buf
    ensures SecondPass(buf, FirstPass(line).argc) == Some(Words(line))
  {
    var fill := buf[|FirstPass(line).out|..];
    assert buf == FirstPass(line).out + fill;
    ParsesRightIff(line);
    assert IsFill(line, fill);
  }

  lemma UnpackStep(buf: seq<char>, src: nat, words: seq<string>, i: nat)
    requires i < |words| && src <= |buf| && SecondPass(buf[src..], |words| - i) == Some(words[i..])
    ensures !NulFree(buf[src..]) && CString(buf[src..]) == words[i] && src + |words[i]| + 1 <= |buf|
    ensures SecondPass(buf[src + |words[i]| + 1..], |words| - i - 1) == Some(words[i + 1..])
  {
    assert words[i..][0] == words[i] && words[i..][1..] == words[i + 1..];
    assert buf[src..][|words[i]| + 1..] == buf[src + |words[i]| + 1..];
  }

  method Unpack(mem: Memory, buf: array<char>, argc: nat, ghost words: seq<string>) returns (argv: seq<string>)
    requires mem.Valid() && SecondPass(buf[..], argc) == Some(words)
    modifies mem
    ensures mem.Valid() && argv == words && argc == |words|
    ensures mem.currentBytes == old(mem.currentBytes) + |Packed(argv)|
  {
    hide SecondPass, TakeString, CString;
    SecondPassCount(buf[..], argc);
    ghost var b := buf[..];
    var src: nat, i: nat := 0, 0;
    argv := [];
    while i < argc
      invariant i <= argc == |words| && src <= buf.Length && argv == words[..i]
      invariant buf[..] == b && SecondPass(b[src..], argc - i) == Some(words[i..])
      invariant mem.Valid() && mem.currentBytes == old(mem.currentBytes) + |Packed(argv)|
    {
      UnpackStep(b, src, words, i);
      assert b[src..] == buf[src..];
      var n := StrLen(buf, src);
      var copy := mem.StrsaveOrFail(buf[src..src + n]);
      PackedSnoc(argv, copy);
      argv := argv + [copy];
      src := src + n + 1;
      i := i + 1;
    }
  }

  lemma {:induction false} SecondPassCount(buf: seq<char>, argc: nat)
    requires SecondPass(buf, argc).Some?
    ensures |SecondPass(buf, argc).value| == argc
    decreases argc
  {
    if argc > 0 {
      SecondPassCount(buf[|TakeString(buf).value| + 1..], argc - 1);
    }
  }
}
