/**
  How console.c cuts a text into lines: at each newline, and also after 8190 bytes without one.
  A line that was cut short, by the limit or by the end of the text, gets a newline of its own.
 */
module Lines {
  const RIO_BUFSIZE := 8192
  const LINE_LIMIT := RIO_BUFSIZE - 2

  /** Bytes of `text` that the next line consumes when at most `limit` may be consumed. */
  function LineBytes(text: string, limit: nat): (n: nat)
    ensures n <= |text| && n <= limit
    ensures text != "" && limit > 0 ==> n > 0
    ensures forall i :: 0 <= i < n - 1 ==> text[i] != '\n'
    ensures n < |text| && n < limit ==> n > 0 && text[n - 1] == '\n'
  {
    if text == "" || limit == 0 then 0
    else if text[0] == '\n' then 1
    else 1 + LineBytes(text[1..], limit - 1)
  }

  function FirstLine(text: string): string {
    var t := text[..LineBytes(text, LINE_LIMIT)];
    if t != "" && t[|t| - 1] == '\n' then t else t + "\n"
  }

  function AfterLine(text: string): string {
    text[LineBytes(text, LINE_LIMIT)..]
  }

  /** Reading the next line runs into the end of the text. */
  predicate EndsHere(text: string) { |text| < LINE_LIMIT && '\n' !in text }

  lemma EndsHereIff(text: string)
    ensures var n := LineBytes(text, LINE_LIMIT);
            EndsHere(text) <==> n < LINE_LIMIT && (n == 0 || text[n - 1] != '\n')
    ensures EndsHere(text) ==> AfterLine(text) == ""
  {}

  function Cut(text: string): seq<string>
    decreases |text|
  {
    if text == "" then [] else [FirstLine(text)] + Cut(AfterLine(text))
  }

  function Concat(lines: seq<string>): string {
    if lines == [] then "" else lines[0] + Concat(lines[1..])
  }

  /** Every line ends in its only newline and fits the line buffer with its terminator. */
  lemma {:induction false} CutShape(text: string)
    ensures forall i :: 0 <= i < |Cut(text)| ==>
              var l := Cut(text)[i];
              0 < |l| < 8192 && l[|l| - 1] == '\n' && '\n' !in l[..|l| - 1]
    decreases |text|
  {
    if text != "" {
      CutShape(AfterLine(text));
    }
  }

  /** A text of short lines, the last one ended by its newline. */
  ghost predicate Tidy(text: string)
    decreases |text|
  {
    text == "" || (text[LineBytes(text, LINE_LIMIT) - 1] == '\n' && Tidy(AfterLine(text)))
  }

  lemma {:induction false} CutLosesNothing(text: string)
    ensures |Concat(Cut(text))| >= |text|
    decreases |text|
  {
    if text != "" {
      CutLosesNothing(AfterLine(text));
    }
  }

  /** A line without an added newline is given back as it was. */
  lemma PrefixBack(a: string, b: string, c: string)
    ensures a + b == a + c <==> b == c
  {
    if a + b == a + c {
      assert b == (a + b)[|a|..] == (a + c)[|a|..] == c;
    }
  }

  /** The lines put together are the text again exactly when the text is tidy. */
  lemma {:induction false} CutIsLosslessIff(text: string)
    ensures Concat(Cut(text)) == text <==> Tidy(text)
    decreases |text|
  {
    hide LineBytes, Concat, Cut;
    if text == "" {
      NothingCut();
    } else {
      var rest := AfterLine(text);
      var n := LineBytes(text, LINE_LIMIT);
      CutIsLosslessIff(rest);
      CutLosesNothing(rest);
      ConcatCut(text);
      assert text == text[..n] + rest;
      if text[n - 1] == '\n' {
        PrefixBack(text[..n], Concat(Cut(rest)), rest);
      } else {
        assert |Concat(Cut(text))| > |text|;
      }
    }
  }

  lemma NothingCut()
    ensures Cut("") == [] && Concat(Cut("")) == ""
  {}

  lemma ConcatCut(text: string)
    requires text != ""
    ensures Concat(Cut(text)) == FirstLine(text) + Concat(Cut(AfterLine(text)))
  {
    assert Cut(text)[1..] == Cut(AfterLine(text));
  }

  /** A complete line at the front of a text is cut off as it stands. */
  lemma {:induction false} LineBytesOfLine(line: string, rest: string, limit: nat)
    requires '\n' !in line && |line| < limit
    ensures LineBytes(line + "\n" + rest, limit) == |line| + 1
  {
    var t := line + "\n" + rest;
    if line != "" {
      assert t[0] == line[0] && t[1..] == line[1..] + "\n" + rest;
      LineBytesOfLine(line[1..], rest, limit - 1);
    }
  }

  lemma {:induction false} LineBytesOfLast(line: string, limit: nat)
    requires '\n' !in line && |line| <= limit
    ensures LineBytes(line, limit) == |line|
  {
    if line != "" {
      LineBytesOfLast(line[1..], limit - 1);
    }
  }

  /** The last line of a text gets the newline that it lacks, and is otherwise kept. */
  lemma CutLast(line: string)
    requires line != "" && '\n' !in line && |line| < 8190
    ensures Cut(line) == [line + "\n"] && EndsHere(line)
  {
    LineBytesOfLast(line, LINE_LIMIT);
    assert line[..|line|] == line && line[|line|..] == "";
  }

  lemma LongLine(text: string)
    requires |text| >= 8190 && '\n' !in text[..8190]
    ensures Cut(text) == [text[..8190] + "\n"] + Cut(text[8190..]) && !EndsHere(text)
  {
    var n := LineBytes(text, LINE_LIMIT);
    assert forall i :: 0 <= i < LINE_LIMIT ==> text[..LINE_LIMIT][i] == text[i];
    assert n == LINE_LIMIT;
  }

  lemma CutLine(line: string, rest: string)
    requires '\n' !in line && |line| < 8190
    ensures Cut(line + "\n" + rest) == [line + "\n"] + Cut(rest) && !EndsHere(line + "\n" + rest)
  {
    var t := line + "\n" + rest;
    LineBytesOfLine(line, rest, LINE_LIMIT);
    assert t[..|line| + 1] == line + "\n" && t[|line| + 1..] == rest;
  }
}
