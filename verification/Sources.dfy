/**
  The meaning of nested `source` commands: each one is replaced, at its point of use, by the lines
  of the file it names. `rank` witnesses that no file sources itself, directly or through others.
 */
module Sources {
  import opened CStrings
  import opened Wrappers
  import opened Lines
  import opened Tokenizers

  datatype Library = Library(files: map<string, string>, rank: map<string, nat>)

  /** The `time` command runs the rest of its line. */
  function StripTime(argv: seq<string>): seq<string> {
    if |argv| > 1 && argv[0] == "time" then StripTime(argv[1..]) else argv
  }

  /** The file that an executed line opens. */
  function Sourced(argv: seq<string>): Option<string> {
    var a := StripTime(argv);
    if |a| > 1 && a[0] == "source" then Some(a[1]) else None
  }

  function Opened(lib: Library, line: string): Option<string> {
    match Sourced(Words(line))
    case Some(f) => if f in lib.files then Some(f) else None
    case None => None
  }

  ghost predicate Acyclic(lib: Library) {
    forall f, i :: f in lib.files && 0 <= i < |Cut(lib.files[f])| ==>
      LineRank(lib, Cut(lib.files[f])[i]) <= RankOf(lib, f)
  }

  function RankOf(lib: Library, f: string): nat {
    if f in lib.rank then lib.rank[f] else 0
  }

  /** One more than the rank of the file that a line opens, and 0 when it opens none. */
  function LineRank(lib: Library, line: string): nat {
    match Opened(lib, line)
    case Some(g) => RankOf(lib, g) + 1
    case None => 0
  }

  function Height(lib: Library, lines: seq<string>): nat {
    if lines == [] then 0
    else
      var h, t := LineRank(lib, lines[0]), Height(lib, lines[1..]);
      if h < t then t else h
  }

  lemma {:induction false} HeightBound(lib: Library, lines: seq<string>, bound: nat)
    requires forall i :: 0 <= i < |lines| ==> LineRank(lib, lines[i]) <= bound
    ensures Height(lib, lines) <= bound
  {
    if lines != [] {
      HeightBound(lib, lines[1..], bound);
    }
  }

  /** Lines with every executed `source` inlined after its own line. */
  ghost function Expand(lib: Library, lines: seq<string>): seq<string>
    requires Acyclic(lib)
    decreases Height(lib, lines), |lines|
  {
    if lines == [] then []
    else
      var inlined :=
        match Opened(lib, lines[0])
        case Some(g) =>
          (HeightBound(lib, Cut(lib.files[g]), RankOf(lib, g));
           Expand(lib, Cut(lib.files[g])))
        case None => [];
      [lines[0]] + inlined + Expand(lib, lines[1..])
  }

  /** What a stack of pending texts still has to contribute. */
  ghost function ExpandAll(lib: Library, texts: seq<string>): seq<string>
    requires Acyclic(lib)
  {
    if texts == [] then [] else Expand(lib, Cut(texts[0])) + ExpandAll(lib, texts[1..])
  }

  /** Executing a line pushes the text of the file that it opens. */
  function AfterCommand(lib: Library, argv: seq<string>, texts: seq<string>): seq<string> {
    match Sourced(argv)
    case Some(f) => if f in lib.files then [lib.files[f]] + texts else texts
    case None => texts
  }

  lemma AfterOther(lib: Library, argv: seq<string>, texts: seq<string>)
    requires argv == [] || argv[0] !in {"time", "source"}
    ensures AfterCommand(lib, argv, texts) == texts
  {}

  lemma AfterDispatch(lib: Library, argv: seq<string>, texts: seq<string>)
    requires argv != []
    ensures AfterCommand(lib, argv, texts) ==
            if argv[0] == "time" && |argv| > 1 then AfterCommand(lib, argv[1..], texts)
            else if argv[0] == "source" && |argv| > 1 && argv[1] in lib.files then [lib.files[argv[1]]] + texts
            else texts
  {}

  /** A text that has come to its end contributes nothing, popped or not. */
  lemma ExpandEmpty(lib: Library, texts: seq<string>)
    requires Acyclic(lib)
    ensures ExpandAll(lib, [""] + texts) == ExpandAll(lib, texts)
  {
    assert ([""] + texts)[1..] == texts;
    assert Cut("") == [];
  }

  /** Reading one line and executing it keeps the expansion of the stack, less that line. */
  lemma ExpandStep(lib: Library, p: string, texts: seq<string>)
    requires Acyclic(lib) && p != ""
    ensures ExpandAll(lib, [p] + texts)
            == [FirstLine(p)] + ExpandAll(lib, AfterCommand(lib, Words(FirstLine(p)), [AfterLine(p)] + texts))
  {
    var line, after := FirstLine(p), [AfterLine(p)] + texts;
    assert ([p] + texts)[1..] == texts && after[1..] == texts;
    assert Cut(p) == [line] + Cut(AfterLine(p));
    assert Cut(p)[1..] == Cut(AfterLine(p));
    match Opened(lib, line)
    case Some(g) =>
      assert ([lib.files[g]] + after)[1..] == after;
      Regroup4([line], Expand(lib, Cut(lib.files[g])), Expand(lib, Cut(AfterLine(p))), ExpandAll(lib, texts));
    case None =>
      assert [line] + [] == [line];
      Regroup4([line], [], Expand(lib, Cut(AfterLine(p))), ExpandAll(lib, texts));
  }

  lemma Regroup4(a: seq<string>, b: seq<string>, c: seq<string>, d: seq<string>)
    ensures (a + b + c) + d == a + (b + (c + d))
    ensures b == [] ==> b + (c + d) == c + d
  {}

  /** Without executing it, reading a line only shortens the expansion. */
  lemma ExpandSkip(lib: Library, p: string, texts: seq<string>)
    requires Acyclic(lib) && p != ""
    ensures |ExpandAll(lib, [AfterLine(p)] + texts)| < |ExpandAll(lib, [p] + texts)|
  {
    var after := [AfterLine(p)] + texts;
    assert ([p] + texts)[1..] == texts && after[1..] == texts;
    assert Cut(p)[1..] == Cut(AfterLine(p)) && Cut(p)[0] == FirstLine(p);
  }

  ghost predicate AllNulFree(texts: seq<string>) {
    forall i :: 0 <= i < |texts| ==> NulFree(texts[i])
  }

  ghost predicate FilesNulFree(lib: Library) {
    forall f :: f in lib.files ==> NulFree(lib.files[f])
  }

  /** The stack after readline(): a text is popped when the reading runs into its end. */
  function AfterReading(texts: seq<string>): seq<string> {
    if texts == [] then []
    else (if EndsHere(texts[0]) then [] else [AfterLine(texts[0])]) + texts[1..]
  }

  lemma AfterReadingOf(texts: seq<string>)
    requires texts != []
    ensures var kept := [AfterLine(texts[0])] + texts[1..];
            kept[1..] == texts[1..] && AfterReading(texts) == if EndsHere(texts[0]) then kept[1..] else kept
  {}

  lemma ReadingAtEnd(texts: seq<string>)
    requires texts == [] || texts[0] == ""
    ensures AfterReading(texts) == if texts == [] then [] else texts[1..]
  {}

  ghost predicate LineRead(texts: seq<string>, after: seq<string>) {
    texts != [] && texts[0] != "" && after == AfterReading(texts)
  }

  /** Reading one line and executing it, whether or not the reader was popped on the way. */
  lemma ReadAndExecute(lib: Library, texts: seq<string>, after: seq<string>)
    requires Acyclic(lib) && LineRead(texts, after)
    ensures ExpandAll(lib, texts)
            == [FirstLine(texts[0])] + ExpandAll(lib, AfterCommand(lib, Words(FirstLine(texts[0])), after))
    ensures |ExpandAll(lib, after)| < |ExpandAll(lib, texts)|
  {
    hide EndsHere, ExpandAll, AfterCommand, AfterLine, FirstLine, Words;
    var p, ts := texts[0], texts[1..];
    assert texts == [p] + ts;
    ExpandStep(lib, p, ts);
    ExpandSkip(lib, p, ts);
    EndsHereIff(p);
    if EndsHere(p) {
      assert after == ts;
      PopIsInvisible(lib, Words(FirstLine(p)), ts);
      ExpandEmpty(lib, ts);
    }
  }

  lemma PopIsInvisible(lib: Library, argv: seq<string>, texts: seq<string>)
    requires Acyclic(lib)
    ensures ExpandAll(lib, AfterCommand(lib, argv, [""] + texts)) == ExpandAll(lib, AfterCommand(lib, argv, texts))
  {
    hide Expand, Cut;
    ExpandEmpty(lib, texts);
    match Sourced(argv)
    case Some(f) =>
      if f in lib.files {
        assert ([lib.files[f]] + texts)[1..] == texts;
        assert ([lib.files[f]] + ([""] + texts))[1..] == [""] + texts;
      }
    case None =>
  }

  lemma ReadNulFree(lib: Library, texts: seq<string>, after: seq<string>)
    requires FilesNulFree(lib) && AllNulFree(texts) && LineRead(texts, after)
    ensures AllNulFree(after) && NulFree(FirstLine(texts[0])) && EndsInSpace(FirstLine(texts[0]))
    ensures AllNulFree(AfterCommand(lib, Words(FirstLine(texts[0])), after))
  {
    assert NulFree(texts[0]);
    assert forall i :: 0 < i < |texts| ==> NulFree(texts[i]) && texts[1..][i - 1] == texts[i];
  }

  /** Texts without executed `source` commands expand to their own lines. */
  lemma {:induction false} ExpandPlain(lib: Library, lines: seq<string>)
    requires Acyclic(lib) && forall i :: 0 <= i < |lines| ==> Opened(lib, lines[i]) == None
    ensures Expand(lib, lines) == lines
  {
    if lines != [] {
      ExpandPlain(lib, lines[1..]);
    }
  }

  /** A line opens a file only if its first word is `source`, or `time` in front of that. */
  lemma OpensNothing(lib: Library, line: string)
    requires Words(line) == [] || Words(line)[0] !in {"source", "time"}
    ensures Opened(lib, line) == None
  {}

  lemma WordInFront(w: string, rest: string)
    requires IsWord(w)
    ensures Words(w + (" " + rest)) == [w] + Words(rest)
  {
    WordsOfWord(w, " " + rest);
    assert (" " + rest)[1..] == rest;
  }

  lemma LastWordOfLine(w: string)
    requires IsWord(w)
    ensures Words(w + "\n") == [w]
  {
    WordsOfWord(w, "\n");
    assert Words("\n") == [];
  }

  lemma CommandWords()
    ensures IsWord("source") && IsWord("time")
  {}

  lemma Glue(f: string)
    ensures "source " + f + "\n" == "source" + (" " + (f + "\n"))
    ensures "time source " + f + "\n" == "time" + (" " + ("source" + (" " + (f + "\n"))))
  {
    assert "source " == "source" + " " && "time source " == "time" + (" " + ("source" + " "));
  }

  lemma SourceWords(f: string)
    requires IsWord(f)
    ensures Words("source " + f + "\n") == ["source", f]
    ensures Words("time source " + f + "\n") == ["time", "source", f]
  {
    hide Words, IsWord;
    CommandWords();
    Glue(f);
    LastWordOfLine(f);
    WordInFront("source", f + "\n");
    WordInFront("time", "source" + (" " + (f + "\n")));
  }

  /** Sourcing a file stands for its lines, behind the line that names it; a file that is not there adds none. */
  lemma ExpandSource(lib: Library, f: string, rest: seq<string>)
    requires Acyclic(lib) && IsWord(f)
    ensures var line := "source " + f + "\n";
            Expand(lib, [line] + rest)
            == [line] + (if f in lib.files then Expand(lib, Cut(lib.files[f])) else []) + Expand(lib, rest)
    ensures var line := "time source " + f + "\n";
            Expand(lib, [line] + rest)
            == [line] + (if f in lib.files then Expand(lib, Cut(lib.files[f])) else []) + Expand(lib, rest)
  {
    hide Words;
    SourceWords(f);
    var line, timed := "source " + f + "\n", "time source " + f + "\n";
    assert ([line] + rest)[1..] == rest && ([timed] + rest)[1..] == rest;
    assert Sourced(["source", f]) == Some(f);
    assert ["time", "source", f][1..] == ["source", f];
    assert Sourced(["time", "source", f]) == Some(f);
  }

  lemma {:induction false} ExpandConcat(lib: Library, a: seq<string>, b: seq<string>)
    requires Acyclic(lib)
    ensures Expand(lib, a + b) == Expand(lib, a) + Expand(lib, b)
  {
    if a == [] {
      assert a + b == b;
    } else {
      assert (a + b)[1..] == a[1..] + b && (a + b)[0] == a[0];
      ExpandConcat(lib, a[1..], b);
      match Opened(lib, a[0])
      case Some(g) => Regroup4([a[0]], Expand(lib, Cut(lib.files[g])), Expand(lib, a[1..]), Expand(lib, b));
      case None => Regroup4([a[0]], [], Expand(lib, a[1..]), Expand(lib, b));
    }
  }

  /**
    A run on its course: the lines taken up so far, followed by what the stack still expands to, are
    the whole inlined text; once the run has ended they are a prefix of it.
   */
  ghost predicate Course(lib: Library, texts: seq<string>, handed: seq<string>,
                         quit: bool, freed: bool, goal: seq<string>)
    requires Acyclic(lib)
  {
    && FilesNulFree(lib) && AllNulFree(texts)
    && (freed ==> texts == [] && quit)
    && if quit then handed <= goal else handed + ExpandAll(lib, texts) == goal
  }

  lemma CourseStart(lib: Library, text: string)
    requires Acyclic(lib) && FilesNulFree(lib) && NulFree(text)
    ensures Course(lib, [text], [], false, false, Expand(lib, Cut(text)))
  {
    var goal := Expand(lib, Cut(text));
    assert [text][1..] == [];
    assert goal + [] == goal && [] + goal == goal;
  }

  /** Taking up one line keeps the course, wherever the command leaves the flags. */
  lemma CourseStep(lib: Library, texts: seq<string>, after: seq<string>, end: seq<string>,
                   handed: seq<string>, quit: bool, freed: bool, goal: seq<string>)
    requires Acyclic(lib) && Course(lib, texts, handed, false, false, goal) && LineRead(texts, after)
    requires if freed then end == [] && quit else end == AfterCommand(lib, Words(FirstLine(texts[0])), after)
    ensures Course(lib, end, handed + [FirstLine(texts[0])], quit, freed, goal)
    ensures |ExpandAll(lib, end)| < |ExpandAll(lib, texts)|
  {
    ReadAndExecute(lib, texts, after);
    ReadNulFree(lib, texts, after);
    TakeLine(handed, FirstLine(texts[0]), ExpandAll(lib, AfterCommand(lib, Words(FirstLine(texts[0])), after)), goal);
  }

  lemma TakeLine(handed: seq<string>, line: string, more: seq<string>, goal: seq<string>)
    requires handed + ([line] + more) == goal
    ensures (handed + [line]) + more == goal && handed + [line] <= goal
  {}

  /** A run that has ended keeps reading the lines in its buffers without taking them up. */
  lemma CourseIgnored(lib: Library, texts: seq<string>, after: seq<string>, handed: seq<string>, goal: seq<string>)
    requires Acyclic(lib) && Course(lib, texts, handed, true, false, goal) && LineRead(texts, after)
    ensures Course(lib, after, handed, true, false, goal)
    ensures |ExpandAll(lib, after)| < |ExpandAll(lib, texts)|
  {
    ReadAndExecute(lib, texts, after);
    ReadNulFree(lib, texts, after);
  }

  /** The end of a file leaves the course as it is. */
  lemma CourseAtEnd(lib: Library, texts: seq<string>, handed: seq<string>, quit: bool, freed: bool, goal: seq<string>)
    requires Acyclic(lib) && Course(lib, texts, handed, quit, freed, goal) && texts != [] && texts[0] == ""
    ensures Course(lib, texts[1..], handed, quit, freed, goal)
    ensures ExpandAll(lib, texts[1..]) == ExpandAll(lib, texts)
  {
    assert texts == [""] + texts[1..];
    ExpandEmpty(lib, texts[1..]);
  }

  lemma CourseEnd(lib: Library, texts: seq<string>, handed: seq<string>, quit: bool, freed: bool, goal: seq<string>)
    requires Acyclic(lib) && Course(lib, texts, handed, quit, freed, goal) && (texts == [] || quit)
    ensures handed <= goal && (!quit ==> handed == goal) && (freed ==> texts == [])
  {
    assert !quit ==> handed + [] == handed;
  }
}
