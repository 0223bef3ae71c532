/**
  The command loop of console.c: lines are read from the innermost file, split into words and
  executed; `source` stacks another file, `quit` or too many errors end the run.
 */
module Consoles {
  import opened CStrings
  import opened Wrappers
  import opened Memories
  import opened Tokenizers
  import opened Lines
  import opened Rios
  import opened Sources
  import opened Outcomes

  const RIO_SIZE := 8216
  const CMD_SIZE := 32
  const PARAM_SIZE := 40

  class Console {
    const mem: Memory
    const linebuf: array<char>
    ghost const lib: Library
    const files: map<string, string>  // what open() finds
    const cmdList: seq<string>
    const paramList: seq<string>
    const getInt: string -> Option<int>
    var bufStack: Rio?
    var quitFlag: bool
    var errCnt: int
    var errLimit: int

    ghost var handed: seq<string>  // the lines that interpret_cmd took up
    ghost var freed: bool          // do_quit_cmd has freed the command and parameter lists

    ghost function Stack(): set<object>
      reads this
    {
      if bufStack == null then {} else bufStack.Repr
    }

    ghost predicate StackValid()
      reads this, if bufStack == null then {} else bufStack.Repr
    {
      bufStack != null ==> bufStack.Valid()
    }

    ghost predicate Valid()
      reads this, mem, if bufStack == null then {} else bufStack.Repr
    {
      && mem.Valid() && linebuf.Length == RIO_BUFSIZE
      && this !in Stack() && mem !in Stack() && linebuf !in Stack()
      && StackValid()
      && lib.files == files && Acyclic(lib)
      && (freed ==> quitFlag)
    }

    ghost function Texts(): seq<string>
      requires StackValid()
      reads this, if bufStack == null then {} else bufStack.Repr
    {
      if bufStack == null then [] else bufStack.Texts()
    }

    function Known(): Commands { Commands(cmdList, paramList, getInt) }

    ghost function State(): Flags
      reads this
    {
      Flags(quitFlag, freed, errCnt, errLimit)
    }

    /** Bytes held by the command and parameter lists and by the readers on the stack. */
    ghost function Owned(): int
      requires StackValid()
      reads this, if bufStack == null then {} else bufStack.Repr
    {
      (if freed then 0 else |cmdList| * CMD_SIZE + |paramList| * PARAM_SIZE) + |Texts()| * RIO_SIZE
    }

    /** init_cmd and console_init: one block for each command and each parameter. */
    constructor (files: map<string, string>, ghost rank: map<string, nat>, cmds: seq<string>, params: seq<string>,
                 getInt: string -> Option<int>)
      requires Acyclic(Library(files, rank))
      ensures Valid() && Texts() == [] && mem.currentBytes == Owned() == 32 * |cmds| + 40 * |params|
      ensures State() == Flags(false, false, 0, 5) && handed == [] && lib == Library(files, rank)
      ensures fresh(mem) && fresh(linebuf)
    {
      mem := new Memory();
      linebuf := new char[RIO_BUFSIZE];
      this.files, cmdList, paramList := files, cmds, params;
      this.getInt := getInt;
      lib := Library(files, rank);
      bufStack := null;
      quitFlag, errCnt, errLimit := false, 0, 5;
      handed, freed := [], false;
      new;
      AllocateList(mem, |cmdList|, CMD_SIZE);
      AllocateList(mem, |paramList|, PARAM_SIZE);
    }

    static method AllocateList(mem: Memory, n: nat, size: nat)
      requires mem.Valid()
      modifies mem
      ensures mem.Valid() && mem.currentBytes == old(mem.currentBytes) + n * size
    {
      for i := 0 to n
        invariant mem.Valid() && mem.currentBytes == old(mem.currentBytes) + i * size
      {
        mem.MallocOrFail(size);
        assert (i + 1) * size == i * size + size;
      }
    }

    static method FreeList(mem: Memory, n: nat, size: nat)
      requires mem.Valid()
      modifies mem
      ensures mem.Valid() && mem.currentBytes == old(mem.currentBytes) - n * size
    {
      for i := 0 to n
        invariant mem.Valid() && mem.currentBytes == old(mem.currentBytes) - i * size
      {
        mem.FreeBlock(size);
        assert (i + 1) * size == i * size + size;
      }
    }

    /** Opens a file and stacks a reader for it; false when there is no such file. */
    method PushFile(fname: string) returns (ok: bool)
      requires Valid()
      modifies this`bufStack, mem
      ensures Valid() && ok == (fname in files)
      ensures Texts() == if ok then [files[fname]] + old(Texts()) else old(Texts())
      ensures mem.currentBytes == old(mem.currentBytes) + if ok then 8216 else 0
      ensures fresh(Stack() - old(Stack()))
      ensures mem.currentBytes - Owned() == old(mem.currentBytes - Owned())
    {
      hide Memory.Valid, Acyclic, Rio.Pending;
      if fname !in files {
        return false;
      }
      mem.MallocOrFail(RIO_SIZE);
      bufStack := new Rio(files[fname], bufStack);
      ok := true;
    }

    method PopFile()
      requires Valid()
      modifies this`bufStack, mem
      ensures Valid() && Stack() <= old(Stack())
      ensures Texts() == if old(Texts()) == [] then [] else old(Texts())[1..]
      ensures mem.currentBytes - Owned() == old(mem.currentBytes - Owned())
    {
      hide Memory.Valid, Acyclic, Rio.Pending;
      if bufStack != null {
        bufStack := bufStack.prev;
        mem.FreeBlock(RIO_SIZE);
      }
    }

    /** Frees both lists and every reader, and ends the run; a quit helper decides the result. */
    method DoQuit() returns (ok: bool)
      requires Valid() && !freed
      modifies this`bufStack, this`quitFlag, this`freed, mem
      ensures Valid() && quitFlag && freed && Texts() == []
      ensures Stack() == {}
      ensures mem.currentBytes - Owned() == old(mem.currentBytes - Owned())
    {
      hide Memory.Valid, Acyclic, Rio.Pending;
      FreeList(mem, |cmdList|, CMD_SIZE);
      FreeList(mem, |paramList|, PARAM_SIZE);
      freed, quitFlag := true, true;
      while bufStack != null
        invariant Valid() && freed && quitFlag && Stack() <= old(Stack())
        invariant mem.currentBytes - Owned() == old(mem.currentBytes - Owned())
        decreases |Texts()|
      {
        PopFile();
      }
      ok := *;
    }

    predicate KnowsBuiltins() {
      "source" in cmdList && "time" in cmdList
    }

    method RecordError()
      modifies this`errCnt, this`quitFlag
      ensures State() == Recorded(old(State()))
    {
      errCnt := errCnt + 1;
      if errCnt >= errLimit {
        quitFlag := true;
      }
    }

    method DoSource(argv: seq<string>) returns (ok: bool)
      requires Valid() && argv != []
      modifies this`bufStack, mem
      ensures Valid()
      ensures ok == (|argv| > 1 && argv[1] in files)
      ensures Texts() == if ok then [files[argv[1]]] + old(Texts()) else old(Texts())
      ensures fresh(Stack() - old(Stack()))
      ensures mem.currentBytes - Owned() == old(mem.currentBytes - Owned())
    {
      hide Memory.Valid, Acyclic, Rio.Pending;
      if |argv| < 2 {
        return false;
      }
      ok := PushFile(argv[1]);
    }

    /**
      Executes a split command. The commands of the application, and `option`, may succeed or fail
      and change the error limit, but touch neither the files nor the console's memory.
     */
    method InterpretCmda(argv: seq<string>) returns (ok: bool)
      requires Valid() && !freed && KnowsBuiltins()
      modifies this`bufStack, this`quitFlag, this`freed, this`errCnt, this`errLimit, mem
      ensures Valid() && Outcome(Known(), lib, argv, Errors(argv), old(State()), State(), ok)
      ensures Texts() == if freed then [] else AfterCommand(lib, argv, old(Texts()))
      ensures fresh(Stack() - old(Stack()))
      ensures mem.currentBytes - Owned() == old(mem.currentBytes - Owned())
      decreases |argv|, 1
    {
      hide Outcome, Errors, Memory.Valid, Acyclic, AfterCommand, Rio.Pending;
      ghost var before := State();
      if argv == [] {
        EmptyOutcome(Known(), lib, before);
        AfterOther(lib, argv, Texts());
        return true;
      }
      if argv[0] !in cmdList {
        UnknownOutcome(Known(), lib, argv, before);
        AfterOther(lib, argv, Texts());
        RecordError();
        return false;
      }
      ok := Dispatch(argv);
      RecordedOutcome(Known(), lib, argv, before, State(), ok);
      if !ok {
        RecordError();
      }
    }

    /** do_option_cmd: sets the pairs one after the other, up to the first that is not one. */
    method SetOptions(argv: seq<string>) returns (ok: bool)
      requires argv != []
      modifies this`errLimit
      ensures ok == OptionsOk(Known(), argv[1..])
      ensures errLimit == LimitAfter(Known(), argv[1..], old(errLimit))
    {
      ok := true;
      var i := 1;
      while i < |argv|
        invariant 1 <= i <= |argv|
        invariant OptionsOk(Known(), argv[i..]) == OptionsOk(Known(), argv[1..])
        invariant LimitAfter(Known(), argv[i..], errLimit) == LimitAfter(Known(), argv[1..], old(errLimit))
      {
        var name := argv[i];
        if i + 1 >= |argv| {
          return false;
        }
        var value := getInt(argv[i + 1]);
        assert argv[i..][1] == argv[i + 1] && argv[i..][2..] == argv[i + 2..];
        if value.None? {
          return false;
        }
        if name !in paramList {
          return false;
        }
        if name == "error" {
          errLimit := value.value;
        }
        i := i + 2;
      }
    }

    method OpenLog(argv: seq<string>) returns (ok: bool)
      ensures |argv| < 2 ==> !ok
    {
      if |argv| < 2 {
        return false;
      }
      ok := *;
    }

    /** Calls the operation of a known command. */
    method Dispatch(argv: seq<string>) returns (ok: bool)
      requires Valid() && !freed && argv != [] && argv[0] in cmdList && KnowsBuiltins()
      modifies this`bufStack, this`quitFlag, this`freed, this`errCnt, this`errLimit, mem
      ensures Valid() && Outcome(Known(), lib, argv, Errors(argv) - 1, old(State()), State(), ok)
      ensures Texts() == if freed then [] else AfterCommand(lib, argv, old(Texts()))
      ensures fresh(Stack() - old(Stack()))
      ensures mem.currentBytes - Owned() == old(mem.currentBytes - Owned())
      decreases |argv|, 0
    {
      hide Outcome, Errors, Memory.Valid, AfterCommand, Acyclic;
      AfterDispatch(lib, argv, Texts());
      ghost var before := State();
      if argv[0] == "source" {
        ok := DoSource(argv);
      } else if argv[0] == "quit" {
        ok := DoQuit();
      } else if argv[0] == "time" {
        ok := true;
        if |argv| > 1 {
          ok := InterpretCmda(argv[1..]);
          TimedOutcome(Known(), lib, argv, before, State(), ok);
          return;
        }
      } else if argv[0] == "option" {
        ok := SetOptions(argv);
      } else if argv[0] == "log" {
        ok := OpenLog(argv);
      } else if argv[0] == "help" || argv[0] == "#" {
        ok := true;
      } else {
        ok := *;
      }
      PlainOutcome(Known(), lib, argv, before, State(), ok);
    }

    /** The arguments are allocated and freed within the command; a run that has ended ignores the line. */
    method InterpretCmd(cmdline: string) returns (ok: bool)
      requires Valid() && KnowsBuiltins() && NulFree(cmdline) && EndsInSpace(cmdline)
      modifies this`bufStack, this`quitFlag, this`freed, this`errCnt, this`errLimit, this`handed, mem
      ensures Valid() && fresh(Stack() - old(Stack()))
      ensures mem.currentBytes - Owned() == old(mem.currentBytes - Owned())
      ensures old(quitFlag) ==> !ok && State() == old(State()) && handed == old(handed) && Texts() == old(Texts())
      ensures !old(quitFlag) ==>
                && handed == old(handed) + [cmdline]
                && Outcome(Known(), lib, Words(cmdline), Errors(Words(cmdline)), old(State()), State(), ok)
                && Texts() == if freed then [] else AfterCommand(lib, Words(cmdline), old(Texts()))
    {
      hide Words, AfterCommand, Memory.Valid, Acyclic, NulFree, EndsInSpace;
      if quitFlag {
        return false;
      }
      ok := RunLine(cmdline);
      handed := handed + [cmdline];
    }

    method RunLine(cmdline: string) returns (ok: bool)
      requires Valid() && !freed && KnowsBuiltins() && NulFree(cmdline) && EndsInSpace(cmdline)
      modifies this`bufStack, this`quitFlag, this`freed, this`errCnt, this`errLimit, mem
      ensures Valid() && fresh(Stack() - old(Stack()))
      ensures mem.currentBytes - Owned() == old(mem.currentBytes - Owned())
      ensures Outcome(Known(), lib, Words(cmdline), Errors(Words(cmdline)), old(State()), State(), ok)
      ensures Texts() == if freed then [] else AfterCommand(lib, Words(cmdline), old(Texts()))
    {
      hide Outcome, Course, Words, AfterCommand, ArgBytes, Memory.Valid, Acyclic, NulFree, EndsInSpace;
      ghost var texts, owned := Texts(), Owned();
      var argv := ParseArgs(mem, cmdline);
      assert Texts() == texts && Owned() == owned;
      ok := InterpretCmda(argv);
      texts, owned := Texts(), Owned();
      FreeArgs(mem, argv);
      assert Texts() == texts && Owned() == owned;
    }

    static method FreeArgs(mem: Memory, argv: seq<string>)
      requires mem.Valid()
      modifies mem
      ensures mem.Valid() && mem.currentBytes == old(mem.currentBytes) - ArgBytes(argv)
    {
      var i := 0;
      while i < |argv|
        invariant 0 <= i <= |argv| && mem.Valid()
        invariant mem.currentBytes == old(mem.currentBytes) - |Packed(argv[..i])|
      {
        mem.FreeString(argv[i]);
        PackedSnoc(argv[..i], argv[i]);
        assert argv[..i + 1] == argv[..i] + [argv[i]];
        i := i + 1;
      }
      assert argv[..i] == argv;
      mem.FreeArray(|argv|, POINTER_SIZE);
    }

    /** One line of the innermost file into the line buffer. */
    method ReadTop() returns (length: nat, eof: bool)
      requires Valid() && bufStack != null
      modifies linebuf, Stack()
      ensures Valid() && Stack() == old(Stack()) && Owned() == old(Owned())
      ensures var p := old(Texts())[0];
              && Texts() == [AfterLine(p)] + old(Texts())[1..]
              && (eof <==> EndsHere(p))
              && length < linebuf.Length && (length == 0 <==> p == "")
              && (length > 0 ==> linebuf[..length] == FirstLine(p))
    {
      hide AfterLine, FirstLine, Memory.Valid, Acyclic;
      length, eof := bufStack.ReadLine(linebuf);
    }

    /** The next line of the innermost file, which is popped when the reading runs into its end. */
    method ReadLine() returns (line: Option<string>)
      requires Valid()
      modifies this`bufStack, mem, linebuf, Stack()
      ensures Valid() && fresh(Stack() - old(Stack()))
      ensures mem.currentBytes - Owned() == old(mem.currentBytes - Owned())
      ensures line.None? <==> old(Texts()) == [] || old(Texts())[0] == ""
      ensures Texts() == AfterReading(old(Texts()))
      ensures line.Some? ==> line.value == FirstLine(old(Texts())[0])
    {
      if bufStack == null {
        return None;
      }
      hide AfterReading, AfterLine, FirstLine, EndsHere, Memory.Valid, Acyclic;
      AfterReadingOf(Texts());
      var length, eof := ReadTop();
      line := if length == 0 then None else Some(linebuf[..length]);
      if eof {
        PopFile();
      }
    }

    /** What the console holds is balanced, and its run is on course. */
    ghost predicate OnCourse(goal: Goal)
      reads this, mem, if bufStack == null then {} else bufStack.Repr
    {
      && Valid() && KnowsBuiltins() && mem.currentBytes == Owned()
      && Course(lib, Texts(), handed, quitFlag, freed, goal.lines)
      && Log(Known(), lib, goal.start, handed, State())
    }

    ghost function LinesLeft(): nat
      requires Valid()
      reads this, mem, if bufStack == null then {} else bufStack.Repr
    {
      |ExpandAll(lib, Texts())|
    }

    /** interpret_cmd() on the line just read from the stack `texts`. */
    method TakeUp(line: string, ghost texts: seq<string>, ghost goal: Goal)
      requires Valid() && KnowsBuiltins() && mem.currentBytes == Owned()
      requires Course(lib, texts, handed, quitFlag, freed, goal.lines) && Log(Known(), lib, goal.start, handed, State())
      requires LineRead(texts, Texts()) && line == FirstLine(texts[0])
      modifies this`bufStack, this`quitFlag, this`freed, this`errCnt, this`errLimit, this`handed, mem
      ensures OnCourse(goal) && fresh(Stack() - old(Stack())) && (old(quitFlag) ==> quitFlag)
      ensures LinesLeft() < |ExpandAll(lib, texts)|
    {
      hide ExpandAll, Memory.Valid, Words;
      ghost var after, taken, before := Texts(), handed, State();
      ReadNulFree(lib, texts, after);
      var ok := InterpretCmd(line);
      if before.quit {
        CourseIgnored(lib, texts, after, taken, goal.lines);
      } else {
        CourseStep(lib, texts, after, Texts(), taken, quitFlag, freed, goal.lines);
        LogStep(Known(), lib, goal.start, taken, line, before, State(), ok);
      }
    }

    /** One readline() and, unless it hit the end of a file, one interpret_cmd(). */
    method OneCommand(ghost goal: Goal) returns (line: Option<string>)
      requires OnCourse(goal)
      modifies this, mem, linebuf, Stack()
      ensures OnCourse(goal) && fresh(Stack() - old(Stack())) && (old(quitFlag) ==> quitFlag)
      ensures line.None? <==> old(Texts()) == [] || old(Texts())[0] == ""
      ensures line.Some? ==> LinesLeft() < old(LinesLeft())
      ensures line.None? ==> LinesLeft() == old(LinesLeft()) && (old(Texts()) != [] ==> |Texts()| < old(|Texts()|))
    {
      hide Course, ExpandAll, Memory.Valid, Acyclic, Log, AfterReading;
      ghost var texts := Texts();
      line := ReadLine();
      if line.Some? {
        TakeUp(line.value, texts, goal);
      } else {
        ReadingAtEnd(texts);
        if texts != [] {
          CourseAtEnd(lib, texts, handed, quitFlag, freed, goal.lines);
        }
      }
    }

    /** A complete line is in the buffer of the innermost file. */
    ghost predicate LineReady()
      requires Valid()
      reads this, mem, if bufStack == null then {} else bufStack.Repr
    {
      bufStack != null && '\n' in bufStack.buf[bufStack.bufptr..bufStack.bufptr + bufStack.cnt]
    }

    method ReadReady() returns (ready: bool)
      requires Valid()
      ensures ready <==> LineReady()
      ensures ready ==> Texts() != [] && Texts()[0] != ""
    {
      if bufStack == null {
        return false;
      }
      var b := bufStack;
      var i := 0;
      while i < b.cnt
        invariant 0 <= i <= b.cnt
        invariant '\n' !in b.buf[b.bufptr..b.bufptr + i]
      {
        if b.buf[b.bufptr + i] == '\n' {
          assert b.buf[b.bufptr..b.bufptr + b.cnt][i] == '\n';
          return true;
        }
        i := i + 1;
      }
      ready := false;
    }

    predicate CmdDone()
      reads this
    {
      bufStack == null || quitFlag
    }

    method NextBuffered(ghost goal: Goal) returns (ready: bool)
      requires OnCourse(goal) && Texts() != [] && Texts()[0] != ""
      modifies this, mem, linebuf, Stack()
      ensures OnCourse(goal) && fresh(Stack() - old(Stack())) && LinesLeft() < old(LinesLeft())
      ensures ready <==> LineReady()
      ensures ready ==> Texts() != [] && Texts()[0] != ""
    {
      hide Course, ExpandAll, Memory.Valid, Acyclic, Log;
      var line := OneCommand(goal);
      ready := ReadReady();
    }

    /** Runs every command whose line is complete in the buffer. */
    method DrainBuffer(ghost goal: Goal)
      requires OnCourse(goal) && !CmdDone()
      modifies this, mem, linebuf, Stack()
      ensures OnCourse(goal) && !LineReady() && fresh(Stack() - old(Stack()))
      ensures LinesLeft() < old(LinesLeft())
              || (LinesLeft() == old(LinesLeft()) && Texts() == old(Texts()) && !CmdDone())
    {
      hide Course, ExpandAll, Memory.Valid, LineReady, Acyclic, Log;
      var ready := ReadReady();
      while ready
        invariant OnCourse(goal) && fresh(Stack() - old(Stack()))
        invariant ready <==> LineReady()
        invariant ready ==> Texts() != [] && Texts()[0] != ""
        invariant LinesLeft() < old(LinesLeft())
                  || (LinesLeft() == old(LinesLeft()) && Texts() == old(Texts()) && !CmdDone())
        decreases LinesLeft()
      {
        ready := NextBuffered(goal);
      }
    }

    /** Runs the buffered lines and then one more, for which select() waits. */
    method CmdSelect(ghost goal: Goal)
      requires OnCourse(goal) && !CmdDone()
      modifies this, mem, linebuf, Stack()
      ensures OnCourse(goal) && fresh(Stack() - old(Stack()))
      ensures LinesLeft() < old(LinesLeft()) || (LinesLeft() == old(LinesLeft()) && |Texts()| < old(|Texts()|))
    {
      hide Course, ExpandAll, Memory.Valid, Acyclic, Log, LineReady;
      DrainBuffer(goal);
      if !CmdDone() {
        var line := OneCommand(goal);
      }
    }

    /** The main loop, from any point of a run to its end. */
    method RunToEnd(ghost goal: Goal)
      requires OnCourse(goal)
      modifies this, mem, linebuf, Stack()
      ensures OnCourse(goal) && CmdDone()
    {
      hide Course, ExpandAll, Memory.Valid, Acyclic, Log;
      while !CmdDone()
        invariant OnCourse(goal) && fresh(Stack() - old(Stack()))
        decreases LinesLeft(), |Texts()|
      {
        CmdSelect(goal);
      }
    }

    /**
      Nested sources flatten: the lines taken up are a prefix of the inlined text of the file, and
      all of it unless the run was ended by `quit` or by errors, as the log of the run tells.
     */
    method RunConsole(infile: string) returns (ok: bool)
      requires Valid() && KnowsBuiltins() && FilesNulFree(lib)
      requires Texts() == [] && handed == [] && !quitFlag && !freed && errCnt >= 0 && mem.currentBytes == Owned()
      modifies this, mem, linebuf
      ensures Valid() && mem.currentBytes == Owned() && CmdDone()
      ensures infile !in files ==> !ok && handed == []
      ensures infile in files ==>
                && handed <= Expand(lib, Cut(files[infile]))
                && (!quitFlag ==> handed == Expand(lib, Cut(files[infile])))
                && (ok <==> errCnt == 0)
                && Log(Known(), lib, old(State()), handed, State())
      ensures freed ==> Texts() == []
    {
      hide Course, ExpandAll, Expand, Log, Memory.Valid;
      ok := PushFile(infile);
      if !ok {
        return;
      }
      CourseStart(lib, files[infile]);
      LogStart(Known(), lib, State());
      assert Texts() == [files[infile]];
      ghost var goal := Goal(Expand(lib, Cut(files[infile])), State());
      RunToEnd(goal);
      CourseEnd(lib, Texts(), handed, quitFlag, freed, goal.lines);
      ok := errCnt == 0;
    }

    /**
      A run that ends through do_quit_cmd, as a command or at the end of the input, returns every
      byte. A run that the error limit ends does not pass through it and keeps what it holds.
     */
    method FinishCmd() returns (ok: bool)
      requires Valid() && mem.currentBytes == Owned() && (freed ==> Texts() == [])
      modifies this, mem
      ensures Valid() && quitFlag
      ensures freed <==> !old(quitFlag) || old(freed)
      ensures (ok ==> errCnt == 0) && (old(quitFlag) && errCnt == 0 ==> ok)
      ensures mem.currentBytes == if freed then 0 else old(mem.currentBytes)
      ensures KnowsBuiltins() ==> (freed <==> mem.currentBytes == 0)
    {
      ok := true;
      if !quitFlag {
        ok := DoQuit();
      }
      ok := ok && errCnt == 0;
    }
  }
}
