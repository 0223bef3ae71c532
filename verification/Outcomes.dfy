/**
  What one command line does to the flags of the console, and what these tell about a whole run.
 */
module Outcomes {
  import opened Wrappers
  import opened Tokenizers
  import opened Sources

  datatype Flags = Flags(quit: bool, freed: bool, errCnt: int, errLimit: int)

  /** The names of the commands and of the parameters, and what get_int makes of a word. */
  datatype Commands = Commands(names: seq<string>, params: seq<string>, getInt: string -> Option<int>)

  /** The names and values behind `option` are pairs of a parameter and a number. */
  predicate OptionsOk(cmds: Commands, args: seq<string>) {
    args == [] || (|args| > 1 && cmds.getInt(args[1]).Some? && args[0] in cmds.params && OptionsOk(cmds, args[2..]))
  }

  /** The error limit after `option`, which sets the pairs in front of the first wrong one. */
  function LimitAfter(cmds: Commands, args: seq<string>, limit: int): int {
    if |args| < 2 || cmds.getInt(args[1]).None? || args[0] !in cmds.params then limit
    else LimitAfter(cmds, args[2..], if args[0] == "error" then cmds.getInt(args[1]).value else limit)
  }

  /** `Either` leaves the result to the application's own commands and to log files. */
  datatype Verdict = Succeeds | Fails | Either

  function Judge(cmds: Commands, lib: Library, argv: seq<string>): Verdict {
    var a := StripTime(argv);
    if a == [] then Succeeds
    else if a[0] !in cmds.names then Fails
    else if a[0] == "source" then if |a| > 1 && a[1] in lib.files then Succeeds else Fails
    else if a[0] in {"time", "help", "#"} then Succeeds
    else if a[0] == "log" && |a| == 1 then Fails
    else if a[0] == "option" then if OptionsOk(cmds, a[1..]) then Succeeds else Fails
    else Either
  }

  predicate SetsOptions(cmds: Commands, argv: seq<string>) {
    var a := StripTime(argv);
    a != [] && a[0] == "option" && a[0] in cmds.names
  }

  predicate Quits(cmds: Commands, argv: seq<string>) {
    var a := StripTime(argv);
    a != [] && a[0] == "quit" && a[0] in cmds.names
  }

  /** A failing command counts one error, and one more for each `time` around it. */
  function Errors(argv: seq<string>): int { 1 + |argv| - |StripTime(argv)| }

  /** The flags after a command that returned `ok`, when a failure counts `errors`. */
  ghost predicate Outcome(cmds: Commands, lib: Library, argv: seq<string>, errors: int,
                          before: Flags, after: Flags, ok: bool) {
    && (ok ==> Judge(cmds, lib, argv) != Fails)
    && (!ok ==> Judge(cmds, lib, argv) != Succeeds)
    && after.freed == (before.freed || Quits(cmds, argv))
    && after.errCnt == before.errCnt + (if ok then 0 else errors)
    && after.quit == (before.quit || Quits(cmds, argv) || (!ok && errors > 0 && after.errCnt >= after.errLimit))
    && after.errLimit == (if SetsOptions(cmds, argv) then LimitAfter(cmds, StripTime(argv)[1..], before.errLimit)
                          else before.errLimit)
  }

  /** What a run is to hand over, and the flags it starts with. */
  datatype Goal = Goal(lines: seq<string>, start: Flags)

  /** The result of a line that was taken up, and the flags after it. */
  datatype Entry = Entry(ok: bool, after: Flags)

  function FlagsAt(start: Flags, trail: seq<Entry>, i: nat): Flags
    requires i <= |trail|
  {
    if i == 0 then start else trail[i - 1].after
  }

  /** Every line was taken up by a run that had not ended, with the outcome that its words determine. */
  ghost predicate IsTrail(cmds: Commands, lib: Library, start: Flags, handed: seq<string>, trail: seq<Entry>) {
    && |trail| == |handed|
    && forall i :: 0 <= i < |handed| ==>
         && !FlagsAt(start, trail, i).quit
         && Outcome(cmds, lib, Words(handed[i]), Errors(Words(handed[i])),
                    FlagsAt(start, trail, i), trail[i].after, trail[i].ok)
  }

  /** A failure at or past the error limit then in force. */
  predicate MeetsLimit(e: Entry) { !e.ok && e.after.errCnt >= e.after.errLimit }

  /**
    The whole run, line by line: it has ended exactly when it was freed or some line failed at the
    error limit then in force.
   */
  ghost predicate Recounts(cmds: Commands, lib: Library, start: Flags, handed: seq<string>, f: Flags,
                           trail: seq<Entry>) {
    && IsTrail(cmds, lib, start, handed, trail)
    && f == FlagsAt(start, trail, |trail|)
    && (f.quit <==> f.freed || exists i :: 0 <= i < |trail| && MeetsLimit(trail[i]))
  }

  /**
    A run stops at its first `quit` or at the first failure that meets the error limit and nowhere else,
    and without an error every line taken up named a known command and every sourced file was there.
   */
  ghost predicate Log(cmds: Commands, lib: Library, start: Flags, handed: seq<string>, f: Flags) {
    && (forall i :: 0 <= i < |handed| - 1 ==> !Quits(cmds, Words(handed[i])))
    && (f.freed <==> handed != [] && Quits(cmds, Words(handed[|handed| - 1])))
    && (f.freed ==> f.quit)
    && (f.quit ==> f.freed || f.errCnt >= f.errLimit)
    && f.errCnt >= 0
    && (f.errCnt == 0 ==> forall i :: 0 <= i < |handed| ==> Judge(cmds, lib, Words(handed[i])) != Fails)
    && exists trail :: Recounts(cmds, lib, start, handed, f, trail)
  }

  lemma EmptyOutcome(cmds: Commands, lib: Library, f: Flags)
    requires !f.freed
    ensures Outcome(cmds, lib, [], Errors([]), f, f, true)
  {}

  /** record_error(). */
  function Recorded(f: Flags): Flags {
    f.(errCnt := f.errCnt + 1, quit := f.quit || f.errCnt + 1 >= f.errLimit)
  }

  lemma UnknownOutcome(cmds: Commands, lib: Library, argv: seq<string>, f: Flags)
    requires argv != [] && argv[0] !in cmds.names && "time" in cmds.names && !f.freed
    ensures Outcome(cmds, lib, argv, Errors(argv), f, Recorded(f), false)
  {}

  lemma RecordedOutcome(cmds: Commands, lib: Library, argv: seq<string>, before: Flags, after: Flags, ok: bool)
    requires Outcome(cmds, lib, argv, Errors(argv) - 1, before, after, ok)
    ensures Outcome(cmds, lib, argv, Errors(argv), before, if ok then after else Recorded(after), ok)
  {
    ErrorsCount(argv);
  }

  lemma TimedOutcome(cmds: Commands, lib: Library, argv: seq<string>, before: Flags, after: Flags, ok: bool)
    requires |argv| > 1 && argv[0] == "time" && Outcome(cmds, lib, argv[1..], Errors(argv[1..]), before, after, ok)
    ensures Outcome(cmds, lib, argv, Errors(argv) - 1, before, after, ok)
  {}

  lemma PlainOutcome(cmds: Commands, lib: Library, argv: seq<string>, before: Flags, after: Flags, ok: bool)
    requires argv != [] && argv[0] in cmds.names && (argv[0] == "time" ==> |argv| == 1 && ok) && !before.freed
    requires argv[0] in {"help", "#"} ==> ok
    requires argv[0] == "log" && |argv| == 1 ==> !ok
    requires argv[0] == "option" ==> ok == OptionsOk(cmds, argv[1..])
    requires argv[0] == "source" ==> ok == (|argv| > 1 && argv[1] in lib.files)
    requires after == if argv[0] == "quit" then before.(freed := true, quit := true)
                      else if argv[0] == "option" then before.(errLimit := LimitAfter(cmds, argv[1..], before.errLimit))
                      else before
    ensures Outcome(cmds, lib, argv, Errors(argv) - 1, before, after, ok)
  {}

  lemma {:induction false} ErrorsCount(argv: seq<string>)
    ensures Errors(argv) > 0
  {
    if |argv| > 1 && argv[0] == "time" {
      ErrorsCount(argv[1..]);
    }
  }

  lemma LogStart(cmds: Commands, lib: Library, f: Flags)
    requires !f.quit && !f.freed && f.errCnt >= 0
    ensures Log(cmds, lib, f, [], f)
  {
    assert Recounts(cmds, lib, f, [], f, []);
  }

  lemma TrailStep(cmds: Commands, lib: Library, start: Flags, handed: seq<string>, line: string,
                  before: Flags, after: Flags, ok: bool, trail: seq<Entry>)
    requires Recounts(cmds, lib, start, handed, before, trail) && !before.quit
    requires Outcome(cmds, lib, Words(line), Errors(Words(line)), before, after, ok)
    ensures Recounts(cmds, lib, start, handed + [line], after, trail + [Entry(ok, after)])
  {
    hide Quits, Judge, Words, Errors, StripTime, SetsOptions, LimitAfter, Outcome;
    var longer := trail + [Entry(ok, after)];
    QuitsWhen(cmds, lib, Words(line), before, after, ok);
    forall i | 0 <= i < |trail| ensures !MeetsLimit(longer[i]) {
      assert longer[i] == trail[i];
    }
    assert longer[|trail|] == Entry(ok, after);
    var lines := handed + [line];
    forall i | 0 <= i < |lines|
      ensures !FlagsAt(start, longer, i).quit
      ensures Outcome(cmds, lib, Words(lines[i]), Errors(Words(lines[i])),
                      FlagsAt(start, longer, i), longer[i].after, longer[i].ok)
    {
      assert FlagsAt(start, longer, i) == FlagsAt(start, trail, i);
      assert i < |handed| ==> lines[i] == handed[i] && longer[i] == trail[i];
    }
  }

  lemma QuitsWhen(cmds: Commands, lib: Library, argv: seq<string>, before: Flags, after: Flags, ok: bool)
    requires Outcome(cmds, lib, argv, Errors(argv), before, after, ok) && !before.quit
    ensures !before.freed ==> (after.quit <==> after.freed || MeetsLimit(Entry(ok, after)))
  {
    ErrorsCount(argv);
  }

  /** Without options, a failure that leaves the run going leaves it below the limit. */
  lemma BelowLimit(cmds: Commands, lib: Library, argv: seq<string>, before: Flags, after: Flags, ok: bool)
    requires Outcome(cmds, lib, argv, Errors(argv), before, after, ok) && !SetsOptions(cmds, argv)
    requires before.errCnt < before.errLimit
    ensures after.errLimit == before.errLimit && (!after.quit ==> after.errCnt < after.errLimit)
    ensures !ok || after.errCnt < after.errLimit
  {
    ErrorsCount(argv);
  }

  ghost predicate NoOptions(cmds: Commands, handed: seq<string>) {
    forall i :: 0 <= i < |handed| ==> !SetsOptions(cmds, Words(handed[i]))
  }

  /** Up to its last line, a run without options is below the limit that it started with. */
  lemma {:induction false} LimitKept(cmds: Commands, lib: Library, start: Flags, handed: seq<string>,
                                     trail: seq<Entry>, i: nat)
    requires IsTrail(cmds, lib, start, handed, trail) && NoOptions(cmds, handed) && start.errCnt < start.errLimit
    requires i < |handed|
    ensures FlagsAt(start, trail, i).errLimit == start.errLimit
    ensures FlagsAt(start, trail, i).errCnt < start.errLimit
  {
    hide Outcome, Words, Errors, SetsOptions;
    if i > 0 {
      var j := i - 1;
      LimitKept(cmds, lib, start, handed, trail, j);
      BelowLimit(cmds, lib, Words(handed[j]), FlagsAt(start, trail, j), trail[j].after, trail[j].ok);
      assert !FlagsAt(start, trail, i).quit;
    }
  }

  /** While no line sets options, a run that started below the error limit stops as soon as it is reached. */
  lemma StopsAtLimit(cmds: Commands, lib: Library, start: Flags, handed: seq<string>, f: Flags)
    requires Log(cmds, lib, start, handed, f) && NoOptions(cmds, handed)
    requires start.errCnt < start.errLimit && !start.quit
    ensures f.errLimit == start.errLimit && (f.quit <==> f.freed || f.errCnt >= f.errLimit)
  {
    hide Outcome, Words, Errors, SetsOptions, Judge, Quits;
    var trail: seq<Entry> :| Recounts(cmds, lib, start, handed, f, trail);
    if handed != [] {
      var last := |handed| - 1;
      var g: Flags, e: Entry := FlagsAt(start, trail, last), trail[last];
      LimitKept(cmds, lib, start, handed, trail, last);
      BelowLimit(cmds, lib, Words(handed[last]), g, e.after, e.ok);
    }
  }

  lemma LogStep(cmds: Commands, lib: Library, start: Flags, handed: seq<string>, line: string,
                before: Flags, after: Flags, ok: bool)
    requires Log(cmds, lib, start, handed, before) && !before.quit
    requires Outcome(cmds, lib, Words(line), Errors(Words(line)), before, after, ok)
    ensures Log(cmds, lib, start, handed + [line], after)
  {
    hide Quits, Judge, Words, Errors, StripTime, SetsOptions, Recounts, LimitAfter;
    ErrorsCount(Words(line));
    var longer := handed + [line];
    assert longer[|handed|] == line;
    forall i | 0 <= i < |handed| ensures longer[i] == handed[i] {}
    var trail :| Recounts(cmds, lib, start, handed, before, trail);
    TrailStep(cmds, lib, start, handed, line, before, after, ok, trail);
  }

  // ---- What single commands amount to --------------------------------------------

  lemma NoOptionsToSet(cmds: Commands, limit: int)
    ensures OptionsOk(cmds, []) && LimitAfter(cmds, [], limit) == limit
  {}

  /**
    One more pair: it has to name a parameter and a number, and sets the error limit exactly if the
    parameter is `error`. From the first pair that is wrong on, nothing is set.
   */
  lemma {:induction false} OnePairMore(cmds: Commands, args: seq<string>, name: string, v: string,
                                       rest: seq<string>, limit: int)
    requires OptionsOk(cmds, args)
    ensures OptionsOk(cmds, args + [name, v]) <==> name in cmds.params && cmds.getInt(v).Some?
    ensures name in cmds.params && cmds.getInt(v).Some? ==>
              LimitAfter(cmds, args + [name, v], limit)
              == if name == "error" then cmds.getInt(v).value else LimitAfter(cmds, args, limit)
    ensures name !in cmds.params || cmds.getInt(v).None? ==>
              && !OptionsOk(cmds, args + ([name, v] + rest))
              && LimitAfter(cmds, args + ([name, v] + rest), limit) == LimitAfter(cmds, args, limit)
    ensures !OptionsOk(cmds, args + [name]) && LimitAfter(cmds, args + [name], limit) == LimitAfter(cmds, args, limit)
    decreases |args|
  {
    if args == [] {
      assert [] + [name, v] == [name, v] && [name, v][2..] == [];
      assert [] + ([name, v] + rest) == [name, v] + rest;
      assert [] + [name] == [name];
    } else {
      assert (args + [name, v])[2..] == args[2..] + [name, v];
      assert (args + ([name, v] + rest))[2..] == args[2..] + ([name, v] + rest);
      assert (args + [name])[2..] == args[2..] + [name];
      var next := if args[0] == "error" then cmds.getInt(args[1]).value else limit;
      OnePairMore(cmds, args[2..], name, v, rest, next);
    }
  }

  lemma Untimed(argv: seq<string>)
    requires argv == [] || argv[0] != "time" || |argv| == 1
    ensures StripTime(argv) == argv && Errors(argv) == 1
  {}

  /** `time` passes the verdict of the command behind it on, and counts its failure once more. */
  lemma Timed(cmds: Commands, lib: Library, argv: seq<string>)
    requires argv != []
    ensures Judge(cmds, lib, ["time"] + argv) == Judge(cmds, lib, argv)
    ensures Quits(cmds, ["time"] + argv) == Quits(cmds, argv)
    ensures Errors(["time"] + argv) == 1 + Errors(argv)
  {
    assert (["time"] + argv)[1..] == argv;
  }

  /** No words succeed, an unknown command fails, and a known one does what its name says. */
  lemma Verdicts(cmds: Commands, lib: Library, argv: seq<string>)
    requires argv == [] || argv[0] != "time"
    ensures argv == [] ==> Judge(cmds, lib, argv) == Succeeds
    ensures argv != [] && argv[0] !in cmds.names ==> Judge(cmds, lib, argv) == Fails
    ensures argv != [] && argv[0] in cmds.names && argv[0] == "source" ==>
              Judge(cmds, lib, argv) == if |argv| > 1 && argv[1] in lib.files then Succeeds else Fails
    ensures argv != [] && argv[0] in cmds.names && argv[0] == "option" ==>
              Judge(cmds, lib, argv) == if OptionsOk(cmds, argv[1..]) then Succeeds else Fails
    ensures argv != [] && argv[0] in cmds.names && (argv[0] == "help" || argv[0] == "#") ==>
              Judge(cmds, lib, argv) == Succeeds
    ensures Quits(cmds, argv) <==> argv != [] && argv[0] == "quit" && "quit" in cmds.names
  {
    Untimed(argv);
  }

  function Failures(trail: seq<Entry>): nat {
    if trail == [] then 0 else Failures(trail[..|trail| - 1]) + if trail[|trail| - 1].ok then 0 else 1
  }

  /** Without `time`, the error count of a run is the number of its lines that failed. */
  lemma {:induction false} ErrorsAreFailures(cmds: Commands, lib: Library, start: Flags, handed: seq<string>,
                                             trail: seq<Entry>)
    requires IsTrail(cmds, lib, start, handed, trail)
    requires forall i :: 0 <= i < |handed| ==> Words(handed[i]) == [] || Words(handed[i])[0] != "time"
    ensures FlagsAt(start, trail, |trail|).errCnt == start.errCnt + Failures(trail)
    decreases |trail|
  {
    hide Words, Judge, Quits, StripTime, SetsOptions, LimitAfter, Errors;
    var last := |trail| - 1;
    if last >= 0 {
      var init := trail[..last];
      forall i | 0 <= i < last
        ensures !FlagsAt(start, init, i).quit
        ensures Outcome(cmds, lib, Words(handed[..last][i]), Errors(Words(handed[..last][i])),
                        FlagsAt(start, init, i), init[i].after, init[i].ok)
      {
        assert FlagsAt(start, init, i) == FlagsAt(start, trail, i);
        assert handed[..last][i] == handed[i] && init[i] == trail[i];
      }
      ErrorsAreFailures(cmds, lib, start, handed[..last], init);
      Untimed(Words(handed[last]));
      assert FlagsAt(start, init, last) == FlagsAt(start, trail, last);
      assert Outcome(cmds, lib, Words(handed[last]), Errors(Words(handed[last])),
                     FlagsAt(start, trail, last), trail[last].after, trail[last].ok);
    }
  }
}
