/**
 The management menu of `manage_service`: the command lines each choice
 runs for the selected unit, and the syslog fallback taken when a
 journalctl query prints nothing.
 */
module Manage {
  import opened Text
  import opened Decimal
  import opened Menus

  /** `[str(i) for i in range(1, 11)] + ["H", "E"]`. */
  function ManageChoices(): seq<string> {
    NumberedChoices(10) + ["H", "E"]
  }

  /** The verbs of choices 1 to 4, in menu order. */
  const ServiceVerbs: seq<string> := ["start", "stop", "restart", "disable"]

  /** `["sudo", "systemctl", verb, unit]`. */
  function ControlCommand(verb: string, unit: string): seq<string> {
    ["sudo", "systemctl", verb, unit]
  }

  /** `["journalctl", "-u", unit, "--no-pager"]` and the query flags. */
  function JournalCommand(unit: string, flags: seq<string>): seq<string> {
    ["journalctl", "-u", unit, "--no-pager"] + flags
  }

  /** `fallback_syslog`: grep the system log for the unit name. */
  function FallbackCommand(unit: string): seq<string> {
    ["sudo", "grep", unit, "/var/log/syslog"]
  }

  /** A captured journalctl query: the query itself, then the fallback when
      its output is blank after stripping. */
  function QueryWithFallback(query: seq<string>, unit: string, output: string): seq<seq<string>> {
    [query] + (if Strip(output) == "" then [FallbackCommand(unit)] else [])
  }

  /** What a management choice does, before the unit is filled in. */
  datatype Action =
    | Control(verb: string)        // `sudo systemctl VERB UNIT`
    | Query(flags: seq<string>)    // a captured journalctl query
    | Follow                       // `journalctl -u UNIT -f`
    | Tail(path: string)           // `sudo tail -n 100 PATH`
    | NoAction

  /** The `if`/`elif` chain of `manage_service`, choice by choice. */
  function ActionOf(choice: string): Action {
    if choice == "1" then Control("start")
    else if choice == "2" then Control("stop")
    else if choice == "3" then Control("restart")
    else if choice == "4" then Control("disable")
    else if choice == "5" then Query(["-n", "100"])
    else if choice == "6" then Follow
    else if choice == "7" then Query(["-b"])
    else if choice == "8" then Query(["-p", "err"])
    else if choice == "9" then Tail("/var/log/syslog")
    else if choice == "10" then Tail("/var/log/messages")
    else NoAction
  }

  /** The command lines an action runs for `unit`, in order. `output` is
      what a captured query printed; other actions do not look at it. */
  function Run(action: Action, unit: string, output: string): seq<seq<string>> {
    match action
    case Control(verb) => [ControlCommand(verb, unit)]
    case Query(flags) => QueryWithFallback(JournalCommand(unit, flags), unit, output)
    case Follow => [["journalctl", "-u", unit, "-f"]]
    case Tail(path) => [["sudo", "tail", "-n", "100", path]]
    case NoAction => []
  }

  /** The command lines one choice runs for `unit`. */
  function Commands(choice: string, unit: string, output: string): seq<seq<string>> {
    Run(ActionOf(choice), unit, output)
  }

  /** The choices whose journalctl output is captured and checked. */
  predicate IsCapturedQuery(choice: string) {
    choice == "5" || choice == "7" || choice == "8"
  }

  lemma CapturedIsQuery(choice: string)
    ensures ActionOf(choice).Query? <==> IsCapturedQuery(choice)
  {
  }

  /** What one pass through the management menu does. */
  datatype Step = ReturnHome | ExitProgram | Ran(commands: seq<seq<string>>)

  /** One pass of the `manage_service` loop for an accepted choice: "H"
      returns, "E" exits, and every numbered choice runs the command lines
      of its branch, at least one, the first of which names the program it
      starts. */
  function ManageStep(choice: string, unit: string, output: string): (step: Step)
    requires choice in ManageChoices()
    ensures step == ReturnHome <==> choice == "H"
    ensures step == ExitProgram <==> choice == "E"
    ensures step.Ran? ==> choice in NumberedChoices(10)
    ensures step.Ran? ==> step.commands == Commands(choice, unit, output)
    ensures step.Ran? ==> |step.commands| >= 1 && |step.commands[0]| > 0
                          && (step.commands[0][0] == "sudo" || step.commands[0][0] == "journalctl")
  {
    LetterIsNotNumbered(10, "H");
    LetterIsNotNumbered(10, "E");
    if choice == "H" then ReturnHome
    else if choice == "E" then ExitProgram
    else
      NumberedChoicesAct(choice);
      RunFirstProgram(ActionOf(choice), unit, output);
      Ran(Commands(choice, unit, output))
  }

  /** Every numbered choice of the management menu does something. */
  lemma NumberedChoicesAct(choice: string)
    requires choice in NumberedChoices(10)
    ensures !ActionOf(choice).NoAction?
  {
    NumberedManageChoices();
  }

  /** Every action runs at least one command, through `sudo` or `journalctl`. */
  lemma RunFirstProgram(action: Action, unit: string, output: string)
    requires !action.NoAction?
    ensures var cmds := Run(action, unit, output);
            |cmds| >= 1 && |cmds[0]| > 0 && (cmds[0][0] == "sudo" || cmds[0][0] == "journalctl")
  {
  }

  lemma TenIsTen()
    ensures NatToString(10) == "10"
  {
    assert NatToString(1) == "1";
  }

  /** The numbered choices of the management menu are "1" to "10". */
  lemma NumberedManageChoices()
    ensures NumberedChoices(10) == ["1", "2", "3", "4", "5", "6", "7", "8", "9", "10"]
  {
    TenIsTen();
  }

  /** Choices 1 to 4 start, stop, restart and disable the unit, in that
      order, and run nothing else. */
  lemma ControlChoices(choice: string, unit: string, output: string)
    requires choice in NumberedChoices(10) && ChoiceNumber(choice, 10) <= 4
    ensures Commands(choice, unit, output)
              == [ControlCommand(ServiceVerbs[ChoiceNumber(choice, 10) - 1], unit)]
  {
    NumberedManageChoices();
    var k := ChoiceNumber(choice, 10);
    assert NatToString(k) == choice;
    assert NumberedChoices(10)[k - 1] == choice;
  }

  /** Choices 5, 7 and 8 first run one journalctl query for the unit, with
      `-n 100`, `-b` and `-p err` respectively. */
  lemma QueryChoices(choice: string, unit: string, output: string)
    requires IsCapturedQuery(choice)
    ensures var flags := if choice == "5" then ["-n", "100"] else if choice == "7" then ["-b"] else ["-p", "err"];
            Commands(choice, unit, output)[0] == JournalCommand(unit, flags)
  {
  }

  lemma CountInPair<T>(a: T, b: T)
    requires a != b
    ensures multiset([a, b])[b] == 1 && multiset([a])[b] == 0
  {
  }

  /** Blank after stripping means all whitespace. */
  lemma BlankIffAllSpace(output: string)
    ensures Strip(output) == "" <==> AllSpace(output)
  {
    var t := Strip(output);
    assert t == "" <==> |t| == 0;
  }

  lemma QueryKept(query: seq<string>, unit: string, output: string)
    requires Strip(output) != ""
    ensures QueryWithFallback(query, unit, output) == [query]
  {
  }

  lemma QueryNotBlank(query: seq<string>, unit: string, output: string)
    requires !AllSpace(output)
    ensures QueryWithFallback(query, unit, output) == [query]
  {
    BlankIffAllSpace(output);
    QueryKept(query, unit, output);
  }

  lemma QueryBlank(query: seq<string>, unit: string, output: string)
    requires AllSpace(output)
    ensures QueryWithFallback(query, unit, output) == [query, FallbackCommand(unit)]
  {
    BlankIffAllSpace(output);
  }

  /** A captured query falls back once when its output is blank after
      stripping, which is when it is all whitespace. */
  lemma QueryFallbackCount(query: seq<string>, unit: string, output: string)
    requires |query| > 0 && query[0] == "journalctl"
    ensures multiset(QueryWithFallback(query, unit, output))[FallbackCommand(unit)]
              == if AllSpace(output) then 1 else 0
  {
    assert query[0] != FallbackCommand(unit)[0];
    CountInPair(query, FallbackCommand(unit));
    if AllSpace(output) {
      QueryBlank(query, unit, output);
    } else {
      QueryNotBlank(query, unit, output);
    }
  }

  /** Only a captured query can fall back, and it does so exactly once when
      its output is blank. */
  lemma RunFallbackCount(action: Action, unit: string, output: string)
    ensures multiset(Run(action, unit, output))[FallbackCommand(unit)]
              == if action.Query? && AllSpace(output) then 1 else 0
  {
    match action
    case Query(flags) =>
      QueryFallbackCount(JournalCommand(unit, flags), unit, output);
    case Control(verb) =>
      assert ControlCommand(verb, unit)[1] != FallbackCommand(unit)[1];
    case Follow =>
    case Tail(path) =>
      assert ["sudo", "tail", "-n", "100", path][1] != FallbackCommand(unit)[1];
    case NoAction =>
  }

  /** The syslog fallback runs exactly once when a captured query printed
      only whitespace, and not at all otherwise; choices other than 5, 7
      and 8 never run it. */
  lemma FallbackExactlyOnce(choice: string, unit: string, output: string)
    ensures multiset(Commands(choice, unit, output))[FallbackCommand(unit)]
              == if IsCapturedQuery(choice) && AllSpace(output) then 1 else 0
  {
    CapturedIsQuery(choice);
    RunFallbackCount(ActionOf(choice), unit, output);
  }

  /** The fallback is the last command run, so it follows the query it
      stands in for. */
  lemma FallbackFollowsQuery(choice: string, unit: string, output: string)
    requires IsCapturedQuery(choice) && AllSpace(output)
    ensures var cmds := Commands(choice, unit, output);
            |cmds| == 2 && cmds[0][0] == "journalctl" && cmds[1] == FallbackCommand(unit)
  {
    CapturedIsQuery(choice);
  }

  /** Only the captured queries depend on what journalctl printed. */
  lemma OutputIrrelevant(choice: string, unit: string, a: string, b: string)
    requires !IsCapturedQuery(choice)
    ensures Commands(choice, unit, a) == Commands(choice, unit, b)
  {
    CapturedIsQuery(choice);
  }

  /** Choice 6 follows the unit's journal live; choices 9 and 10 show the
      last 100 lines of the system log and of the messages log. */
  lemma LogChoices(unit: string, output: string)
    ensures Commands("6", unit, output) == [["journalctl", "-u", unit, "-f"]]
    ensures Commands("9", unit, output) == [["sudo", "tail", "-n", "100", "/var/log/syslog"]]
    ensures Commands("10", unit, output) == [["sudo", "tail", "-n", "100", "/var/log/messages"]]
  {
  }

  /** Choices 9 and 10 read a whole log file and ignore the unit. */
  lemma RawLogsIgnoreUnit(choice: string, u: string, v: string, output: string)
    requires choice == "9" || choice == "10"
    ensures Commands(choice, u, output) == Commands(choice, v, output)
  {
  }

  /** Every command of a unit action carries the unit's name. */
  lemma QueryNamesUnit(flags: seq<string>, unit: string, output: string)
    ensures forall c :: c in QueryWithFallback(JournalCommand(unit, flags), unit, output) ==> unit in c
  {
    assert JournalCommand(unit, flags)[2] == unit;
    assert FallbackCommand(unit)[2] == unit;
  }

  /** Every command of an action other than a raw log tail carries the
      unit's name. */
  lemma RunNamesUnit(action: Action, unit: string, output: string)
    requires !action.Tail?
    ensures forall c :: c in Run(action, unit, output) ==> unit in c
  {
    match action
    case Control(verb) =>
      assert ControlCommand(verb, unit)[3] == unit;
    case Query(flags) =>
      QueryNamesUnit(flags, unit, output);
    case Follow =>
      assert ["journalctl", "-u", unit, "-f"][2] == unit;
    case NoAction =>
  }

  /** Choices 1 to 8 act on the selected unit: every command they run
      carries its name. */
  lemma UnitChoicesNameUnit(choice: string, unit: string, output: string)
    requires choice != "9" && choice != "10"
    ensures forall c :: c in Commands(choice, unit, output) ==> unit in c
  {
    RunNamesUnit(ActionOf(choice), unit, output);
  }
}
