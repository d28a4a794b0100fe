/** One turn of the interactive command loop as a transition of the registry,
    runs of such turns, and the integer parsing the commands depend on. */
module Command {
  import opened Generals
  import opened Membership

  // ---------------------------------------------------------------------------
  // int() on a token
  // ---------------------------------------------------------------------------

  predicate IsSpace(c: char) {
    c == ' ' || c == '\t' || c == '\n' || c == '\r' || c == '\U{000B}' || c == '\U{000C}'
  }

  predicate IsDigit(c: char) {
    '0' <= c <= '9'
  }

  /** Characters that may occur in a token int() accepts. */
  predicate NumeralChar(c: char) {
    IsSpace(c) || IsDigit(c) || c == '+' || c == '-' || c == '_'
  }

  /** Every character of s may occur in a token int() accepts. */
  predicate Numeral(s: string) {
    forall i :: 0 <= i < |s| ==> NumeralChar(s[i])
  }

  /** Drops leading whitespace. */
  function TrimLeft(s: string): string {
    if |s| > 0 && IsSpace(s[0]) then TrimLeft(s[1..]) else s
  }

  /** Drops trailing whitespace. */
  function TrimRight(s: string): string {
    if |s| > 0 && IsSpace(s[|s| - 1]) then TrimRight(s[..|s| - 1]) else s
  }

  /** TrimLeft removes a prefix of whitespace and stops at a non-space. */
  lemma {:induction false} TrimLeftFacts(s: string)
    ensures var t := TrimLeft(s);
      && |t| <= |s| && t == s[|s| - |t|..]
      && (forall i :: 0 <= i < |s| - |t| ==> IsSpace(s[i]))
      && (|t| > 0 ==> !IsSpace(t[0]))
    decreases |s|
  {
    if |s| > 0 && IsSpace(s[0]) {
      TrimLeftFacts(s[1..]);
    }
  }

  /** TrimRight removes a suffix of whitespace and stops at a non-space. */
  lemma {:induction false} TrimRightFacts(s: string)
    ensures var t := TrimRight(s);
      && |t| <= |s| && t == s[..|t|]
      && (forall i :: |t| <= i < |s| ==> IsSpace(s[i]))
      && (|t| > 0 ==> !IsSpace(t[|t| - 1]))
    decreases |s|
  {
    if |s| > 0 && IsSpace(s[|s| - 1]) {
      TrimRightFacts(s[..|s| - 1]);
    }
  }

  /** Every character of s that is not whitespace occurs in t. */
  predicate KeepsNonSpace(s: string, t: string) {
    forall i :: 0 <= i < |s| && !IsSpace(s[i]) ==> s[i] in t
  }

  /** Surrounding whitespace is ignored by int(): every other character of s
      is kept, and the result neither starts nor ends with whitespace. */
  function Strip(s: string): (t: string)
    ensures KeepsNonSpace(s, t)
    ensures |t| > 0 ==> !IsSpace(t[0]) && !IsSpace(t[|t| - 1])
  {
    var t := TrimRight(TrimLeft(s));
    TrimLeftFacts(s);
    TrimRightFacts(TrimLeft(s));
    forall i | 0 <= i < |s| && !IsSpace(s[i])
      ensures s[i] in t
    {
      StripKeeps(s, i);
    }
    t
  }

  lemma StripKeeps(s: string, i: int)
    requires 0 <= i < |s| && !IsSpace(s[i])
    ensures s[i] in TrimRight(TrimLeft(s))
  {
    var l := TrimLeft(s);
    var t := TrimRight(l);
    TrimLeftFacts(s);
    TrimRightFacts(l);
    var k := |s| - |l|;
    assert k <= i;
    assert s[i] == l[i - k];
    assert i - k < |t|;
    assert t[i - k] == l[i - k];
  }

  /** Decimal digits, with single underscores allowed between two digits. */
  predicate Grouped(s: string) {
    && |s| > 0
    && IsDigit(s[0])
    && IsDigit(s[|s| - 1])
    && (forall i :: 0 <= i < |s| ==> IsDigit(s[i]) || s[i] == '_')
    && (forall i :: 0 <= i < |s| - 1 && s[i] == '_' ==> IsDigit(s[i + 1]))
  }

  function DigitValue(c: char): int {
    c as int - '0' as int
  }

  /** The number a run of digits and underscores denotes. */
  function GroupedValue(s: string): int {
    if |s| == 0 then 0
    else if s[|s| - 1] == '_' then GroupedValue(s[..|s| - 1])
    else 10 * GroupedValue(s[..|s| - 1]) + DigitValue(s[|s| - 1])
  }

  /** How many decimal digits s holds; underscores and signs are not digits. */
  function DigitCount(s: string): nat {
    if |s| == 0 then 0
    else DigitCount(s[..|s| - 1]) + (if IsDigit(s[|s| - 1]) then 1 else 0)
  }

  /** The default limit of CPython 3.11 and later (and of the 3.7-3.10
      security releases) on the digits int() converts from a string. */
  const MaxStrDigits := 4300

  /** An unsigned body: digit groups of at most MaxStrDigits digits. */
  function ReadUnsigned(body: string): Option<int> {
    if Grouped(body) && DigitCount(body) <= MaxStrDigits then Some(GroupedValue(body))
    else None
  }

  /** Python's int() on a string, for base 10 and ASCII text: None where it
      raises ValueError. An accepted token consists of whitespace, digits,
      underscores and signs only, and holds between 1 and MaxStrDigits digits. */
  function ParseInt(s: string): (r: Option<int>)
    ensures r.Some? ==> Numeral(s)
    ensures r.Some? ==> 0 < DigitCount(Strip(s)) <= MaxStrDigits
  {
    var t := Strip(s);
    var signed := |t| > 0 && (t[0] == '-' || t[0] == '+');
    var body := if signed then t[1..] else t;
    match ReadUnsigned(body)
    case None => None
    case Some(v) =>
      AcceptedToken(t, signed);
      Some(if signed && t[0] == '-' then -v else v)
  }

  /** A stripped token whose unsigned part is accepted holds only numeral
      characters, and its digits are those of the unsigned part. */
  lemma AcceptedToken(t: string, signed: bool)
    requires signed <==> |t| > 0 && (t[0] == '-' || t[0] == '+')
    requires ReadUnsigned(if signed then t[1..] else t).Some?
    ensures Numeral(t)
    ensures 0 < DigitCount(t) <= MaxStrDigits
  {
    var body := if signed then t[1..] else t;
    forall j | 0 <= j < |t|
      ensures NumeralChar(t[j])
    {
      if signed && j > 0 {
        assert t[j] == body[j - 1];
      }
    }
    if signed {
      SignedDigitCount(t);
    }
    assert DigitCount(body) > 0 by {
      FirstDigitCounts(body);
    }
  }

  lemma {:induction false} FirstDigitCounts(s: string)
    requires |s| > 0 && IsDigit(s[0])
    ensures DigitCount(s) > 0
    decreases |s|
  {
    if |s| > 1 {
      FirstDigitCounts(s[..|s| - 1]);
    }
  }

  lemma {:induction false} SignedDigitCount(t: string)
    requires |t| > 0 && !IsDigit(t[0])
    ensures DigitCount(t) == DigitCount(t[1..])
    decreases |t|
  {
    if |t| > 1 {
      assert t[..|t| - 1][1..] == t[1..][..|t| - 2];
      SignedDigitCount(t[..|t| - 1]);
    }
  }

  lemma {:induction false} AllDigitsCount(s: string)
    requires forall i :: 0 <= i < |s| ==> IsDigit(s[i])
    ensures DigitCount(s) == |s|
    decreases |s|
  {
    if |s| > 0 {
      AllDigitsCount(s[..|s| - 1]);
    }
  }

  /** The canonical decimal spelling of a natural number. */
  function Digits(n: nat): (s: string)
    ensures |s| > 0
    ensures forall i :: 0 <= i < |s| ==> IsDigit(s[i])
  {
    if n < 10 then ['0' + n as char]
    else Digits(n / 10) + ['0' + (n % 10) as char]
  }

  function Abs(n: int): nat {
    if n < 0 then -n else n
  }

  /** The canonical decimal spelling of an integer, with '-' for negatives. */
  function Decimal(n: int): string {
    if n < 0 then "-" + Digits(-n) else Digits(n)
  }

  lemma {:induction false} DigitsValue(n: nat)
    ensures GroupedValue(Digits(n)) == n
  {
    var s := Digits(n);
    if n >= 10 {
      assert s[..|s| - 1] == Digits(n / 10);
      DigitsValue(n / 10);
    }
  }

  lemma NoSpaceEnds(s: string)
    requires |s| > 0 && !IsSpace(s[0]) && !IsSpace(s[|s| - 1])
    ensures Strip(s) == s
  {
  }

  /** int() reads the decimal spelling of an integer back as that integer,
      exactly when the spelling has at most MaxStrDigits digits. */
  lemma ParseDecimal(n: int)
    ensures ParseInt(Decimal(n)) ==
      (if |Digits(Abs(n))| <= MaxStrDigits then Some(n) else None)
  {
    var s := Decimal(n);
    var d := Digits(Abs(n));
    NoSpaceEnds(s);
    assert Strip(s) == s;
    ReadDigits(Abs(n));
    if n < 0 {
      assert s[0] == '-' && s[1..] == d;
    } else {
      assert s == d && !(s[0] == '-' || s[0] == '+');
    }
  }

  /** The canonical digits of m read back as m, within the digit limit. */
  lemma ReadDigits(m: nat)
    ensures ReadUnsigned(Digits(m)) ==
      (if |Digits(m)| <= MaxStrDigits then Some(m) else None)
  {
    DigitsValue(m);
    AllDigitsCount(Digits(m));
  }

  // ---------------------------------------------------------------------------
  // One turn of the command loop
  // ---------------------------------------------------------------------------

  /** The state g-state writes: chosen by comparing the pid token itself with
      "non-faulty". A token int() accepts is never "non-faulty", so once the
      pid has been read the state written is always faulty. */
  function StateFor(token: string): (st: FaultState)
    ensures st == NonFaulty ==> ParseInt(token) == None
  {
    if token == "non-faulty" then
      assert !NumeralChar(token[0]);
      NonFaulty
    else Faulty
  }

  datatype Output = Quiet | Shown(entries: seq<Entry>) | UnknownCommand

  /** After a turn the loop either keeps running, has left the loop on
      exit/quit, or the program stopped on an error. */
  datatype Outcome =
    | Running(reg: Registry, out: Output)
    | Exited(reg: Registry)
    | Failed(error: Error)

  predicate Live(o: Outcome) {
    o.Running? || o.Exited?
  }

  /** int(command[1]): IndexError without a second token, ValueError when the
      token is not an integer. */
  function Argument(cmd: seq<string>): (r: Result<int>)
    ensures r.Ok? <==> |cmd| > 1 && ParseInt(cmd[1]).Some?
    ensures r.Ok? ==> r.value == ParseInt(cmd[1]).value
    ensures r.Err? ==> (r.error == MissingArgument <==> |cmd| <= 1)
    ensures r.Err? ==> r.error in {MissingArgument, NotAnInteger}
  {
    if |cmd| <= 1 then Err(MissingArgument)
    else match ParseInt(cmd[1])
      case None => Err(NotAnInteger)
      case Some(v) => Ok(v)
  }

  /** Every pid can be named: a decimal second token is read as its value,
      within the digit limit of int(). */
  lemma ArgumentReadsDecimal(c: string, n: int, rest: seq<string>)
    ensures Argument([c, Decimal(n)] + rest) ==
      (if |Digits(Abs(n))| <= MaxStrDigits then Ok(n) else Err(NotAnInteger))
  {
    ParseDecimal(n);
  }

  /** A second token holding any character other than whitespace, a digit, an
      underscore or a sign stops the program with ValueError. */
  lemma ArgumentRejectsNonNumeral(cmd: seq<string>, i: int)
    requires |cmd| > 1 && 0 <= i < |cmd[1]| && !NumeralChar(cmd[1][i])
    ensures Argument(cmd) == Err(NotAnInteger)
  {
  }

  predicate IsQuit(cmd: seq<string>) {
    |cmd| > 0 && (cmd[0] == "exit" || cmd[0] == "quit")
  }

  predicate Known(name: string) {
    name in {"actual-order", "g-state", "g-kill", "g-add", "exit", "quit"}
  }

  /** One command, already split on single spaces (splitting always yields at
      least one token). */
  function Step(r: Registry, cmd: seq<string>): Outcome
    requires |cmd| > 0
  {
    if cmd[0] == "actual-order" then
      if |cmd| <= 1 then Failed(MissingArgument) else Running(r, Quiet)
    else if cmd[0] == "g-state" then
      if |cmd| > 1 then
        match Argument(cmd)
        case Err(e) => Failed(e)
        case Ok(pid) => Running(r.(procs := SetState(r.procs, pid, StateFor(cmd[1]))), Quiet)
      else Running(r, Shown(Listing(r)))
    else if cmd[0] == "g-kill" then
      match Argument(cmd)
      case Err(e) => Failed(e)
      case Ok(pid) =>
        match KillLoop(r, pid, 0)
        case Err(e) => Failed(e)
        case Ok(r') => Running(r', Quiet)
    else if cmd[0] == "g-add" then
      match Argument(cmd)
      case Err(e) => Failed(e)
      case Ok(k) => Running(Add(r, k), Quiet)
    else if cmd[0] == "exit" || cmd[0] == "quit" then Exited(r)
    else Running(r, UnknownCommand)
  }

  /** Every pid of ps was already in the registry before, or is a fresh id at
      or above its counter. */
  predicate PidsFrom(ps: seq<Proc>, before: Registry) {
    forall j :: 0 <= j < |ps| ==> HasPid(before.procs, ps[j].pid) || ps[j].pid >= before.maxPid
  }

  lemma KillFacts(r: Registry, pid: int)
    requires Valid(r)
    ensures KillLoop(r, pid, 0).Ok? ==>
      var r' := KillLoop(r, pid, 0).value;
      Valid(r') && r'.maxPid == r.maxPid && PidsFrom(r'.procs, r) && !HasPid(r'.procs, pid)
  {
    KillLoopIsKill(r, pid);
    if HasPid(r.procs, pid) && Kill(r, pid).Ok? {
      KillPreservesValid(r, pid);
      var r' := Kill(r, pid).value;
      var i := FindPid(r.procs, pid);
      forall j | 0 <= j < |r'.procs|
        ensures HasPid(r.procs, r'.procs[j].pid)
      {
        var s := if j == 0 then (if i == 0 then 1 else 0) else if j < i then j else j + 1;
        assert r'.procs[j].pid == r.procs[s].pid;
      }
    }
  }

  /** A turn keeps the registry invariant, never moves the id counter back and
      never brings in a pid that is neither present nor fresh. */
  lemma StepFacts(r: Registry, cmd: seq<string>)
    requires Valid(r) && |cmd| > 0
    ensures var o := Step(r, cmd);
      Live(o) ==> Valid(o.reg) && o.reg.maxPid >= r.maxPid && PidsFrom(o.reg.procs, r)
  {
    var o := Step(r, cmd);
    if Live(o) {
      if cmd[0] == "actual-order" {
      } else if cmd[0] == "g-state" {
        if |cmd| > 1 {
          var pid := Argument(cmd).value;
          SetStateFacts(r, pid, StateFor(cmd[1]));
          assert forall j :: 0 <= j < |r.procs| ==> o.reg.procs[j].pid == r.procs[j].pid;
        }
      } else if cmd[0] == "g-kill" {
        KillFacts(r, Argument(cmd).value);
      } else if cmd[0] == "g-add" {
        var k := Argument(cmd).value;
        forall j | 0 <= j < |o.reg.procs|
          ensures HasPid(r.procs, o.reg.procs[j].pid) || o.reg.procs[j].pid >= r.maxPid
        {
          if j < |r.procs| {
            assert o.reg.procs[j] == o.reg.procs[..|r.procs|][j];
          }
        }
      }
    }
  }

  /** g-state with an integer pid changes nothing but the fault state of the
      records carrying that pid, and always to faulty. */
  lemma GStateMarksFaulty(r: Registry, cmd: seq<string>, pid: int)
    requires |cmd| > 1 && cmd[0] == "g-state" && ParseInt(cmd[1]) == Some(pid)
    ensures Step(r, cmd).Running?
    ensures var r' := Step(r, cmd).reg;
      && r'.maxPid == r.maxPid
      && |r'.procs| == |r.procs|
      && forall j :: 0 <= j < |r.procs| ==>
           r'.procs[j] == (if r.procs[j].pid == pid then r.procs[j].(state := Faulty) else r.procs[j])
  {
  }

  /** g-state without a pid lists the generals in registry order and changes
      nothing; the listing can be read back into the registry's records. */
  lemma ListCommandReadOnly(r: Registry)
    ensures Step(r, ["g-state"]) == Running(r, Shown(Listing(r)))
    ensures ReadListing(Step(r, ["g-state"]).out.entries) == Some(r.procs)
  {
    ListingRoundTrip(r);
  }

  predicate WellSplit(cmds: seq<seq<string>>) {
    forall i :: 0 <= i < |cmds| ==> |cmds[i]| > 0
  }

  /** How a turn dispatches: only exit/quit leave the loop, and leave the
      registry as it is; exactly the unknown commands are reported and change
      nothing; g-state alone lists the registry; only g-state, g-kill and
      g-add can change the registry; the program stops only on a missing or
      non-integer argument or on killing the last general. */
  lemma StepDispatch(r: Registry, cmd: seq<string>)
    requires |cmd| > 0
    ensures var o := Step(r, cmd);
      && (o.Exited? <==> IsQuit(cmd))
      && (o.Exited? ==> o.reg == r)
      && (o == Running(r, UnknownCommand) <==> !Known(cmd[0]))
      && (o == Running(r, Shown(Listing(r))) <==> cmd == ["g-state"])
      && (Live(o) && o.reg != r ==> cmd[0] in {"g-state", "g-kill", "g-add"})
      && (o.Failed? ==> o.error in {MissingArgument, NotAnInteger, KilledLastGeneral})
  {
  }

  /** Feeds commands to the loop until one leaves it or stops the program. */
  function Run(r: Registry, cmds: seq<seq<string>>): Outcome
    requires WellSplit(cmds)
    decreases |cmds|
  {
    if |cmds| == 0 then Running(r, Quiet)
    else
      var o := Step(r, cmds[0]);
      if o.Running? then Run(o.reg, cmds[1..]) else o
  }

  /** The loop is left only by an exit/quit command, and the program stops
      only on the errors a single command can raise. */
  lemma {:induction false} RunLeavesOnlyOnQuit(r: Registry, cmds: seq<seq<string>>)
    requires WellSplit(cmds)
    ensures var o := Run(r, cmds);
      && (|cmds| == 0 ==> o == Running(r, Quiet))
      && (o.Exited? ==> exists i :: 0 <= i < |cmds| && IsQuit(cmds[i]))
      && (o.Failed? ==> o.error in {MissingArgument, NotAnInteger, KilledLastGeneral})
    decreases |cmds|
  {
    if |cmds| > 0 {
      var o := Step(r, cmds[0]);
      StepDispatch(r, cmds[0]);
      if o.Running? {
        RunLeavesOnlyOnQuit(o.reg, cmds[1..]);
        var f := Run(o.reg, cmds[1..]);
        if f.Exited? {
          var i :| 0 <= i < |cmds[1..]| && IsQuit(cmds[1..][i]);
          assert IsQuit(cmds[i + 1]);
        }
      }
    }
  }

  lemma {:induction false} RunFacts(r: Registry, cmds: seq<seq<string>>)
    requires Valid(r) && WellSplit(cmds)
    ensures var o := Run(r, cmds);
      Live(o) ==> Valid(o.reg) && o.reg.maxPid >= r.maxPid && PidsFrom(o.reg.procs, r)
    decreases |cmds|
  {
    if |cmds| > 0 {
      var o := Step(r, cmds[0]);
      StepFacts(r, cmds[0]);
      if o.Running? {
        RunFacts(o.reg, cmds[1..]);
        var f := Run(o.reg, cmds[1..]);
        if Live(f) {
          forall j | 0 <= j < |f.reg.procs|
            ensures HasPid(r.procs, f.reg.procs[j].pid) || f.reg.procs[j].pid >= r.maxPid
          {
            if HasPid(o.reg.procs, f.reg.procs[j].pid) {
              var k :| 0 <= k < |o.reg.procs| && o.reg.procs[k].pid == f.reg.procs[j].pid;
            }
          }
        }
      }
    }
  }

  /** The whole program: start-up with n generals, then the commands. */
  function Session(n: int, cmds: seq<seq<string>>): (o: Outcome)
    requires WellSplit(cmds)
    ensures o == Failed(NonPositiveCount) <==> n <= 0
    ensures o.Exited? ==> exists i :: 0 <= i < |cmds| && IsQuit(cmds[i])
  {
    match Startup(n)
    case Err(e) => Failed(e)
    case Ok(r) =>
      RunLeavesOnlyOnQuit(r, cmds);
      Run(r, cmds)
  }

  /** Every registry the program can reach satisfies the invariant; a
      non-positive count stops the program before any command is read. */
  lemma SessionValid(n: int, cmds: seq<seq<string>>)
    requires WellSplit(cmds)
    ensures n <= 0 ==> Session(n, cmds) == Failed(NonPositiveCount)
    ensures Live(Session(n, cmds)) ==> Valid(Session(n, cmds).reg)
  {
    if n > 0 {
      RunFacts(Startup(n).value, cmds);
    }
  }

  /** A killed general's pid is never seen again: later additions draw fresh
      ids above the counter, which only grows. */
  lemma KilledPidNeverReturns(r: Registry, cmd: seq<string>, pid: int, later: seq<seq<string>>)
    requires Valid(r) && HasPid(r.procs, pid)
    requires |cmd| > 1 && cmd[0] == "g-kill" && ParseInt(cmd[1]) == Some(pid)
    requires Step(r, cmd).Running? && WellSplit(later)
    ensures var o := Run(Step(r, cmd).reg, later);
      Live(o) ==> !HasPid(o.reg.procs, pid)
  {
    var r' := Step(r, cmd).reg;
    KillFacts(r, pid);
    RunFacts(r', later);
    var o := Run(r', later);
    assert pid < r.maxPid by {
      var i :| 0 <= i < |r.procs| && r.procs[i].pid == pid;
    }
    if Live(o) {
      forall j | 0 <= j < |o.reg.procs|
        ensures o.reg.procs[j].pid != pid
      {
        if HasPid(r'.procs, o.reg.procs[j].pid) {
          var k :| 0 <= k < |r'.procs| && r'.procs[k].pid == o.reg.procs[j].pid;
        }
      }
    }
  }
}
