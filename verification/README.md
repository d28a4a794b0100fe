# Generals membership registry

The repository sets out to simulate the Byzantine Generals problem. Its only
program, `main.py`, implements the membership side of it: a list of generals
(`Process` records with a pid, a role PRIMARY/SECONDARY and a fault state
NF/F), a next-id counter `MAX_PID`, and an interactive loop whose commands
start the registry, add generals (`g-add`), kill one (`g-kill`), change a
general's fault state (`g-state <pid>`) and list them (`g-state`). The order
broadcast, the majority vote and the quorum gate that the repository's
written description of the system sets out are not present in the code, so they are not modelled.

This project models that registry as pure transitions over
`Registry(procs, maxPid)`:

- `generals.dfy` (module `Generals`): the records, the registry invariant
  `Valid`, the initial generals and the start-up guard.
- `registry.dfy` (module `Membership`): add, kill (both as the loop is written
  and as a reference "remove one record"), set state and the listing.
- `command.dfy` (module `Command`): Python's `int()` on a token, one turn of
  the command loop (`Step`), runs of turns and whole sessions.

`Valid` says the registry is non-empty, its head is the only PRIMARY, pids
strictly increase along it (so they are unique), and every pid lies in
`1 .. maxPid-1`. Every turn of the loop keeps it, so every registry the
program can reach satisfies it.

Points where the code and the repository's written description of the
system differ, or where the code's behaviour is easy to miss (the model
follows the code):

- `g-state <pid>` can only mark a general faulty. The state written is chosen
  by comparing the pid token itself with `'non-faulty'`, and `int()` has
  already accepted that token, so it is never `'non-faulty'` (main.py:55-56).
  The written description has `g-state` set a general either faulty or
  non-faulty.
- Killing the only general (who is always the primary) pops it and then
  raises IndexError at `processes[0]`, ending the program (main.py:67-69).
  The model returns the error `KilledLastGeneral`. This is also why a
  reachable registry is never empty.
- `g-kill` walks the list by index while popping from it, so the record that
  slides into a popped slot is not examined. With duplicate pids this could
  leave a match behind; `KillLoop` models the loop exactly, and
  `KillLoopIsKill` proves that with strictly increasing pids it removes exactly
  the one record.
- A non-positive `g-add` count adds nothing (`range(n)` is empty).
- `int()` in current CPython rejects a token of more than 4300 digits with
  ValueError, so such a pid or count ends the program like any other
  non-integer token.
- A missing argument (IndexError) or a token `int()` rejects (ValueError)
  ends the program; the model returns `Failed(MissingArgument)` or
  `Failed(NotAnInteger)`.

## Model

| member | source | states |
|---|---|---|
| Generals.InitProcesses | main.py:36-37 | n records with pids 1..n ascending, the first the only PRIMARY, all NF; none for n <= 0 |
| Generals.Startup | main.py:41-46 | a non-positive count is rejected before any registry exists; otherwise the n initial generals with MAX_PID = n + 1, which is above every pid, and the invariant holds |
| Generals.PrimaryFirstIffOnePrimary | main.py:68-69 | with the primary at the head, "nobody else is primary" holds exactly when there is one primary in all |
| Generals.ValidFacts | main.py:63-69 | a valid registry has exactly one PRIMARY and no two records share a pid |
| Membership.Add | main.py:70-75 | g-add k appends k SECONDARY, NF records with pids MAX_PID .. MAX_PID+k-1, advances MAX_PID by k, leaves the existing prefix alone and keeps the invariant |
| Membership.FindPid | main.py:65-66 | finds the first record carrying the pid, or reports that none does |
| Membership.Kill | main.py:63-69 | an absent pid changes nothing; a present one is removed, shortening the list by one; the only failure is killing the sole remaining general; MAX_PID is unchanged |
| Membership.KillLoop | main.py:65-69 | the pop loop as written fails only by killing the last general, keeps MAX_PID and never lengthens the list; KillLoopIsKill shows it removes exactly what Kill removes |
| Membership.KillLoopIsKill | main.py:65-69 | the index-walking pop loop as written removes exactly what the reference removal removes, whenever pids strictly increase |
| Membership.KillPreservesValid | main.py:63-69 | killing a present general keeps the invariant, removes its pid, keeps the other records in their order, and only the head's role may change (to PRIMARY) |
| Membership.KillPrimaryPromotes | main.py:68-69 | killing the primary of two or more generals promotes the former second general, which is then the only PRIMARY |
| Membership.SetState | main.py:57-59 | only the state of records carrying the pid changes; pids, roles, order and other records are kept |
| Membership.SetStateFacts | main.py:57-59 | setting a state keeps the invariant, and an absent pid leaves the registry unchanged |
| Membership.Listing | main.py:61-62 | one entry per general; ListingRoundTrip shows each carries its pid, role name and state name in registry order |
| Membership.ListingRoundTrip | main.py:61 | the listing (pid, lower-case role name, state name) can be read back into exactly the registry's records, in order |
| Command.ParseInt | main.py:55 | a token int() accepts consists only of whitespace, digits, underscores and signs, and holds between 1 and 4300 digits |
| Command.ParseDecimal | main.py:55 | int() reads the decimal spelling of an integer back as that integer exactly when it has at most 4300 digits, and rejects it otherwise |
| Command.StateFor | main.py:56 | the state chosen is NF only for a token int() rejects, so once the pid is read the state written is always F |
| Command.ArgumentReadsDecimal | main.py:55 | a command whose second token is the decimal spelling of n reads n (ValueError beyond 4300 digits), so every pid can be named |
| Command.ArgumentRejectsNonNumeral | main.py:55 | a second token holding any character other than whitespace, a digit, an underscore or a sign stops the program with ValueError |
| Command.GStateMarksFaulty | main.py:53-59 | g-state with an integer pid keeps running, marks every record with that pid F and changes nothing else |
| Command.ListCommandReadOnly | main.py:60-62 | g-state without a pid leaves the registry unchanged and shows a listing that reads back to its records |
| Command.StepDispatch | main.py:50-79 | how one command of Step is dispatched: only exit/quit leave the loop, with the registry unchanged; exactly the unknown commands are reported and change nothing; bare g-state lists; only g-state, g-kill and g-add can change the registry; the program stops only on IndexError, ValueError or killing the last general |
| Command.StepFacts | main.py:50-79 | every command keeps the invariant, never lowers MAX_PID and brings in no pid that is neither present nor at or above MAX_PID |
| Command.RunLeavesOnlyOnQuit | main.py:49-79 | feeding commands one by one through Run, the loop is left only if some command was exit/quit, and stops only on the errors a single command can raise |
| Command.RunFacts | main.py:49-79 | the same holds for any sequence of commands |
| Command.Session | main.py:41-79 | a session fails with the start-up error exactly when the initial count is not positive |
| Command.SessionValid | main.py:41-79 | a non-positive start-up count stops the program before any command; every registry a session reaches is valid |
| Command.KilledPidNeverReturns | main.py:63-75 | once a present general is killed, its pid is absent from every later registry, because added generals take fresh ids |

## Left out

- Threads: `Process.start` (a busy-wait until stopped), `Process.stop`, the
  stop flag and the thread spawned per general (main.py:26-33, 47-48, 74,
  80-81). They have no effect on the registry.
- Input and output: reading `sys.argv[1]` and stdin, the prompt, splitting on
  spaces, and the printed messages and listing line format (main.py:41, 43,
  50, 61-62, 79). `Step` takes the already split command; `Listing` yields
  (pid, role name, state name) entries rather than the formatted lines.
- The `actual-order` command stores the order in a variable nothing reads;
  the model keeps only its effect on the loop (none, or IndexError without an
  argument) (main.py:51-52).
- The broadcast, majority vote, quorum gate and wire format of the written
  description: not present in the code.
- Command.ParseInt: uses CPython's default limit of 4300 digits; a limit
  changed with `sys.set_int_max_str_digits` or `PYTHONINTMAXSTRDIGITS`, and
  interpreters older than the releases that introduced the limit, are not
  modelled. It also reads ASCII text only; Unicode digits and
  Unicode whitespace other than space, tab, line feed, carriage return,
  vertical tab and form feed are not modelled.
- The enum members' trailing-comma tuple values (main.py:11, 16) have no
  observable effect and are plain constructors here.
