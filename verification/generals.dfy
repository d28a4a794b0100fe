/** Records of the generals simulation: a general's role and fault state, the
    registry of live generals with its next-id counter, the registry
    invariant, and the start-up of the registry from the initial count. */
module Generals {

  datatype Role = Primary | Secondary

  datatype FaultState = NonFaulty | Faulty

  /** One general. The cooperative stop flag of the source is lifecycle only
      and is not part of the record. */
  datatype Proc = Proc(pid: int, role: Role, state: FaultState)

  /** The live generals in registry order, and the id the next added general
      will receive. */
  datatype Registry = Registry(procs: seq<Proc>, maxPid: int)

  /** Ways the program stops without reaching a new registry. */
  datatype Error =
    | NonPositiveCount   // start-up with a count that is not positive
    | MissingArgument    // a command that needs an argument got none
    | NotAnInteger       // the argument is not accepted by int()
    | KilledLastGeneral  // killing the only general leaves no index 0 to promote

  datatype Option<+T> = None | Some(value: T)

  datatype Result<+T> = Ok(value: T) | Err(error: Error)

  predicate HasPid(ps: seq<Proc>, pid: int) {
    exists i :: 0 <= i < |ps| && ps[i].pid == pid
  }

  /** Pids strictly increase along the registry. */
  predicate Ascending(ps: seq<Proc>) {
    forall i, j :: 0 <= i < j < |ps| ==> ps[i].pid < ps[j].pid
  }

  /** The registry is non-empty, its head is the primary and nobody else is. */
  predicate PrimaryFirst(ps: seq<Proc>) {
    && |ps| > 0
    && ps[0].role == Primary
    && forall i :: 0 < i < |ps| ==> ps[i].role == Secondary
  }

  /** Every pid is positive and below the next-id counter. */
  predicate PidsBelow(ps: seq<Proc>, maxPid: int) {
    forall i :: 0 <= i < |ps| ==> 1 <= ps[i].pid < maxPid
  }

  /** The registry invariant kept by every command of the loop. */
  predicate Valid(r: Registry) {
    PrimaryFirst(r.procs) && Ascending(r.procs) && PidsBelow(r.procs, r.maxPid)
  }

  function CountPrimaries(ps: seq<Proc>): nat {
    if |ps| == 0 then 0
    else (if ps[0].role == Primary then 1 else 0) + CountPrimaries(ps[1..])
  }

  lemma {:induction false} NoPrimaries(ps: seq<Proc>)
    requires forall i :: 0 <= i < |ps| ==> ps[i].role == Secondary
    ensures CountPrimaries(ps) == 0
  {
    if |ps| > 0 {
      NoPrimaries(ps[1..]);
    }
  }

  lemma {:induction false} SomePrimary(ps: seq<Proc>, k: int)
    requires 0 <= k < |ps| && ps[k].role == Primary
    ensures CountPrimaries(ps) >= 1
  {
    if k > 0 {
      SomePrimary(ps[1..], k - 1);
    }
  }

  /** For a non-empty registry whose head is the primary, "nobody else is
      primary" and "exactly one primary" say the same thing. */
  lemma {:induction false} PrimaryFirstIffOnePrimary(ps: seq<Proc>)
    requires |ps| > 0 && ps[0].role == Primary
    ensures PrimaryFirst(ps) <==> CountPrimaries(ps) == 1
  {
    if PrimaryFirst(ps) {
      NoPrimaries(ps[1..]);
    }
    if CountPrimaries(ps) == 1 {
      forall i | 0 < i < |ps|
        ensures ps[i].role == Secondary
      {
        if ps[i].role == Primary {
          SomePrimary(ps[1..], i - 1);
        }
      }
    }
  }

  /** A valid registry holds exactly one primary, and pids identify records. */
  lemma ValidFacts(r: Registry)
    requires Valid(r)
    ensures CountPrimaries(r.procs) == 1
    ensures forall i, j :: 0 <= i < |r.procs| && 0 <= j < |r.procs| && i != j ==>
              r.procs[i].pid != r.procs[j].pid
  {
    PrimaryFirstIffOnePrimary(r.procs);
  }

  /** The initial generals: n records with pids 1..n, the first one primary,
      all non-faulty. A non-positive n yields no records. */
  function InitProcesses(n: int): (ps: seq<Proc>)
    ensures |ps| == if n > 0 then n else 0
    ensures forall i :: 0 <= i < |ps| ==> ps[i].pid == i + 1 && ps[i].state == NonFaulty
    ensures n > 0 ==> PrimaryFirst(ps) && Ascending(ps)
  {
    if n <= 0 then []
    else seq(n, i requires 0 <= i < n => Proc(i + 1, if i == 0 then Primary else Secondary, NonFaulty))
  }

  /** Program start with n generals: a non-positive count is rejected before
      any registry exists; otherwise the next id is n + 1. */
  function Startup(n: int): (r: Result<Registry>)
    ensures r.Ok? <==> n > 0
    ensures r.Ok? ==> Valid(r.value) && r.value.procs == InitProcesses(n)
    ensures r.Ok? ==> |r.value.procs| == n && r.value.maxPid == n + 1
    ensures r.Err? ==> r.error == NonPositiveCount
  {
    if n <= 0 then Err(NonPositiveCount)
    else Ok(Registry(InitProcesses(n), n + 1))
  }
}
