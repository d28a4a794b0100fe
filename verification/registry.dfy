/** The registry transitions of the command loop: adding generals, killing a
    general (with promotion of the new head), changing a general's fault state,
    and the read-only listing. */
module Membership {
  import opened Generals

  function Max0(k: int): nat {
    if k > 0 then k else 0
  }

  /** g-add k: appends k secondary, non-faulty generals whose ids are taken
      from the counter, one at a time. A non-positive k adds nothing. */
  function Add(r: Registry, k: int): (r': Registry)
    decreases k
    ensures r'.maxPid == r.maxPid + Max0(k)
    ensures |r'.procs| == |r.procs| + Max0(k)
    ensures r'.procs[..|r.procs|] == r.procs
    ensures forall j :: |r.procs| <= j < |r'.procs| ==>
              r'.procs[j] == Proc(r.maxPid + (j - |r.procs|), Secondary, NonFaulty)
    ensures Valid(r) ==> Valid(r')
  {
    if k <= 0 then r
    else Add(Registry(r.procs + [Proc(r.maxPid, Secondary, NonFaulty)], r.maxPid + 1), k - 1)
  }

  /** Index of the first record carrying pid, or -1 when there is none. */
  function FindPid(ps: seq<Proc>, pid: int): (i: int)
    ensures -1 <= i < |ps|
    ensures i >= 0 ==> ps[i].pid == pid && forall j :: 0 <= j < i ==> ps[j].pid != pid
    ensures i == -1 <==> !HasPid(ps, pid)
  {
    if |ps| == 0 then -1
    else if ps[0].pid == pid then 0
    else
      var k := FindPid(ps[1..], pid);
      assert forall j :: 1 <= j < |ps| ==> ps[j] == ps[1..][j - 1];
      if k < 0 then -1 else k + 1
  }

  function RemoveAt(ps: seq<Proc>, i: nat): seq<Proc>
    requires i < |ps|
  {
    ps[..i] + ps[i + 1..]
  }

  /** Makes the head of a non-empty registry the primary. */
  function Promote(ps: seq<Proc>): seq<Proc>
    requires |ps| > 0
  {
    ps[0 := ps[0].(role := Primary)]
  }

  /** g-kill pid, stated as "remove the one record carrying pid": an absent pid
      changes nothing; removing the primary promotes the new head, and fails
      when no record is left to promote. */
  function Kill(r: Registry, pid: int): (res: Result<Registry>)
    ensures !HasPid(r.procs, pid) ==> res == Ok(r)
    ensures res.Err? <==> |r.procs| == 1 && r.procs[0].pid == pid && r.procs[0].role == Primary
    ensures res.Err? ==> res.error == KilledLastGeneral
    ensures res.Ok? ==> res.value.maxPid == r.maxPid
    ensures res.Ok? && HasPid(r.procs, pid) ==> |res.value.procs| == |r.procs| - 1
  {
    var i := FindPid(r.procs, pid);
    if i < 0 then Ok(r)
    else
      var rest := RemoveAt(r.procs, i);
      assert |rest| == |r.procs| - 1;
      if r.procs[i].role == Secondary then Ok(r.(procs := rest))
      else if |rest| == 0 then
        assert i == 0 && r.procs[0].role == Primary;
        Err(KilledLastGeneral)
      else Ok(r.(procs := Promote(rest)))
  }

  /** g-kill pid as the loop is written: it walks the list by index, pops every
      record whose pid matches (the record that slides into the popped slot is
      not looked at), and promotes index 0 after popping a primary; promotion
      on an emptied list is an IndexError. */
  function KillLoop(r: Registry, pid: int, i: nat): (res: Result<Registry>)
    decreases |r.procs| + 1 - i
    ensures res.Err? ==> res.error == KilledLastGeneral
    ensures res.Ok? ==> res.value.maxPid == r.maxPid && |res.value.procs| <= |r.procs|
  {
    if i >= |r.procs| then Ok(r)
    else if r.procs[i].pid != pid then KillLoop(r, pid, i + 1)
    else
      var rest := RemoveAt(r.procs, i);
      if r.procs[i].role != Primary then KillLoop(r.(procs := rest), pid, i + 1)
      else if |rest| == 0 then Err(KilledLastGeneral)
      else KillLoop(r.(procs := Promote(rest)), pid, i + 1)
  }

  lemma {:induction false} KillLoopNoMatch(r: Registry, pid: int, i: nat)
    requires forall j :: i <= j < |r.procs| ==> r.procs[j].pid != pid
    ensures KillLoop(r, pid, i) == Ok(r)
    decreases |r.procs| + 1 - i
  {
    if i < |r.procs| {
      KillLoopNoMatch(r, pid, i + 1);
    }
  }

  /** No record from index i on carries pid. */
  predicate NoPidFrom(ps: seq<Proc>, pid: int, i: int) {
    forall j :: 0 <= j < |ps| && i <= j ==> ps[j].pid != pid
  }

  /** Index i stops being looked at once the record at it is popped. */
  lemma RemoveAtFacts(ps: seq<Proc>, i: nat)
    requires i < |ps|
    ensures |RemoveAt(ps, i)| == |ps| - 1
    ensures forall j :: 0 <= j < |ps| - 1 ==> RemoveAt(ps, i)[j] == ps[if j < i then j else j + 1]
  {
  }

  lemma RemoveAtAscending(ps: seq<Proc>, i: nat)
    requires i < |ps| && Ascending(ps)
    ensures Ascending(RemoveAt(ps, i))
  {
    var rest := RemoveAt(ps, i);
    RemoveAtFacts(ps, i);
    forall a, b | 0 <= a < b < |rest|
      ensures rest[a].pid < rest[b].pid
    {
      assert rest[a] == ps[if a < i then a else a + 1];
      assert rest[b] == ps[if b < i then b else b + 1];
    }
  }

  /** At the matching index the loop pops the record and finds no further match. */
  lemma KillLoopAtMatch(r: Registry, pid: int, i: nat)
    requires i == FindPid(r.procs, pid) && i >= 0
    requires NoPidFrom(r.procs, pid, i + 1)
    ensures KillLoop(r, pid, i) == Kill(r, pid)
  {
    var rest := RemoveAt(r.procs, i);
    RemoveAtFacts(r.procs, i);
    if r.procs[i].role != Primary {
      KillLoopNoMatch(r.(procs := rest), pid, i + 1);
    } else if |rest| > 0 {
      var promoted := Promote(rest);
      assert forall j :: i + 1 <= j < |promoted| ==> promoted[j] == rest[j];
      KillLoopNoMatch(r.(procs := promoted), pid, i + 1);
    }
  }

  lemma {:induction false} KillLoopFrom(r: Registry, pid: int, i: nat)
    requires FindPid(r.procs, pid) < 0 || NoPidFrom(r.procs, pid, FindPid(r.procs, pid) + 1)
    requires i <= |r.procs|
    requires forall j :: 0 <= j < i ==> r.procs[j].pid != pid
    ensures KillLoop(r, pid, i) == Kill(r, pid)
    decreases |r.procs| - i
  {
    var k := FindPid(r.procs, pid);
    if k < 0 {
      KillLoopNoMatch(r, pid, i);
    } else if i < k {
      assert KillLoop(r, pid, i) == KillLoop(r, pid, i + 1);
      KillLoopFrom(r, pid, i + 1);
    } else {
      KillLoopAtMatch(r, pid, i);
    }
  }

  /** While pids strictly increase, the loop as written removes exactly the one
      record the reference definition removes. */
  lemma KillLoopIsKill(r: Registry, pid: int)
    requires Ascending(r.procs)
    ensures KillLoop(r, pid, 0) == Kill(r, pid)
  {
    var k := FindPid(r.procs, pid);
    if k >= 0 {
      assert NoPidFrom(r.procs, pid, k + 1) by {
        forall j | k + 1 <= j < |r.procs|
          ensures r.procs[j].pid != pid
        {
          assert r.procs[k].pid < r.procs[j].pid;
        }
      }
    }
    KillLoopFrom(r, pid, 0);
  }

  /** Killing a present general keeps the invariant, drops its pid, and keeps
      every other record and their relative order; only the head's role may
      change, to primary. */
  lemma KillPreservesValid(r: Registry, pid: int)
    requires Valid(r) && HasPid(r.procs, pid)
    requires Kill(r, pid).Ok?
    ensures var r' := Kill(r, pid).value;
      var i := FindPid(r.procs, pid);
      && Valid(r')
      && !HasPid(r'.procs, pid)
      && |r'.procs| == |r.procs| - 1
      && (forall j :: 0 < j < |r'.procs| ==> r'.procs[j] == r.procs[if j < i then j else j + 1])
      && r'.procs[0] == r.procs[if i == 0 then 1 else 0].(role := Primary)
  {
    var ps := r.procs;
    var i := FindPid(ps, pid);
    var rest := RemoveAt(ps, i);
    RemoveAtFacts(ps, i);
    RemoveAtAscending(ps, i);
    assert |ps| >= 2;
    KillShape(r, pid);
    var ps' := Kill(r, pid).value.procs;
    forall j | 0 < j < |rest|
      ensures rest[j].role == Secondary
    {
      assert rest[j] == ps[if j < i then j else j + 1];
    }
    forall j | 0 <= j < |rest|
      ensures rest[j].pid != pid && 1 <= rest[j].pid < r.maxPid
    {
      var s := if j < i then j else j + 1;
      assert rest[j] == ps[s];
    }
    PromotedHeadValid(rest, ps', pid, r.maxPid);
  }

  /** What Kill returns when it removes a present record. */
  lemma KillShape(r: Registry, pid: int)
    requires HasPid(r.procs, pid) && Kill(r, pid).Ok? && |r.procs| >= 2
    ensures var rest := RemoveAt(r.procs, FindPid(r.procs, pid));
      var r' := Kill(r, pid).value;
      && r'.maxPid == r.maxPid
      && |r'.procs| == |rest| > 0
      && (forall j :: 0 < j < |rest| ==> r'.procs[j] == rest[j])
      && (r'.procs[0] == rest[0] || r'.procs[0] == rest[0].(role := Primary))
      && (rest[0].role == Primary ==> r'.procs[0] == rest[0])
      && (r.procs[FindPid(r.procs, pid)].role == Primary ==> r'.procs[0] == rest[0].(role := Primary))
  {
  }

  /** A list that keeps the records of rest except for the head's role, which
      is primary, satisfies the invariant when rest is ascending, in range and
      has only secondaries after its head. */
  lemma PromotedHeadValid(rest: seq<Proc>, ps': seq<Proc>, pid: int, maxPid: int)
    requires |rest| > 0 && |ps'| == |rest| && Ascending(rest)
    requires forall j :: 0 < j < |rest| ==> ps'[j] == rest[j] && rest[j].role == Secondary
    requires ps'[0] == rest[0].(role := Primary)
    requires forall j :: 0 <= j < |rest| ==> rest[j].pid != pid && 1 <= rest[j].pid < maxPid
    ensures Valid(Registry(ps', maxPid)) && !HasPid(ps', pid)
  {
    assert forall j :: 0 <= j < |ps'| ==> ps'[j].pid == rest[j].pid;
  }

  /** Killing the primary of a registry with two or more generals promotes the
      general that was second, which becomes the only primary. */
  lemma KillPrimaryPromotes(r: Registry)
    requires Valid(r) && |r.procs| >= 2
    ensures Kill(r, r.procs[0].pid).Ok?
    ensures var r' := Kill(r, r.procs[0].pid).value;
      && r'.procs[0] == r.procs[1].(role := Primary)
      && CountPrimaries(r'.procs) == 1
  {
    assert HasPid(r.procs, r.procs[0].pid);
    KillPreservesValid(r, r.procs[0].pid);
    ValidFacts(Kill(r, r.procs[0].pid).value);
  }

  /** The fault-state loop of g-state: every record carrying pid gets state st;
      pids, roles, order and every other record are untouched. */
  function SetState(ps: seq<Proc>, pid: int, st: FaultState): (ps': seq<Proc>)
    ensures |ps'| == |ps|
    ensures forall j :: 0 <= j < |ps| ==> ps'[j].pid == ps[j].pid && ps'[j].role == ps[j].role
    ensures forall j :: 0 <= j < |ps| ==>
              ps'[j].state == (if ps[j].pid == pid then st else ps[j].state)
  {
    if |ps| == 0 then []
    else [if ps[0].pid == pid then ps[0].(state := st) else ps[0]] + SetState(ps[1..], pid, st)
  }

  /** Setting a state keeps the invariant, and leaves a registry without the
      pid as it was. */
  lemma SetStateFacts(r: Registry, pid: int, st: FaultState)
    ensures Valid(r) ==> Valid(r.(procs := SetState(r.procs, pid, st)))
    ensures !HasPid(r.procs, pid) ==> SetState(r.procs, pid, st) == r.procs
  {
    var ps := r.procs;
    var ps' := SetState(ps, pid, st);
    if Valid(r) {
      assert PrimaryFirst(ps') by {
        assert ps'[0].role == ps[0].role;
      }
      assert Ascending(ps') by {
        forall i, j | 0 <= i < j < |ps'|
          ensures ps'[i].pid < ps'[j].pid
        {
          assert ps'[i].pid == ps[i].pid && ps'[j].pid == ps[j].pid;
        }
      }
      assert PidsBelow(ps', r.maxPid) by {
        forall i | 0 <= i < |ps'|
          ensures 1 <= ps'[i].pid < r.maxPid
        {
          assert ps'[i].pid == ps[i].pid;
        }
      }
    }
    if !HasPid(ps, pid) {
      forall j | 0 <= j < |ps'|
        ensures ps'[j] == ps[j]
      {
        assert ps[j].pid != pid;
      }
    }
  }

  /** One listed general: its id, its role name in lower case and its state name. */
  datatype Entry = Entry(pid: int, role: string, state: string)

  function RoleName(role: Role): string {
    match role
    case Primary => "primary"
    case Secondary => "secondary"
  }

  function StateName(st: FaultState): string {
    match st
    case NonFaulty => "NF"
    case Faulty => "F"
  }

  function ShowEntry(p: Proc): Entry {
    Entry(p.pid, RoleName(p.role), StateName(p.state))
  }

  /** g-state without argument: one entry per general, in registry order. */
  function Listing(r: Registry): (es: seq<Entry>)
    ensures |es| == |r.procs|
  {
    seq(|r.procs|, i requires 0 <= i < |r.procs| => ShowEntry(r.procs[i]))
  }

  function ReadRole(s: string): Option<Role> {
    if s == "primary" then Some(Primary)
    else if s == "secondary" then Some(Secondary)
    else None
  }

  function ReadState(s: string): Option<FaultState> {
    if s == "NF" then Some(NonFaulty)
    else if s == "F" then Some(Faulty)
    else None
  }

  /** Reads a listing back into records; None when an entry names no role or
      state. */
  function ReadListing(es: seq<Entry>): Option<seq<Proc>> {
    if |es| == 0 then Some([])
    else
      match (ReadRole(es[0].role), ReadState(es[0].state), ReadListing(es[1..]))
      case (Some(role), Some(st), Some(tail)) => Some([Proc(es[0].pid, role, st)] + tail)
      case _ => None
  }

  /** The listing loses nothing: every general's id, role and state can be read
      back from it, in registry order. */
  lemma {:induction false} ListingRoundTrip(r: Registry)
    ensures ReadListing(Listing(r)) == Some(r.procs)
    decreases |r.procs|
  {
    var es := Listing(r);
    if |r.procs| > 0 {
      var r1 := r.(procs := r.procs[1..]);
      assert es[1..] == Listing(r1);
      ListingRoundTrip(r1);
      assert es[0] == ShowEntry(r.procs[0]);
      assert ReadRole(RoleName(r.procs[0].role)) == Some(r.procs[0].role);
      assert ReadState(StateName(r.procs[0].state)) == Some(r.procs[0].state);
      assert r.procs == [r.procs[0]] + r1.procs;
    }
  }
}
