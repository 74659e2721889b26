/** Whole runs of the address manager (src/addrman.cpp). */
module AddrManRuns {
  import opened AddrManTables
  import opened AddrMans
  import opened AddrManChecks

  /** One call, with the time and the random choices it meets. */
  datatype Op =
    | Add(addr: Service, services: set<nat>, time: int, source: Source, selfAnnounced: bool, penalty: int, now: int,
        luck: bool)
    | Good(addr: Service, testBeforeEvict: bool, now: int)
    | Attempt(addr: Service, countFailure: bool, now: int)
    | Connected(addr: Service, now: int)
    | SetServices(addr: Service, services: set<nat>)
    | ResolveCollisions(now: int)
    | SelectTriedCollision(choice: nat)

  /** The clock does not read 0 or less. */
  predicate Timely(op: Op) {
    match op
    case Good(_, _, now) => now > 0
    case Attempt(_, _, now) => now > 0
    case ResolveCollisions(now) => now > 0
    case _ => true
  }

  method Step(m: AddrManImpl, op: Op)
    requires m.Valid() && Timely(op)
    modifies m
    ensures m.Valid() && Grows(old(m.View()), m.View())
  {
    hide Consistent, CollisionsOk, Grows;
    GrowsSelf(m.p, m.View());
    match op {
      case Add(addr, services, time, source, selfAnnounced, penalty, now, luck) =>
        var _ := m.AddSingle(addr, services, time, source, selfAnnounced, penalty, now, luck);
      case Good(addr, testBeforeEvict, now) =>
        var _ := m.Good_(addr, testBeforeEvict, now);
      case Attempt(addr, countFailure, now) => m.Attempt_(addr, countFailure, now);
      case Connected(addr, now) => m.Connected_(addr, now);
      case SetServices(addr, services) => m.SetServices_(addr, services);
      case ResolveCollisions(now) => m.ResolveCollisions_(now);
      case SelectTriedCollision(choice) =>
        if choice in m.triedCollisions {
          var _ := m.SelectTriedCollision_(choice);
        }
    }
  }

  /** The check passes whenever the tables are valid. */
  method SelfCheck(m: AddrManImpl) returns (err: int)
    requires m.Valid()
    ensures err == 0
  {
    hide Consistent, CollisionsOk, Checked, InArray;
    ConsistentInArray(m.p, m.View());
    ConsistentChecked(m.p, m.View());
    err := CheckAddrman(m.p, m.View(), false);
  }

  /** From empty tables, the consistency check returns 0 after every operation of every run. */
  method Run(p: Params, ops: seq<Op>) returns (errs: seq<int>)
    requires forall i {:trigger ops[i]} :: 0 <= i < |ops| ==> Timely(ops[i])
    ensures |errs| == |ops| + 1 && forall i {:trigger errs[i]} :: 0 <= i < |errs| ==> errs[i] == 0
  {
    var m := new AddrManImpl(p);
    hide Consistent, CollisionsOk;
    var err := SelfCheck(m);
    errs := [err];
    for i := 0 to |ops|
      invariant m.Valid() && |errs| == i + 1 && forall k {:trigger errs[k]} :: 0 <= k < |errs| ==> errs[k] == 0
    {
      Step(m, ops[i]);
      err := SelfCheck(m);
      errs := errs + [err];
    }
  }
}
