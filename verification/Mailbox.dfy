/**
 The shared packet of RealTimeIPC and the operations on it, at the grain of the named mutex:
 every operation copies the packet out under the lock, edits the copy, and copies it back
 under the lock again.  Any number of processes may run between the two copies.
 */
module Mailbox {
  type Byte = x: int | 0 <= x < 256

  /** The mapped region: the header fields and the payload. */
  datatype Packet = Packet(bond: Byte, rt: Byte, time: real, payload: seq<Byte>)

  function Zeros(n: nat): (r: seq<Byte>)
    ensures |r| == n && forall i :: 0 <= i < n ==> r[i] == 0
  {
    seq(n, _ => 0)
  }

  /** The region as the server's init leaves it, for n payload bytes. */
  function Blank(n: nat): Packet {
    Packet(0, 0, 0.0, Zeros(n))
  }

  datatype Op =
    | Bond
    | BreakBond
    | SetHardRT
    | SetSoftRT
    | Update(time: real, payload: seq<Byte>)

  datatype Option<+T> = None | Some(value: T)

  /** The packet an operation writes back having read p; None when it returns without writing. */
  function Edit(op: Op, p: Packet): Option<Packet> {
    match op
    case Bond => if p.bond == 1 then None else Some(p.(bond := 1))
    case BreakBond => Some(p.(rt := 0, bond := 0))
    case SetHardRT => Some(p.(rt := 1))
    case SetSoftRT => Some(p.(rt := 0))
    case Update(time, payload) =>
      Some(if p.bond == 1 then p.(time := time, payload := payload) else p)
  }

  /** What an operation that read p reports: only bond can refuse. */
  predicate Succeeds(op: Op, p: Packet) {
    Edit(op, p).Some?
  }

  /** What the region holds after an operation that read `seen` writes back onto `now`. */
  function WriteBack(op: Op, seen: Packet, now: Packet): Packet {
    match Edit(op, seen)
    case None => now
    case Some(p) => p
  }

  /** The operation as one uninterrupted step. */
  function Atomic(op: Op, p: Packet): Packet {
    WriteBack(op, p, p)
  }

  // ----- Interleaving

  datatype Process = Idle | Holding(op: Op, seen: Packet)

  datatype System = System(shared: Packet, procs: seq<Process>)

  /** Copying the packet out at the start of an operation, and copying the edited one back. */
  datatype Action = Get(pid: nat, op: Op) | Put(pid: nat)

  /** An update of another size than the region is refused before it copies anything. */
  predicate Can(s: System, a: Action) {
    && a.pid < |s.procs|
    && (a.Get? <==> s.procs[a.pid].Idle?)
    && (a.Get? && a.op.Update? ==> |a.op.payload| == |s.shared.payload|)
  }

  /**
   An operation that refuses on what it has read returns at once and never copies back.  An
   action its process cannot take leaves the system as it is.
   */
  function Step(s: System, a: Action): System {
    if !Can(s, a) then s
    else match a
         case Get(pid, op) =>
           if Succeeds(op, s.shared) then s.(procs := s.procs[pid := Holding(op, s.shared)]) else s
         case Put(pid) =>
           System(WriteBack(s.procs[pid].op, s.procs[pid].seen, s.shared), s.procs[pid := Idle])
  }

  /** The system after a schedule. */
  function After(s: System, acts: seq<Action>): System {
    if acts == [] then s else Step(After(s, acts[..|acts| - 1]), acts[|acts| - 1])
  }

  function Start(n: nat, processes: nat): System {
    System(Blank(n), seq(processes, _ => Idle))
  }

  // ----- Operations one after the other

  function AtomicAll(p: Packet, ops: seq<Op>): Packet {
    if ops == [] then p else Atomic(ops[|ops| - 1], AtomicAll(p, ops[..|ops| - 1]))
  }

  /** What each of them reports: bond refuses a bonded region, the others never refuse. */
  function AtomicResults(p: Packet, ops: seq<Op>): seq<bool> {
    if ops == [] then []
    else
      var before := ops[..|ops| - 1];
      AtomicResults(p, before) + [Succeeds(ops[|ops| - 1], AtomicAll(p, before))]
  }

  lemma {:induction false} AtomicResultAt(p: Packet, ops: seq<Op>, i: nat)
    requires i < |ops|
    ensures |AtomicResults(p, ops)| == |ops|
    ensures AtomicResults(p, ops)[i] == Succeeds(ops[i], AtomicAll(p, ops[..i]))
  {
    var n := |ops| - 1;
    if n == 0 {
      assert AtomicResults(p, ops[..n]) == [];
    } else {
      AtomicResultAt(p, ops[..n], if i < n then i else 0);
      assert i < n ==> ops[..n][..i] == ops[..i];
    }
  }

  /** ops[k] is a bond that no later operation breaks. */
  predicate OpenBond(ops: seq<Op>, k: nat) {
    k < |ops| && ops[k] == Bond && forall j :: k < j < |ops| ==> ops[j] != BreakBond
  }

  /** The flag is set exactly when some bond has not been broken since. */
  lemma {:induction false} FlagIsOpenBond(n: nat, ops: seq<Op>)
    ensures AtomicAll(Blank(n), ops).bond <= 1
    ensures AtomicAll(Blank(n), ops).bond == 1 <==> exists k: nat :: OpenBond(ops, k)
  {
    if ops != [] {
      var before, op := ops[..|ops| - 1], ops[|ops| - 1];
      FlagIsOpenBond(n, before);
      if op == Bond {
        assert OpenBond(ops, |before|);
      } else if op != BreakBond && exists k: nat :: OpenBond(before, k) {
        var k: nat :| OpenBond(before, k);
        assert OpenBond(ops, k);
      }
      if exists k: nat :: OpenBond(ops, k) {
        var k: nat :| OpenBond(ops, k);
        assert op == Bond || OpenBond(before, k);
      }
    }
  }

  /**
   From the blank region, a bond succeeds exactly when a breakBond lies between it and every
   earlier bond, whatever updates and mode changes are mixed in.  So two successes always
   have a breakBond between them, and the first bond succeeds.
   */
  lemma AtomicBondingAlternates(n: nat, ops: seq<Op>, i: nat)
    requires i < |ops| && ops[i] == Bond
    ensures |AtomicResults(Blank(n), ops)| == |ops|
    ensures AtomicResults(Blank(n), ops)[i] <==>
            forall k :: 0 <= k < i && ops[k] == Bond ==> exists j :: k < j < i && ops[j] == BreakBond
  {
    AtomicResultAt(Blank(n), ops, i);
    FlagIsOpenBond(n, ops[..i]);
    if AtomicAll(Blank(n), ops[..i]).bond != 1 {
      forall k | 0 <= k < i && ops[k] == Bond
        ensures exists j :: k < j < i && ops[j] == BreakBond
      {
        assert !OpenBond(ops[..i], k);
      }
    } else {
      var k: nat :| OpenBond(ops[..i], k);
      assert ops[k] == Bond && forall j :: k < j < i ==> ops[..i][j] == ops[j];
    }
  }

  /** ops[k] asks for hard RT and nothing after it takes that back. */
  predicate LastingHardRT(ops: seq<Op>, k: nat) {
    k < |ops| && ops[k] == SetHardRT && forall j :: k < j < |ops| ==> ops[j] != SetSoftRT && ops[j] != BreakBond
  }

  /** The RT flag is set exactly when some setHardRT has been followed by neither a setSoftRT nor a breakBond. */
  lemma {:induction false} FlagIsLastingHardRT(n: nat, ops: seq<Op>)
    ensures AtomicAll(Blank(n), ops).rt <= 1
    ensures AtomicAll(Blank(n), ops).rt == 1 <==> exists k: nat :: LastingHardRT(ops, k)
  {
    if ops != [] {
      var before, op := ops[..|ops| - 1], ops[|ops| - 1];
      FlagIsLastingHardRT(n, before);
      if op == SetHardRT {
        assert LastingHardRT(ops, |before|);
      } else if op != SetSoftRT && op != BreakBond && exists k: nat :: LastingHardRT(before, k) {
        var k: nat :| LastingHardRT(before, k);
        assert LastingHardRT(ops, k);
      }
      if exists k: nat :: LastingHardRT(ops, k) {
        var k: nat :| LastingHardRT(ops, k);
        assert op == SetHardRT || LastingHardRT(before, k);
      }
    }
  }

  /** ops[k] is an update made while bonded. */
  ghost predicate Publishes(ops: seq<Op>, k: nat) {
    k < |ops| && ops[k].Update? && exists j: nat :: OpenBond(ops[..k], j)
  }

  /** Stamp and bytes are those of the last update made while bonded, or the initial zeros. */
  lemma {:induction false} ContentIsLastPublished(n: nat, ops: seq<Op>, k: nat)
    requires Publishes(ops, k) || k == 0
    requires forall j: nat :: Publishes(ops, j) ==> j <= k
    ensures var p := AtomicAll(Blank(n), ops);
            if Publishes(ops, k) then p.time == ops[k].time && p.payload == ops[k].payload
            else p.time == 0.0 && p.payload == Zeros(n)
  {
    if ops != [] {
      var before, op := ops[..|ops| - 1], ops[|ops| - 1];
      FlagIsOpenBond(n, before);
      forall j: nat ensures j < |before| ==> (Publishes(before, j) <==> Publishes(ops, j)) {
        if j < |before| {
          assert before[..j] == ops[..j];
        }
      }
      if Publishes(ops, |before|) {
        assert k == |before|;
      } else {
        assert !Publishes(before, |before|);
        ContentIsLastPublished(n, before, k);
      }
    }
  }
}
