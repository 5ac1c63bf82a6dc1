/**
  RID allocation (`iron_store::ridpool`): any number of processes run the
  read, compare, write loop against one durable counter. A run is any sequence
  of their steps, so every interleaving is one; a commit whose reply is lost
  and a process that dies at any point are steps too.
 */
module RidPool {
  import opened Arithmetic
  import opened WellKnownRids

  const FIRST_ALLOCATABLE_RID: nat := 1000

  /** The counter is a `u32`: `current + 1` wraps. */
  const LIMIT: nat := 0x1_0000_0000

  type Process = nat

  /** The pool key: missing, a decimal number, or text that does not parse. */
  datatype Cell = Absent | Number(n: nat) | Garbage(text: string)

  /** What a process holds between its read and its transaction. */
  datatype Phase = Idle | Seen(cell: Cell)

  /** One successful transaction, and whether its reply reached the caller. */
  datatype Commit = Commit(rid: nat, replied: bool)

  datatype State = State(cell: Cell, phases: map<Process, Phase>, commits: seq<Commit>)

  datatype Step =
    | Read(p: Process)
    | Transact(p: Process, replied: bool)
    | Die(p: Process)

  function PhaseOf(s: State, p: Process): Phase {
    if p in s.phases then s.phases[p] else Idle
  }

  /** The RID a caller gets if its guard on `c` holds. */
  function Current(c: Cell): nat {
    if c.Number? then c.n else FIRST_ALLOCATABLE_RID
  }

  /** One step of one process. A step that the process cannot take does nothing. */
  function Apply(s: State, step: Step): State {
    match step
    case Read(p) =>
      if PhaseOf(s, p).Idle? && !s.cell.Garbage? then s.(phases := s.phases[p := Seen(s.cell)])
      else s
    case Transact(p, replied) =>
      (match PhaseOf(s, p)
       case Idle => s
       case Seen(c) =>
         var done := s.(phases := s.phases[p := Idle]);
         if s.cell == c then
           done.(cell := Number((Current(c) + 1) % LIMIT), commits := s.commits + [Commit(Current(c), replied)])
         else done)
    case Die(p) => s.(phases := s.phases[p := Idle])
  }

  function Run(s: State, steps: seq<Step>): State {
    if steps == [] then s else Apply(Run(s, steps[..|steps| - 1]), steps[|steps| - 1])
  }

  /** A pool nobody is using: no key yet, or a counter left by earlier runs. */
  predicate Init(s: State) {
    && s.phases == map[]
    && s.commits == []
    && (s.cell == Absent || (s.cell.Number? && s.cell.n < LIMIT))
  }

  /** Commit `i` takes the counter's starting value plus `i`; a process holding
      an unparsable cell cannot exist. */
  ghost predicate Inv(base: nat, s: State) {
    && (forall i :: 0 <= i < |s.commits| ==> s.commits[i].rid == (base + i) % LIMIT)
    && (if s.commits == [] then Current(s.cell) == base && !s.cell.Garbage?
        else s.cell == Number((base + |s.commits|) % LIMIT))
    && forall p :: p in s.phases && s.phases[p].Seen? ==> !s.phases[p].cell.Garbage?
  }

  lemma ApplyKeepsInv(base: nat, s: State, step: Step)
    requires base < LIMIT && Inv(base, s)
    ensures Inv(base, Apply(s, step))
  {
    if step.Transact? {
      TransactKeepsInv(base, s, step.p, step.replied);
    }
  }

  lemma TransactKeepsInv(base: nat, s: State, p: Process, replied: bool)
    requires base < LIMIT && Inv(base, s)
    ensures Inv(base, Apply(s, Transact(p, replied)))
  {
    NextRemainder(base + |s.commits|);
    var c := PhaseOf(s, p);
    if c.Seen? && c.cell == s.cell {
      CommitFollows(base, s, Apply(s, Transact(p, replied)));
    }
  }

  lemma NextRemainder(a: nat)
    ensures (a % LIMIT + 1) % LIMIT == (a + 1) % LIMIT
  {
    var q, r := a / LIMIT, a % LIMIT;
    if r + 1 < LIMIT {
      DivisionUnique(a + 1, LIMIT, q, r + 1);
    } else {
      DivisionUnique(a + 1, LIMIT, q + 1, 0);
    }
  }

  /** One more commit, with the number that was due. */
  lemma CommitFollows(base: nat, s: State, t: State)
    requires base < LIMIT && Inv(base, s) && |t.commits| == |s.commits| + 1 && s.commits <= t.commits
    requires t.commits[|s.commits|].rid == Current(s.cell) && t.cell == Number((base + |t.commits|) % LIMIT)
    requires forall p :: p in t.phases && t.phases[p].Seen? ==> p in s.phases && t.phases[p] == s.phases[p]
    ensures Inv(base, t)
  {
    Remainder(base);
  }

  /** The interleaved loop is an atomic fetch-and-increment: the commits of any
      run, in order, carry consecutive numbers from the starting value. */
  lemma {:induction false} RunIsFetchAndAdd(s: State, steps: seq<Step>)
    requires Init(s)
    ensures Inv(Current(s.cell), Run(s, steps))
    ensures forall i :: 0 <= i < |Run(s, steps).commits| ==>
              Run(s, steps).commits[i].rid == ((if s.cell.Number? then s.cell.n else 1000) + i) % 0x1_0000_0000
  {
    if steps != [] {
      RunIsFetchAndAdd(s, steps[..|steps| - 1]);
      ApplyKeepsInv(Current(s.cell), Run(s, steps[..|steps| - 1]), steps[|steps| - 1]);
    }
  }

  ghost predicate NoneTwice(commits: seq<Commit>) {
    forall i, j :: 0 <= i < j < |commits| ==> commits[i].rid != commits[j].rid
  }

  ghost predicate NoneReserved(commits: seq<Commit>) {
    forall i :: 0 <= i < |commits| ==> commits[i].rid >= 1000
  }

  ghost predicate CounterAbove(s: State) {
    forall i :: 0 <= i < |s.commits| ==> s.cell.Number? && s.commits[i].rid < s.cell.n
  }

  lemma Remainder(a: nat)
    ensures a < LIMIT ==> a % LIMIT == a
    ensures LIMIT <= a < 2 * LIMIT ==> a % LIMIT == a - LIMIT
  {
  }

  lemma TwiceEnd(base: nat, end: State)
    requires base < LIMIT && Inv(base, end)
    ensures NoneTwice(end.commits) <==> |end.commits| <= LIMIT
  {
    if |end.commits| > LIMIT {
      Remainder(base);
      Remainder(base + LIMIT);
      assert end.commits[0].rid == (base + 0) % LIMIT;
      assert end.commits[LIMIT].rid == (base + LIMIT) % LIMIT;
    } else {
      forall i, j | 0 <= i < j < |end.commits|
        ensures end.commits[i].rid != end.commits[j].rid
      {
        Remainder(base + i);
        Remainder(base + j);
      }
    }
  }

  lemma ReservedEnd(base: nat, end: State)
    requires base < LIMIT && Inv(base, end) && end.commits != []
    ensures NoneReserved(end.commits) <==> base >= FIRST_ALLOCATABLE_RID && base + |end.commits| <= LIMIT
  {
    Remainder(base);
    assert end.commits[0].rid == (base + 0) % LIMIT;
    if base + |end.commits| > LIMIT {
      assert end.commits[LIMIT - base].rid == 0;
    } else {
      forall i | 0 <= i < |end.commits|
        ensures end.commits[i].rid == base + i
      {
        Remainder(base + i);
      }
    }
  }

  lemma CounterEnd(base: nat, end: State)
    requires base < LIMIT && Inv(base, end) && end.commits != []
    ensures CounterAbove(end) <==> base + |end.commits| < LIMIT
  {
    var n := |end.commits|;
    if base + n >= LIMIT {
      Remainder(LIMIT - 1);
      assert end.commits[LIMIT - 1 - base].rid == LIMIT - 1;
    } else {
      Remainder(base + n);
      forall i | 0 <= i < n
        ensures end.commits[i].rid < end.cell.n
      {
        Remainder(base + i);
      }
    }
  }

  /** Exactly how far each promise reaches on the wrapping counter. */
  lemma HowFarRidsReach(s: State, steps: seq<Step>)
    requires Init(s)
    ensures var base, end := if s.cell.Number? then s.cell.n else 1000, Run(s, steps);
            && (NoneTwice(end.commits) <==> |end.commits| <= 0x1_0000_0000)
            && (end.commits != [] ==>
                  && (NoneReserved(end.commits) <==> base >= 1000 && base + |end.commits| <= 0x1_0000_0000)
                  && (CounterAbove(end) <==> base + |end.commits| < 0x1_0000_0000))
  {
    RunIsFetchAndAdd(s, steps);
    var base, end := Current(s.cell), Run(s, steps);
    TwiceEnd(base, end);
    if end.commits != [] {
      ReservedEnd(base, end);
      CounterEnd(base, end);
    }
  }

  /** While the counter has not reached its end, no two calls anywhere get the
      same RID, none gets a well-known one, and the counter is past them all. */
  lemma RidsAreUnique(s: State, steps: seq<Step>)
    requires Init(s) && (s.cell.Number? ==> s.cell.n >= 1000)
    requires (if s.cell.Number? then s.cell.n else 1000) + |Run(s, steps).commits| < 0x1_0000_0000
    ensures NoneTwice(Run(s, steps).commits)
    ensures forall i :: 0 <= i < |Run(s, steps).commits| ==>
              Run(s, steps).commits[i].rid !in {500, 502, ADMINISTRATOR_RID, KRBTGT_RID}
    ensures NoneReserved(Run(s, steps).commits) && CounterAbove(Run(s, steps))
  {
    HowFarRidsReach(s, steps);
  }

  /** A pool at the last number: two allocations hand out it and then zero. */
  lemma CounterWraps()
    ensures var s := State(Number(LIMIT - 1), map[], []);
            var steps := [Read(0), Transact(0, true), Read(0), Transact(0, true)];
            && Init(s) && Run(s, steps).commits == [Commit(LIMIT - 1, true), Commit(0, true)]
            && !NoneReserved(Run(s, steps).commits) && !CounterAbove(Run(s, steps))
  {
    var s := State(Number(LIMIT - 1), map[], []);
    var once := [Read(0), Transact(0, true)];
    OneAllocation(s, 0);
    OneAllocation(Run(s, once), 0);
    RunConcat(s, once, once);
    assert once + once == [Read(0), Transact(0, true), Read(0), Transact(0, true)];
    var end := Run(s, once + once);
    assert end.cell == Number(1) && end.commits[0].rid == LIMIT - 1 && end.commits[1].rid == 0;
  }

  /** A process that is alone takes the number and moves the counter on. */
  lemma OneAllocation(s: State, p: Process)
    requires PhaseOf(s, p).Idle? && s.cell.Number?
    ensures var end := Run(s, [Read(p), Transact(p, true)]);
            && end.cell == Number((s.cell.n + 1) % LIMIT) && end.commits == s.commits + [Commit(s.cell.n, true)]
            && PhaseOf(end, p).Idle?
  {
    RunTwo(s, Read(p), Transact(p, true));
    UndisturbedWins(Apply(s, Read(p)), p);
  }

  lemma RunTwo(s: State, a: Step, b: Step)
    ensures Run(s, [a, b]) == Apply(Apply(s, a), b)
  {
    RunOne(s, a);
    RunOne(Apply(s, a), b);
    RunConcat(s, [a], [b]);
    assert [a] + [b] == [a, b];
  }

  lemma UndisturbedWins(t: State, p: Process)
    requires t.cell.Number? && PhaseOf(t, p) == Seen(t.cell)
    ensures var end := Apply(t, Transact(p, true));
            && end.cell == Number((t.cell.n + 1) % LIMIT) && end.commits == t.commits + [Commit(t.cell.n, true)]
            && PhaseOf(end, p).Idle?
  {
  }

  /** A cell that does not parse is left as it is: no run commits anything on it. */
  lemma {:induction false} GarbageStays(s: State, steps: seq<Step>)
    requires s.cell.Garbage? && forall p :: p in s.phases ==> s.phases[p].Idle?
    ensures var end := Run(s, steps);
            && end.cell == s.cell && end.commits == s.commits && forall p :: p in end.phases ==> end.phases[p].Idle?
  {
    if steps != [] {
      GarbageStays(s, steps[..|steps| - 1]);
    }
  }

  // ------------------------------------------------------------------ one call

  lemma {:induction false} RunConcat(s: State, a: seq<Step>, b: seq<Step>)
    ensures Run(s, a + b) == Run(Run(s, a), b)
  {
    if b == [] {
      assert a + b == a;
    } else {
      RunConcat(s, a, b[..|b| - 1]);
      assert (a + b)[..|a + b| - 1] == a + b[..|b| - 1];
    }
  }

  lemma RunOne(s: State, step: Step)
    ensures Run(s, [step]) == Apply(s, step)
  {
    assert [step][..0] == [];
  }

  predicate StepsOfOthers(p: Process, steps: seq<Step>) {
    forall i :: 0 <= i < |steps| ==> steps[i].p != p
  }

  lemma {:induction false} OthersLeaveAlone(p: Process, s: State, steps: seq<Step>)
    requires StepsOfOthers(p, steps)
    ensures PhaseOf(Run(s, steps), p) == PhaseOf(s, p)
  {
    if steps != [] {
      OthersLeaveAlone(p, s, steps[..|steps| - 1]);
    }
  }

  /** What may befall one attempt besides losing: the store does not answer the
      read, does not take the transaction, or takes it and the reply is lost. */
  datatype Fate = Answered | ReadFails | WriteFails | ReplyLost

  /** What happens around one attempt: the steps of the others before its read, and
      those between its read and its transaction. */
  datatype Turn = Turn(beforeRead: seq<Step>, beforeWrite: seq<Step>, fate: Fate)

  predicate TurnOfOthers(p: Process, turn: Turn) {
    StepsOfOthers(p, turn.beforeRead) && StepsOfOthers(p, turn.beforeWrite)
  }

  datatype Outcome = Unreadable | Lost | Failed | Won(rid: nat)

  /** What the caller gets. */
  datatype Answer = Allocated(rid: nat) | Corrupt | StoreError

  class Pool {
    var state: State

    constructor (s: State)
      ensures state == s
    {
      state := s;
    }

    /** Some steps of the protocol, added to those of a call. */
    method Take(more: seq<Step>, ghost start: State, ghost steps: seq<Step>)
      requires state == Run(start, steps)
      modifies this
      ensures state == Run(old(state), more) == Run(start, steps + more)
    {
      state := Run(state, more);
      RunConcat(start, steps, more);
    }

    /** The transaction: it holds if the cell is as the process saw it. */
    method Transaction(p: Process, seen: Cell, fate: Fate) returns (outcome: Outcome, ghost steps: seq<Step>)
      requires PhaseOf(state, p) == Seen(seen)
      modifies this
      ensures state == Run(old(state), steps) && PhaseOf(state, p).Idle?
      ensures !outcome.Unreadable? && (outcome.Failed? <==> fate.WriteFails? || fate.ReplyLost?)
      ensures outcome.Lost? ==> old(state).cell != seen
      ensures outcome.Won? ==> state.commits == old(state).commits + [Commit(outcome.rid, true)]
      ensures !outcome.Won? && state.commits != old(state).commits ==>
                state.commits == old(state).commits + [Commit(Current(seen), false)]
    {
      var won := state.cell == seen;
      var step := if fate.WriteFails? then Die(p) else Transact(p, !fate.ReplyLost?);
      RunOne(state, step);
      Take([step], state, []);
      steps := [] + [step];
      outcome := if fate.WriteFails? || fate.ReplyLost? then Failed else if won then Won(Current(seen)) else Lost;
    }

    /** One turn of the loop. */
    method Attempt(p: Process, turn: Turn) returns (outcome: Outcome, ghost steps: seq<Step>)
      requires PhaseOf(state, p).Idle? && TurnOfOthers(p, turn)
      modifies this
      ensures state == Run(old(state), steps) && PhaseOf(state, p).Idle?
      ensures outcome.Unreadable? ==> state.cell.Garbage?
      ensures outcome.Lost? ==> turn.beforeWrite != []
      ensures outcome.Failed? ==> !turn.fate.Answered?
      ensures outcome.Won? ==> state.commits != [] && state.commits[|state.commits| - 1] == Commit(outcome.rid, true)
    {
      OthersLeaveAlone(p, state, turn.beforeRead);
      Take(turn.beforeRead, state, []);
      steps := [] + turn.beforeRead;
      if turn.fate.ReadFails? {
        return Failed, steps;
      }
      var seen := state.cell;
      if seen.Garbage? {
        return Unreadable, steps;
      }
      RunOne(state, Read(p));
      Take([Read(p)], old(state), steps);
      steps := steps + [Read(p)];
      OthersLeaveAlone(p, state, turn.beforeWrite);
      Take(turn.beforeWrite, old(state), steps);
      steps := steps + turn.beforeWrite;
      ghost var more;
      outcome, more := Transaction(p, seen, turn.fate);
      RunConcat(old(state), steps, more);
      steps := steps + more;
    }

    /** `allocate_rid` by process `p`, with the turns the attempts take. The call is
        a run of the protocol. It returns the number of its own commit, the last
        one; or says that the cell does not parse; or that the store failed it, and
        then some attempt did not get its answer. */
    method AllocateRid(p: Process, turns: seq<Turn>) returns (answer: Answer, ghost steps: seq<Step>)
      requires PhaseOf(state, p).Idle? && forall i :: 0 <= i < |turns| ==> TurnOfOthers(p, turns[i])
      modifies this
      ensures state == Run(old(state), steps) && PhaseOf(state, p).Idle?
      ensures answer.Corrupt? ==> state.cell.Garbage?
      ensures answer.Allocated? ==>
                state.commits != [] && state.commits[|state.commits| - 1] == Commit(answer.rid, true)
      ensures answer.StoreError? ==> exists i :: 0 <= i < |turns| && !turns[i].fate.Answered?
    {
      steps := [];
      var attempt := 0;
      while true
        invariant attempt <= |turns| && state == Run(old(state), steps) && PhaseOf(state, p).Idle?
        decreases |turns| - attempt
      {
        var turn := if attempt < |turns| then turns[attempt] else Turn([], [], Answered);
        var outcome, more := Attempt(p, turn);
        RunConcat(old(state), steps, more);
        steps := steps + more;
        match outcome
        case Unreadable => return Corrupt, steps;
        case Failed => return StoreError, steps;
        case Won(n) => return Allocated(n), steps;
        case Lost => attempt := attempt + 1;
      }
    }
  }
}
