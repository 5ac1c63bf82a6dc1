/** Provisioning one domain by any number of members at once (`iron-bootstrap`):
    every request to the store is one atomic step, and a member may stop after
    any step and start over. */
module Provision {
  import opened Options
  import opened DistinguishedNames
  import opened WellKnownRids

  type Sid = string

  datatype Settings = Settings(base: Dn, realm: string, netbios: string)

  /** The root domain's record in the configuration partition. */
  datatype Record = Record(base: Dn, realm: Option<string>, netbios: Option<string>, sid: Option<Sid>)

  datatype Account = Account(domain: Sid, rid: nat)

  /** What the store holds of the domain. An account's entry and its indexed
      principal name are written together, but either may be there before. */
  datatype Store = Store(
    config: bool,
    schema: bool,
    root: Option<Record>,
    base: Option<Sid>,
    krbtgt: Option<Account>,
    krbtgtNamed: bool,
    admin: Option<Account>,
    adminNamed: bool)

  const EMPTY := Store(false, false, None, None, None, false, None, false)

  datatype Object = Config | Schema | Root | Filled | Base | Krbtgt | Admin

  /** `check_matches` */
  predicate Matches(r: Record, st: Settings) {
    SameDn(r.base, st.base) && r.realm == Some(st.realm)
  }

  function NewRecord(st: Settings, sid: Sid): Record {
    Record(st.base, Some(st.realm), Some(st.netbios), Some(sid))
  }

  function FilledIn(r: Record, st: Settings, sid: Sid): (f: Record)
    ensures f.sid.Some? && f.netbios.Some?
  {
    r.(sid := if r.sid.None? then Some(sid) else r.sid,
       netbios := if r.netbios.None? then Some(st.netbios) else r.netbios)
  }

  // -------------------------------------------------------------- one request

  datatype Pc =
    | Idle | AtConfig | AtSchema | AtRoot | AtLoad | AtFill(record: Record) | AtBase
    | AtKrbtgtLookup | AtKrbtgt | AtAdminLookup | AtAdminRead | AtAdmin | Done | Failed

  /** `sid` is the member's fresh SID before the record is loaded, and the
      domain's SID after. */
  datatype Member = Member(pc: Pc, sid: Sid)

  datatype Outcome = Outcome(store: Store, member: Member, created: Option<Object>)

  function CreateIf(missing: bool, o: Object): Option<Object> {
    if missing then Some(o) else None
  }

  /** The next request of a member, with the SID a random draw would give. */
  function Tick(st: Settings, s: Store, m: Member, drawn: Sid): Outcome {
    match m.pc
    case Idle => Outcome(s, Member(AtConfig, drawn), None)
    case AtConfig => Outcome(s.(config := true), m.(pc := AtSchema), CreateIf(!s.config, Config))
    case AtSchema => Outcome(s.(schema := true), m.(pc := AtRoot), CreateIf(!s.schema, Schema))
    case AtRoot =>
      Outcome(if s.root.None? then s.(root := Some(NewRecord(st, m.sid))) else s, m.(pc := AtLoad),
              CreateIf(s.root.None?, Root))
    case AtLoad => Load(st, s, m, drawn)
    case AtFill(r) => Outcome(s.(root := Some(r)), m.(pc := AtBase), Some(Filled))
    case AtBase =>
      Outcome(if s.base.None? then s.(base := Some(m.sid)) else s, m.(pc := AtKrbtgtLookup),
              CreateIf(s.base.None?, Base))
    case AtKrbtgtLookup => Outcome(s, m.(pc := if s.krbtgtNamed then AtAdminLookup else AtKrbtgt), None)
    case AtKrbtgt =>
      Outcome(if s.krbtgt.None? then s.(krbtgt := Some(Account(m.sid, KRBTGT_RID)), krbtgtNamed := true) else s,
              m.(pc := AtAdminLookup), CreateIf(s.krbtgt.None?, Krbtgt))
    case AtAdminLookup => Outcome(s, m.(pc := if s.adminNamed then Done else AtAdminRead), None)
    case AtAdminRead => Outcome(s, m.(pc := if s.admin.Some? then Done else AtAdmin), None)
    case AtAdmin =>
      Outcome(if s.admin.None? then s.(admin := Some(Account(m.sid, ADMINISTRATOR_RID)), adminNamed := true) else s,
              m.(pc := Done), CreateIf(s.admin.None?, Admin))
    case Done => Outcome(s, m, None)
    case Failed => Outcome(s, m, None)
  }

  function Load(st: Settings, s: Store, m: Member, drawn: Sid): Outcome {
    if s.root.None? || !Matches(s.root.value, st) then Outcome(s, m.(pc := Failed), None)
    else
      var stored := s.root.value;
      var filled := FilledIn(stored, st, drawn);
      Outcome(s, Member(if filled == stored then AtBase else AtFill(filled), filled.sid.value), None)
  }

  // ------------------------------------------------------------ many members

  /** `created` counts the creations and `reports` the SIDs of finished runs. */
  datatype State = State(store: Store, members: map<nat, Member>, created: multiset<Object>, reports: set<Sid>)

  /** A member takes its next step, or stops and forgets where it was. */
  datatype Action = Step(member: nat, drawn: Sid) | Crash(member: nat)

  function MemberOf(s: State, i: nat): Member {
    if i in s.members then s.members[i] else Member(Idle, "")
  }

  function Next(st: Settings, s: State, a: Action): State {
    match a
    case Crash(i) => s.(members := s.members[i := Member(Idle, "")])
    case Step(i, drawn) =>
      var m := MemberOf(s, i);
      var o := Tick(st, s.store, m, drawn);
      State(
        o.store,
        s.members[i := o.member],
        if o.created.Some? then s.created + multiset{o.created.value} else s.created,
        if o.member.pc.Done? then s.reports + {o.member.sid} else s.reports)
  }

  function Exec(st: Settings, s: State, actions: seq<Action>): State {
    if actions == [] then s else Next(st, Exec(st, s, actions[..|actions| - 1]), actions[|actions| - 1])
  }

  function Start(store: Store): State {
    State(store, map[], multiset{}, {})
  }

  // ------------------------------------------------------- from an empty store

  function Rank(pc: Pc): nat {
    match pc
    case Idle => 0
    case AtConfig => 1
    case AtSchema => 2
    case AtRoot => 3
    case AtLoad => 4
    case AtFill(_) => 5
    case AtBase => 6
    case AtKrbtgtLookup => 7
    case AtKrbtgt => 8
    case AtAdminLookup => 9
    case AtAdminRead => 10
    case AtAdmin => 11
    case Done => 12
    case Failed => 13
  }

  predicate Complete(s: Store) {
    && s.config && s.schema && s.root.Some? && s.base.Some?
    && s.krbtgt.Some? && s.krbtgtNamed && s.admin.Some? && s.adminNamed
  }

  /** The record, where there is one, is whole, and everything carries its SID. */
  predicate OneSid(st: Settings, s: Store) {
    && (s.root.Some? ==> s.root.value.sid.Some? && s.root.value == NewRecord(st, s.root.value.sid.value))
    && (s.base.Some? ==> s.root.Some? && s.base == s.root.value.sid)
    && (s.krbtgt.Some? ==> s.root.Some? && s.root.value.sid == Some(s.krbtgt.value.domain))
    && (s.krbtgt.Some? ==> s.krbtgt.value.rid == KRBTGT_RID)
    && (s.admin.Some? ==> s.root.Some? && s.root.value.sid == Some(s.admin.value.domain))
    && (s.admin.Some? ==> s.admin.value.rid == ADMINISTRATOR_RID)
    && s.krbtgtNamed == s.krbtgt.Some? && s.adminNamed == s.admin.Some?
  }

  /** What a member has seen done is done, and it knows the SID of the record. */
  predicate MemberOk(s: Store, m: Member) {
    && !m.pc.AtFill? && !m.pc.Failed?
    && (Rank(m.pc) >= 2 ==> s.config) && (Rank(m.pc) >= 3 ==> s.schema) && (Rank(m.pc) >= 4 ==> s.root.Some?)
    && (Rank(m.pc) >= 6 ==> s.root.Some? && s.root.value.sid == Some(m.sid))
    && (Rank(m.pc) >= 7 ==> s.base.Some?) && (Rank(m.pc) >= 9 ==> s.krbtgt.Some?) && (m.pc.Done? ==> s.admin.Some?)
  }

  function Number(present: bool): nat {
    if present then 1 else 0
  }

  /** Everything there was created once. */
  predicate CreatedOnce(s: Store, created: multiset<Object>) {
    && created[Config] == Number(s.config) && created[Schema] == Number(s.schema)
    && created[Root] == Number(s.root.Some?) && created[Filled] == 0 && created[Base] == Number(s.base.Some?)
    && created[Krbtgt] == Number(s.krbtgt.Some?) && created[Admin] == Number(s.admin.Some?)
  }

  predicate Inv(st: Settings, s: State) {
    && OneSid(st, s.store)
    && MembersOk(s.store, s.members)
    && CreatedOnce(s.store, s.created)
    && ReportsOk(s.store, s.reports)
  }

  predicate MembersOk(s: Store, members: map<nat, Member>) {
    forall i :: i in members ==> MemberOk(s, members[i])
  }

  /** A report is made when everything is there, and is the SID of the record. */
  predicate ReportsOk(s: Store, reports: set<Sid>) {
    forall r :: r in reports ==> Complete(s) && s.root.value.sid == Some(r)
  }

  /** One step of one member, seen from the store. */
  lemma TickOk(st: Settings, s: Store, m: Member, drawn: Sid)
    requires OneSid(st, s) && MemberOk(s, m)
    ensures OneSid(st, Tick(st, s, m, drawn).store)
    ensures MemberOk(Tick(st, s, m, drawn).store, Tick(st, s, m, drawn).member)
  {
    if m.pc.AtRoot? || m.pc.AtLoad? {
      RecordOk(st, s, m, drawn);
    }
  }

  /** The requests that create and load the root record. */
  lemma RecordOk(st: Settings, s: Store, m: Member, drawn: Sid)
    requires OneSid(st, s) && MemberOk(s, m) && (m.pc.AtRoot? || m.pc.AtLoad?)
    ensures OneSid(st, Tick(st, s, m, drawn).store)
    ensures MemberOk(Tick(st, s, m, drawn).store, Tick(st, s, m, drawn).member)
  {
    SameDnReflexive(st.base);
  }

  /** Nothing that is there goes away or changes. */
  predicate Grows(s: Store, t: Store) {
    && (s.config ==> t.config) && (s.schema ==> t.schema) && (s.root.Some? ==> t.root == s.root)
    && (s.base.Some? ==> t.base == s.base)
    && (s.krbtgt.Some? ==> t.krbtgt == s.krbtgt && t.krbtgtNamed == s.krbtgtNamed)
    && (s.admin.Some? ==> t.admin == s.admin && t.adminNamed == s.adminNamed)
  }

  lemma TickGrows(st: Settings, s: Store, m: Member, drawn: Sid)
    requires OneSid(st, s) && MemberOk(s, m)
    ensures Grows(s, Tick(st, s, m, drawn).store)
  {
  }

  lemma TickCounts(st: Settings, s: Store, m: Member, drawn: Sid, created: multiset<Object>)
    requires OneSid(st, s) && MemberOk(s, m) && CreatedOnce(s, created)
    ensures var o := Tick(st, s, m, drawn);
            CreatedOnce(o.store, if o.created.Some? then created + multiset{o.created.value} else created)
  {
  }

  lemma MemberStaysOk(s: Store, t: Store, m: Member)
    requires MemberOk(s, m) && Grows(s, t)
    ensures MemberOk(t, m)
  {
  }

  lemma MembersStayOk(s: Store, t: Store, members: map<nat, Member>, i: nat, m: Member)
    requires MembersOk(s, members) && Grows(s, t) && MemberOk(t, m)
    ensures MembersOk(t, members[i := m])
  {
    forall j | j in members && j != i
      ensures MemberOk(t, members[j])
    {
      MemberStaysOk(s, t, members[j]);
    }
  }

  lemma ReportsStayOk(st: Settings, s: Store, t: Store, reports: set<Sid>, m: Member)
    requires ReportsOk(s, reports) && Grows(s, t) && OneSid(st, t) && MemberOk(t, m)
    ensures ReportsOk(t, if m.pc.Done? then reports + {m.sid} else reports)
  {
  }

  lemma CrashInv(st: Settings, s: State, i: nat)
    requires Inv(st, s)
    ensures Inv(st, Next(st, s, Crash(i)))
  {
    MembersStayOk(s.store, s.store, s.members, i, Member(Idle, ""));
  }

  lemma NextInv(st: Settings, s: State, a: Action)
    requires Inv(st, s)
    ensures Inv(st, Next(st, s, a)) && Grows(s.store, Next(st, s, a).store)
  {
    if a.Crash? {
      CrashInv(st, s, a.member);
    } else {
      var m := MemberOf(s, a.member);
      var o := Tick(st, s.store, m, a.drawn);
      TickOk(st, s.store, m, a.drawn);
      TickGrows(st, s.store, m, a.drawn);
      TickCounts(st, s.store, m, a.drawn, s.created);
      MembersStayOk(s.store, o.store, s.members, a.member, o.member);
      ReportsStayOk(st, s.store, o.store, s.reports, o.member);
    }
  }

  lemma {:induction false} ExecInv(st: Settings, s: State, actions: seq<Action>)
    requires Inv(st, s)
    ensures Inv(st, Exec(st, s, actions))
  {
    if actions != [] {
      ExecInv(st, s, actions[..|actions| - 1]);
      NextInv(st, Exec(st, s, actions[..|actions| - 1]), actions[|actions| - 1]);
    }
  }

  /** From an empty store, in every interleaving with crashes anywhere: finished
      members report one SID, the base entry, krbtgt (502) and administrator
      (500) are there and carry it, and each object was created at most once. */
  lemma Agreement(st: Settings, actions: seq<Action>)
    ensures var s := Exec(st, Start(EMPTY), actions);
            && (forall a, b :: a in s.reports && b in s.reports ==> a == b)
            && (forall a :: a in s.reports ==>
                  && s.store.root == Some(Record(st.base, Some(st.realm), Some(st.netbios), Some(a)))
                  && s.store.base == Some(a)
                  && s.store.krbtgt == Some(Account(a, 502)) && s.store.admin == Some(Account(a, 500)))
            && (forall o :: s.created[o] <= 1)
  {
    ExecInv(st, Start(EMPTY), actions);
    var s := Exec(st, Start(EMPTY), actions);
    forall o
      ensures s.created[o] <= 1
    {
      match o {
        case Config => case Schema => case Root => case Filled => case Base => case Krbtgt => case Admin =>
      }
    }
  }

  lemma CompleteStays(st: Settings, s: State, a: Action)
    requires Inv(st, s) && Complete(s.store)
    ensures Next(st, s, a).store == s.store && Next(st, s, a).created == s.created
  {
  }

  /** Once a run has finished, no later run changes anything. */
  lemma FinishedIsFinal(st: Settings, before: seq<Action>, after: seq<Action>)
    requires Exec(st, Start(EMPTY), before).reports != {}
    ensures Exec(st, Start(EMPTY), before + after).store == Exec(st, Start(EMPTY), before).store
    ensures Exec(st, Start(EMPTY), before + after).created == Exec(st, Start(EMPTY), before).created
  {
    ExecInv(st, Start(EMPTY), before);
    var s := Exec(st, Start(EMPTY), before);
    ReportedIsComplete(st, s);
    CompleteForGood(st, s, after);
    ExecConcat(st, Start(EMPTY), before, after);
  }

  lemma ReportedIsComplete(st: Settings, s: State)
    requires Inv(st, s) && s.reports != {}
    ensures Complete(s.store)
  {
    var r :| r in s.reports;
  }

  lemma {:induction false} CompleteForGood(st: Settings, s: State, actions: seq<Action>)
    requires Inv(st, s) && Complete(s.store)
    ensures Exec(st, s, actions).store == s.store && Exec(st, s, actions).created == s.created
  {
    if actions != [] {
      CompleteForGood(st, s, actions[..|actions| - 1]);
      ExecInv(st, s, actions[..|actions| - 1]);
      CompleteStays(st, Exec(st, s, actions[..|actions| - 1]), actions[|actions| - 1]);
    }
  }

  // ------------------------------------------------------------ another domain

  /** Loading the record fails exactly when there is none, or it has another base,
      or another realm or none; then nothing is written. */
  lemma LoadFailsIff(st: Settings, s: Store, m: Member, drawn: Sid)
    requires m.pc.AtLoad?
    ensures var o := Tick(st, s, m, drawn);
            && (o.member.pc.Failed? <==>
                  s.root.None? || !SameDn(s.root.value.base, st.base) || s.root.value.realm != Some(st.realm))
            && o.store == s && o.created == None
  {
  }

  /** A member that has not got past the record. */
  predicate Held(m: Member) {
    Rank(m.pc) <= 4 || m.pc.Failed?
  }

  /** Nothing of the domain but the two other records differs. */
  predicate SameDomain(s: Store, t: Store) {
    s == t.(config := s.config, schema := s.schema)
  }

  lemma ForeignTick(st: Settings, s: Store, m: Member, drawn: Sid)
    requires s.root.Some? && (!SameDn(s.root.value.base, st.base) || s.root.value.realm != Some(st.realm)) && Held(m)
    ensures var o := Tick(st, s, m, drawn);
            Held(o.member) && SameDomain(o.store, s)
  {
  }

  lemma ForeignStep(st: Settings, s: State, a: Action)
    requires s.store.root.Some?
    requires !SameDn(s.store.root.value.base, st.base) || s.store.root.value.realm != Some(st.realm)
    requires s.reports == {} && forall i :: i in s.members ==> Held(s.members[i])
    ensures var t := Next(st, s, a);
            && t.reports == {} && SameDomain(t.store, s.store) && forall i :: i in t.members ==> Held(t.members[i])
  {
    if a.Step? {
      ForeignTick(st, s.store, MemberOf(s, a.member), a.drawn);
    }
  }

  /** From a store whose root record is another domain's, by its base or by its
      realm: in every interleaving nobody ever reports, and the record, the base
      entry and the accounts stay as they were. */
  lemma {:induction false} ForeignRecordStays(st: Settings, store: Store, actions: seq<Action>)
    requires store.root.Some?
    requires !SameDn(store.root.value.base, st.base) || store.root.value.realm != Some(st.realm)
    ensures var s := Exec(st, Start(store), actions);
            && s.reports == {}
            && s.store.root == store.root && s.store.base == store.base
            && s.store.krbtgt == store.krbtgt && s.store.krbtgtNamed == store.krbtgtNamed
            && s.store.admin == store.admin && s.store.adminNamed == store.adminNamed
            && forall i :: i in s.members ==> Held(s.members[i])
  {
    if actions != [] {
      ForeignRecordStays(st, store, actions[..|actions| - 1]);
      ForeignStep(st, Exec(st, Start(store), actions[..|actions| - 1]), actions[|actions| - 1]);
    }
  }

  // ------------------------------------------------------ where a SID comes from

  predicate Carries(known: set<Sid>, m: Member) {
    m.pc.Idle? || (m.sid in known && (m.pc.AtFill? && m.pc.record.sid.Some? ==> m.pc.record.sid.value in known))
  }

  predicate RecordFrom(known: set<Sid>, s: Store) {
    s.root.Some? && s.root.value.sid.Some? ==> s.root.value.sid.value in known
  }

  predicate AllFrom(known: set<Sid>, s: State) {
    RecordFrom(known, s.store) && s.reports <= known && forall i :: i in s.members ==> Carries(known, s.members[i])
  }

  lemma TickFrom(known: set<Sid>, st: Settings, s: Store, m: Member, drawn: Sid)
    requires RecordFrom(known, s) && Carries(known, m) && drawn in known
    ensures var o := Tick(st, s, m, drawn);
            RecordFrom(known, o.store) && Carries(known, o.member)
  {
  }

  lemma NextFrom(known: set<Sid>, st: Settings, s: State, a: Action)
    requires AllFrom(known, s) && (a.Step? ==> a.drawn in known)
    ensures AllFrom(known, Next(st, s, a))
  {
    if a.Step? {
      TickFrom(known, st, s.store, MemberOf(s, a.member), a.drawn);
    }
  }

  lemma {:induction false} ExecFrom(known: set<Sid>, st: Settings, store: Store, actions: seq<Action>)
    requires RecordFrom(known, store)
    requires forall i :: 0 <= i < |actions| && actions[i].Step? ==> actions[i].drawn in known
    ensures AllFrom(known, Exec(st, Start(store), actions))
  {
    if actions != [] {
      ExecFrom(known, st, store, actions[..|actions| - 1]);
      NextFrom(known, st, Exec(st, Start(store), actions[..|actions| - 1]), actions[|actions| - 1]);
    }
  }

  /** A SID that is reported was drawn by some member on the way, or was in the record
      to begin with. */
  lemma ReportedWasDrawn(st: Settings, store: Store, actions: seq<Action>, sid: Sid)
    requires sid in Exec(st, Start(store), actions).reports
    ensures || (exists i :: 0 <= i < |actions| && actions[i].Step? && actions[i].drawn == sid)
            || (store.root.Some? && store.root.value.sid == Some(sid))
  {
    var drawn := set i | 0 <= i < |actions| && actions[i].Step? :: actions[i].drawn;
    var there := if store.root.Some? && store.root.value.sid.Some? then {store.root.value.sid.value} else {};
    ExecFrom(drawn + there, st, store, actions);
  }

  // ------------------------------------------------------- from any store at all

  predicate Past(m: Member) {
    5 <= Rank(m.pc) <= 12
  }

  predicate Settles(st: Settings, s: Store, sid: Sid) {
    s.root.Some? && Matches(s.root.value, st) && s.root.value.sid == Some(sid)
  }

  predicate KnowsSid(st: Settings, s: Store, m: Member) {
    Past(m) ==> Settles(st, s, m.sid) && (m.pc.AtFill? ==> Matches(m.pc.record, st) && m.pc.record.sid == Some(m.sid))
  }

  /** A record that matches has a SID, and everyone past it knows that SID. */
  predicate SidFixed(st: Settings, s: State) {
    && (s.store.root.Some? && Matches(s.store.root.value, st) ==> s.store.root.value.sid.Some?)
    && (forall i :: i in s.members ==> KnowsSid(st, s.store, s.members[i]))
    && (forall r :: r in s.reports ==> Settles(st, s.store, r))
  }

  lemma TickKeepsSid(st: Settings, s: Store, m: Member, drawn: Sid)
    requires s.root.Some? && Matches(s.root.value, st) ==> s.root.value.sid.Some?
    requires KnowsSid(st, s, m)
    ensures var o := Tick(st, s, m, drawn);
            && (o.store.root.Some? && Matches(o.store.root.value, st) ==> o.store.root.value.sid.Some?)
            && KnowsSid(st, o.store, o.member)
            && forall sid :: Settles(st, s, sid) ==> Settles(st, o.store, sid)
  {
    if m.pc.AtRoot? || m.pc.AtFill? {
      RootKeepsSid(st, s, m, drawn);
    }
  }

  /** The requests that write the root record. */
  lemma RootKeepsSid(st: Settings, s: Store, m: Member, drawn: Sid)
    requires s.root.Some? && Matches(s.root.value, st) ==> s.root.value.sid.Some?
    requires KnowsSid(st, s, m) && (m.pc.AtRoot? || m.pc.AtFill?)
    ensures var o := Tick(st, s, m, drawn);
            && (o.store.root.Some? && Matches(o.store.root.value, st) ==> o.store.root.value.sid.Some?)
            && KnowsSid(st, o.store, o.member)
            && forall sid :: Settles(st, s, sid) ==> Settles(st, o.store, sid)
  {
    SameDnReflexive(st.base);
  }

  lemma {:induction false} ExecKeepsSid(st: Settings, s: State, actions: seq<Action>)
    requires SidFixed(st, s)
    ensures SidFixed(st, Exec(st, s, actions))
  {
    if actions != [] {
      var t, a := Exec(st, s, actions[..|actions| - 1]), actions[|actions| - 1];
      ExecKeepsSid(st, s, actions[..|actions| - 1]);
      NextKeepsSid(st, t, a);
    }
  }

  lemma NextKeepsSid(st: Settings, s: State, a: Action)
    requires SidFixed(st, s)
    ensures SidFixed(st, Next(st, s, a))
  {
    if a.Step? {
      var m := MemberOf(s, a.member);
      var o := Tick(st, s.store, m, a.drawn);
      TickKeepsSid(st, s.store, m, a.drawn);
      forall i | i in s.members
        ensures KnowsSid(st, o.store, s.members[i])
      {
        StillKnows(st, s.store, o.store, s.members[i]);
      }
    }
  }

  lemma StillKnows(st: Settings, s: Store, t: Store, m: Member)
    requires KnowsSid(st, s, m) && (Settles(st, s, m.sid) ==> Settles(st, t, m.sid))
    ensures KnowsSid(st, t, m)
  {
  }

  lemma {:induction false} ExecConcat(st: Settings, s: State, xs: seq<Action>, ys: seq<Action>)
    ensures Exec(st, s, xs + ys) == Exec(st, Exec(st, s, xs), ys)
  {
    if ys == [] {
      assert xs + ys == xs;
    } else {
      ExecConcat(st, s, xs, ys[..|ys| - 1]);
      assert (xs + ys)[..|xs + ys| - 1] == xs + ys[..|ys| - 1];
    }
  }

  lemma ExecOne(st: Settings, s: State, a: Action)
    ensures Exec(st, s, [a]) == Next(st, s, a)
  {
    assert [a][..0] == [];
  }

  /** Other members and earlier reports are kept. */
  ghost predicate Apart(s: State, t: State, i: nat) {
    s.reports <= t.reports && forall j: nat :: j != i ==> MemberOf(t, j) == MemberOf(s, j)
  }

  /** A member past the record finishes on its own, with the SID it has. */
  lemma {:induction false} RunsToDone(st: Settings, s: State, i: nat) returns (actions: seq<Action>)
    requires Past(MemberOf(s, i))
    ensures var t := Exec(st, s, actions);
            MemberOf(s, i).sid in t.reports && Apart(s, t, i)
    decreases 12 - Rank(MemberOf(s, i).pc)
  {
    var a := Step(i, "");
    var t := Next(st, s, a);
    ExecOne(st, s, a);
    if t.members[i].pc.Done? {
      actions := [a];
    } else {
      var rest := RunsToDone(st, t, i);
      actions := [a] + rest;
      ExecConcat(st, s, [a], rest);
    }
  }

  /** A member that starts over reaches a record without a SID and is about to
      fill in its own. */
  lemma {:induction false} RunsToFill(st: Settings, s: State, i: nat, sid: Sid) returns (actions: seq<Action>)
    requires Rank(MemberOf(s, i).pc) <= 4
    requires s.store.root.Some? && Matches(s.store.root.value, st) && s.store.root.value.sid.None?
    ensures var t := Exec(st, s, actions);
            && Past(MemberOf(t, i)) && MemberOf(t, i).sid == sid && Apart(s, t, i) && t.store.root == s.store.root
    decreases 4 - Rank(MemberOf(s, i).pc)
  {
    var a := Step(i, sid);
    var t := Next(st, s, a);
    ExecOne(st, s, a);
    if MemberOf(s, i).pc.AtLoad? {
      actions := [a];
    } else {
      var rest := RunsToFill(st, t, i, sid);
      actions := [a] + rest;
      ExecConcat(st, s, [a], rest);
    }
  }

  /** Two members fill in two SIDs. */
  lemma TwoSids(st: Settings, store: Store, a: Sid, b: Sid) returns (actions: seq<Action>)
    requires store.root.Some? && store.root.value.sid.None?
    requires SameDn(store.root.value.base, st.base) && store.root.value.realm == Some(st.realm)
    ensures {a, b} <= Exec(st, Start(store), actions).reports
  {
    var s := Start(store);
    var first := RunsToFill(st, s, 0, a);
    var s1 := Exec(st, s, first);
    var second := RunsToFill(st, s1, 1, b);
    var s2 := Exec(st, s1, second);
    var third := RunsToDone(st, s2, 0);
    var s3 := Exec(st, s2, third);
    var fourth := RunsToDone(st, s3, 1);
    ExecConcat(st, s, first, second);
    ExecConcat(st, s, first + second, third);
    ExecConcat(st, s, first + second + third, fourth);
    actions := first + second + third + fourth;
  }

  ghost predicate AlwaysOneReport(st: Settings, store: Store) {
    forall actions: seq<Action> :: AtMostOne(Exec(st, Start(store), actions).reports)
  }

  ghost predicate AtMostOne(reports: set<Sid>) {
    forall a, b :: a in reports && b in reports ==> a == b
  }

  /** From any store: in all interleavings all reports agree, unless a record with
      the base and the realm of the settings is there without a SID. */
  lemma ReportsAgreeIff(st: Settings, store: Store)
    ensures AlwaysOneReport(st, store) <==>
              !(&& store.root.Some? && SameDn(store.root.value.base, st.base)
                && store.root.value.realm == Some(st.realm) && store.root.value.sid.None?)
  {
    if store.root.Some? && Matches(store.root.value, st) && store.root.value.sid.None? {
      var actions := TwoSids(st, store, "a", "b");
      assert {"a", "b"} <= Exec(st, Start(store), actions).reports;
      assert !AtMostOne(Exec(st, Start(store), actions).reports) by {
        assert "a" in {"a", "b"} && "b" in {"a", "b"} && "a" != "b";
      }
    } else {
      forall actions: seq<Action>
        ensures AtMostOne(Exec(st, Start(store), actions).reports)
      {
        ExecKeepsSid(st, Start(store), actions);
      }
    }
  }

  // ------------------------------------------------------------ one member alone

  /** A run without interference from where the member stands. */
  function Alone(st: Settings, s: Store, m: Member, drawn: Sid): (Store, Member, seq<Object>)
    requires Rank(m.pc) >= 1
    decreases 13 - Rank(m.pc)
  {
    if m.pc.Done? || m.pc.Failed? then (s, m, [])
    else
      var o := Tick(st, s, m, drawn);
      var rest := Alone(st, o.store, o.member, drawn);
      (rest.0, rest.1, (if o.created.Some? then [o.created.value] else []) + rest.2)
  }

  /** A store in which a run has nothing left to do. */
  predicate Settled(st: Settings, s: Store) {
    && s.config && s.schema && s.root.Some? && Matches(s.root.value, st)
    && s.root.value.sid.Some? && s.root.value.netbios.Some?
    && s.base.Some? && (s.krbtgtNamed || s.krbtgt.Some?) && (s.adminNamed || s.admin.Some?)
  }

  /** The part of it that a member has seen to. */
  predicate SettledUpTo(st: Settings, s: Store, m: Member) {
    && (Rank(m.pc) >= 2 ==> s.config) && (Rank(m.pc) >= 3 ==> s.schema) && (Rank(m.pc) >= 4 ==> s.root.Some?)
    && (m.pc.AtFill? ==> Matches(m.pc.record, st) && m.pc.record.sid.Some? && m.pc.record.netbios.Some?)
    && (Rank(m.pc) >= 6 ==> Matches(s.root.value, st) && s.root.value.sid.Some? && s.root.value.netbios.Some?)
    && (Rank(m.pc) >= 7 ==> s.base.Some?) && (Rank(m.pc) >= 9 ==> s.krbtgtNamed || s.krbtgt.Some?)
    && (Rank(m.pc) >= 12 ==> s.adminNamed || s.admin.Some?)
  }

  lemma {:induction false} AloneSettles(st: Settings, s: Store, m: Member, drawn: Sid)
    requires Rank(m.pc) >= 1 && !m.pc.Failed? && SettledUpTo(st, s, m)
    ensures Alone(st, s, m, drawn).1.pc.Done? ==> Settled(st, Alone(st, s, m, drawn).0)
    decreases 13 - Rank(m.pc)
  {
    if !m.pc.Done? {
      var o := Tick(st, s, m, drawn);
      SameDnReflexive(st.base);
      if !o.member.pc.Failed? {
        AloneSettles(st, o.store, o.member, drawn);
      }
    }
  }

  /** Where a member can stand in a settled store. */
  predicate AtHome(s: Store, m: Member)
    requires s.root.Some?
  {
    && Rank(m.pc) >= 1 && !m.pc.AtFill? && !m.pc.Failed? && !m.pc.AtAdmin?
    && (m.pc.AtKrbtgt? ==> s.krbtgt.Some?) && (m.pc.AtAdminRead? ==> s.admin.Some?)
    && (Rank(m.pc) >= 6 ==> Some(m.sid) == s.root.value.sid)
  }

  lemma {:induction false} SettledAlone(st: Settings, s: Store, m: Member, drawn: Sid)
    requires Settled(st, s) && AtHome(s, m)
    ensures var r := Alone(st, s, m, drawn);
            r.0 == s && r.1.pc.Done? && Some(r.1.sid) == s.root.value.sid && r.2 == []
    decreases 13 - Rank(m.pc)
  {
    if !m.pc.Done? {
      var o := Tick(st, s, m, drawn);
      assert o.store == s && AtHome(s, o.member) && o.created.None?;
      SettledAlone(st, o.store, o.member, drawn);
    }
  }

  /** From any store, a run that succeeds leaves nothing for the next: whatever
      SIDs that one draws, it creates nothing and reports the stored SID. */
  lemma SecondRunChangesNothing(st: Settings, s: Store, sid: Sid, drawn: Sid, sid': Sid, drawn': Sid)
    requires Alone(st, s, Member(AtConfig, sid), drawn).1.pc.Done?
    ensures var r := Alone(st, s, Member(AtConfig, sid), drawn);
            var again := Alone(st, r.0, Member(AtConfig, sid'), drawn');
            && again.0 == r.0 && again.1.pc.Done? && again.2 == []
            && r.0.root.Some? && r.0.root.value.sid == Some(again.1.sid)
  {
    AloneSettles(st, s, Member(AtConfig, sid), drawn);
    SettledAlone(st, Alone(st, s, Member(AtConfig, sid), drawn).0, Member(AtConfig, sid'), drawn');
  }

  datatype Report = Report(created: seq<Object>, sid: Sid)

  /** What is known in the middle of a run: the rest of it, from here. */
  ghost predicate Midway(st: Settings, start: Store, sid: Sid, drawn: Sid, s: Store, m: Member, created: seq<Object>) {
    && Rank(m.pc) >= 1
    && var whole, rest := Alone(st, start, Member(AtConfig, sid), drawn), Alone(st, s, m, drawn);
       whole.0 == rest.0 && whole.1 == rest.1 && whole.2 == created + rest.2
  }

  lemma MidwayStep(st: Settings, start: Store, sid: Sid, drawn: Sid, s: Store, m: Member, created: seq<Object>)
    requires Midway(st, start, sid, drawn, s, m, created) && !m.pc.Done? && !m.pc.Failed?
    ensures var o := Tick(st, s, m, drawn);
            Midway(st, start, sid, drawn, o.store, o.member,
                   if o.created.Some? then created + [o.created.value] else created)
  {
    var o := Tick(st, s, m, drawn);
    var rest := Alone(st, o.store, o.member, drawn);
    var more := if o.created.Some? then [o.created.value] else [];
    assert created + (more + rest.2) == created + more + rest.2;
    assert created + [] == created;
  }

  class Directory {
    var store: Store

    constructor (store: Store)
      ensures this.store == store
    {
      this.store := store;
    }

    /** The three records of the forest registry. */
    method CreateRecords(st: Settings, sid: Sid, ghost drawn: Sid) returns (created: seq<Object>)
      modifies this
      ensures Midway(st, old(store), sid, drawn, store, Member(AtLoad, sid), created)
      ensures store == old(store).(config := true, schema := true, root := store.root)
      ensures store.root == if old(store).root.Some? then old(store).root
                            else Some(Record(st.base, Some(st.realm), Some(st.netbios), Some(sid)))
      ensures created == (if old(store).config then [] else [Config]) + (if old(store).schema then [] else [Schema])
                         + (if old(store).root.Some? then [] else [Root])
    {
      ghost var start := store;
      created := CreateContainers(st, sid, drawn);
      ghost var m := Track(st, start, sid, drawn, store, Member(AtRoot, sid), created);
      if store.root.None? {
        store := store.(root := Some(NewRecord(st, sid)));
        created := created + [Root];
      }
    }

    method CreateContainers(st: Settings, sid: Sid, ghost drawn: Sid) returns (created: seq<Object>)
      modifies this
      ensures Midway(st, old(store), sid, drawn, store, Member(AtRoot, sid), created)
      ensures store == old(store).(config := true, schema := true)
      ensures created == (if old(store).config then [] else [Config]) + (if old(store).schema then [] else [Schema])
    {
      created := [];
      ghost var m := Member(AtConfig, sid);
      ghost var start := store;
      assert [] + Alone(st, start, m, drawn).2 == Alone(st, start, m, drawn).2;
      m := Track(st, start, sid, drawn, store, m, created);
      if !store.config {
        store := store.(config := true);
        created := created + [Config];
      }
      m := Track(st, start, sid, drawn, store, m, created);
      if !store.schema {
        store := store.(schema := true);
        created := created + [Schema];
      }
    }

    /** The root's record, its missing fields filled in; `None` when it belongs to
        another domain. */
    method LoadRecord(st: Settings, drawn: Sid, before: seq<Object>, ghost start: Store, ghost sid: Sid)
      returns (domainSid: Option<Sid>, created: seq<Object>)
      requires Midway(st, start, sid, drawn, store, Member(AtLoad, sid), before)
      modifies this
      ensures domainSid.None? ==> Midway(st, start, sid, drawn, store, Member(Failed, sid), created)
      ensures domainSid.Some? ==> Midway(st, start, sid, drawn, store, Member(AtBase, domainSid.value), created)
      ensures var root := old(store).root;
              domainSid.None? <==>
                root.None? || !SameDn(root.value.base, st.base) || root.value.realm != Some(st.realm)
      ensures domainSid.None? ==> store == old(store) && created == before
      ensures domainSid.Some? ==>
                var r := old(store).root.value;
                && domainSid == (if r.sid.Some? then r.sid else Some(drawn))
                && store == old(store).(root := Some(Record(r.base, r.realm,
                                                            if r.netbios.Some? then r.netbios else Some(st.netbios),
                                                            domainSid)))
                && created == before + if r.sid.None? || r.netbios.None? then [Filled] else []
    {
      created := before;
      ghost var m := Track(st, start, sid, drawn, store, Member(AtLoad, sid), created);
      if store.root.None? || !Matches(store.root.value, st) {
        return None, created;
      }
      var stored := store.root.value;
      var filled := FilledIn(stored, st, drawn);
      if filled != stored {
        m := Track(st, start, sid, drawn, store, m, created);
        store := store.(root := Some(filled));
        created := created + [Filled];
      }
      domainSid := filled.sid;
    }

    method CreateBaseAndKrbtgt(st: Settings, domainSid: Sid, before: seq<Object>, ghost start: Store, ghost sid: Sid,
                               ghost drawn: Sid)
      returns (created: seq<Object>)
      requires Midway(st, start, sid, drawn, store, Member(AtBase, domainSid), before)
      modifies this
      ensures Midway(st, start, sid, drawn, store, Member(AtAdminLookup, domainSid), created)
      ensures store == old(store).(base := store.base, krbtgt := store.krbtgt, krbtgtNamed := store.krbtgtNamed)
      ensures store.base == if old(store).base.Some? then old(store).base else Some(domainSid)
      ensures if old(store).krbtgtNamed || old(store).krbtgt.Some?
              then store.krbtgt == old(store).krbtgt && store.krbtgtNamed == old(store).krbtgtNamed
              else store.krbtgt == Some(Account(domainSid, 502)) && store.krbtgtNamed
      ensures created == before + (if old(store).base.Some? then [] else [Base])
                         + (if old(store).krbtgtNamed || old(store).krbtgt.Some? then [] else [Krbtgt])
    {
      created := before;
      ghost var m := Track(st, start, sid, drawn, store, Member(AtBase, domainSid), created);
      if store.base.None? {
        store := store.(base := Some(domainSid));
        created := created + [Base];
      }
      m := Track(st, start, sid, drawn, store, m, created);
      if !store.krbtgtNamed {
        m := Track(st, start, sid, drawn, store, m, created);
        if store.krbtgt.None? {
          store := store.(krbtgt := Some(Account(domainSid, KRBTGT_RID)), krbtgtNamed := true);
          created := created + [Krbtgt];
        }
      }
    }

    method CreateAdmin(st: Settings, domainSid: Sid, before: seq<Object>, ghost start: Store, ghost sid: Sid,
                       ghost drawn: Sid)
      returns (created: seq<Object>)
      requires Midway(st, start, sid, drawn, store, Member(AtAdminLookup, domainSid), before)
      modifies this
      ensures Midway(st, start, sid, drawn, store, Member(Done, domainSid), created)
      ensures store == old(store).(admin := store.admin, adminNamed := store.adminNamed)
      ensures if old(store).adminNamed || old(store).admin.Some?
              then store.admin == old(store).admin && store.adminNamed == old(store).adminNamed
              else store.admin == Some(Account(domainSid, 500)) && store.adminNamed
      ensures created == before + (if old(store).adminNamed || old(store).admin.Some? then [] else [Admin])
    {
      created := before;
      ghost var m := Track(st, start, sid, drawn, store, Member(AtAdminLookup, domainSid), created);
      if !store.adminNamed {
        m := Track(st, start, sid, drawn, store, m, created);
        if store.admin.None? {
          m := Track(st, start, sid, drawn, store, m, created);
          store := store.(admin := Some(Account(domainSid, ADMINISTRATOR_RID)), adminNamed := true);
          created := created + [Admin];
        }
      }
    }

    /** `provision`, with the SIDs its two draws would give; `None` is an error. */
    method Run(st: Settings, sid: Sid, drawn: Sid) returns (r: Option<Report>)
      modifies this
      ensures var whole := Alone(st, old(store), Member(AtConfig, sid), drawn);
              && store == whole.0
              && r == (if whole.1.pc.Done? then Some(Report(whole.2, whole.1.sid)) else None)
    {
      ghost var start := store;
      var created := CreateRecords(st, sid, drawn);
      var domainSid;
      domainSid, created := LoadRecord(st, drawn, created, start, sid);
      if domainSid.None? {
        return None;
      }
      created := CreateBaseAndKrbtgt(st, domainSid.value, created, start, sid, drawn);
      created := CreateAdmin(st, domainSid.value, created, start, sid, drawn);
      assert created + [] == created;
      r := Some(Report(created, domainSid.value));
    }
  }

  /** Advances the ghost member over the request that comes next. */
  lemma Track(st: Settings, start: Store, sid: Sid, drawn: Sid, s: Store, m: Member, created: seq<Object>)
    returns (next: Member)
    requires Midway(st, start, sid, drawn, s, m, created) && !m.pc.Done? && !m.pc.Failed?
    ensures var o := Tick(st, s, m, drawn);
            && next == o.member
            && Midway(st, start, sid, drawn, o.store, o.member,
                      if o.created.Some? then created + [o.created.value] else created)
  {
    MidwayStep(st, start, sid, drawn, s, m, created);
    next := Tick(st, s, m, drawn).member;
  }
}
