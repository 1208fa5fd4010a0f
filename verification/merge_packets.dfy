/**
The request_person_merge packet (connectors/ACCESS/AMIE-Processor/handler/request_person_merge.go):
what a redelivered packet can still do to the core tables, over every run of other deliveries
and steps in between.
 */
module MergePackets {
  import opened Lifecycle
  import opened KeyedTable
  import opened Directory
  import opened Text

  const AMIE_SOURCE := "access"

  datatype Packet = Packet(keepGlobal: string, deleteGlobal: string, deletePerson: UserId)

  /**
  One delivery. The merge commits on its own; `tailFails` says that what follows it (moving
  certificate names, auditing, replying) failed, which the sender sees as a failed delivery.
   */
  function Deliver(db: Db, p: Packet, tailFails: bool): Reply {
    if IsBlank(p.keepGlobal) || IsBlank(p.deleteGlobal) || IsBlank(p.deletePerson) then Reply(db, Refused(InvalidInput))
    else if p.keepGlobal == p.deleteGlobal then Reply(db, Refused(InvalidInput))
    else if p.deletePerson in db.users && db.users[p.deletePerson] == Merged then Reply(db, Tail(tailFails))
    else
      var keep, gone := Identity(AMIE_SOURCE, p.keepGlobal), Identity(AMIE_SOURCE, p.deleteGlobal);
      if keep !in db.identities || db.identities[keep] !in db.users then Reply(db, Refused(NotFound))
      else if gone !in db.identities || db.identities[gone] !in db.users then Reply(db, Refused(NotFound))
      else
        var reply := MergeReply(db, db.identities[keep], db.identities[gone]);
        if reply.outcome.Refused? then reply else Reply(reply.db, Tail(tailFails))
  }

  function Tail(fails: bool): Outcome {
    if fails then Refused(Downstream) else Done
  }

  datatype Event = Core(step: Step) | Delivery(packet: Packet, tailFails: bool)

  function Next(db: Db, e: Event): Db {
    match e
    case Core(step) => Apply(db, step).db
    case Delivery(p, tailFails) => Deliver(db, p, tailFails).db
  }

  function Play(db: Db, events: seq<Event>): Db
    decreases |events|
  {
    if events == [] then db else Play(Next(db, events[0]), events[1..])
  }

  // ---------- Settled packets ----------

  function KeptId(p: Packet): Identity {
    Identity(AMIE_SOURCE, p.keepGlobal)
  }

  function GoneId(p: Packet): Identity {
    Identity(AMIE_SOURCE, p.deleteGlobal)
  }

  predicate PersonMerged(db: Db, p: Packet) {
    p.deletePerson in db.users && db.users[p.deletePerson] == Merged
  }

  predicate SameOwner(db: Db, p: Packet) {
    KeptId(p) in db.identities && GoneId(p) in db.identities && db.identities[KeptId(p)] == db.identities[GoneId(p)]
  }

  /** The packet has nothing left to do: its person is merged, or both its global ids name one user. */
  predicate Settled(db: Db, p: Packet) {
    PersonMerged(db, p) || SameOwner(db, p)
  }

  /** A delivery that succeeded, or changed anything at all, settles its packet. */
  lemma DeliverySettles(db: Db, p: Packet, tailFails: bool)
    requires var reply := Deliver(db, p, tailFails); reply.outcome.Done? || reply.db != db
    ensures Settled(Deliver(db, p, tailFails).db, p)
  {
  }

  /**
  What undoes that, as a query before the step: taking MERGED off the person or deleting them
  while the ids name different users, or parting the ids (rebinding or unbinding one, deleting
  their owner) while the person is not merged.
   */
  predicate Unsettles(db: Db, step: Step, p: Packet) {
    Apply(db, step).outcome.Done? &&
    match step
    case SetStatus(user, status) => user == p.deletePerson && status != Merged && !SameOwner(db, p)
    case DeleteUser(user) =>
      && (PersonMerged(db, p) ==> user == p.deletePerson)
      && (SameOwner(db, p) ==> user == db.identities[KeptId(p)])
    case Unbind(identity) => !PersonMerged(db, p) && identity in {KeptId(p), GoneId(p)}
    case Rebind(identity, user, source, external) =>
      && !PersonMerged(db, p) && identity in {KeptId(p), GoneId(p)}
      && Moves(db, identity, user, source, external)
    case _ => false
  }

  /** The update changes the identity's key, or gives it to another user. */
  predicate Moves(db: Db, identity: Identity, user: UserId, source: string, external: string) {
    || (source != "" && source != identity.source)
    || (external != "" && external != identity.external)
    || (user != "" && identity in db.identities && user != db.identities[identity])
  }

  lemma MergeKeepsSettled(db: Db, surviving: UserId, retiring: UserId, p: Packet)
    requires Settled(db, p)
    ensures Settled(MergeReply(db, surviving, retiring).db, p)
  {
  }

  lemma RebindKeepsSettledIff(db: Db, step: Step, p: Packet)
    requires Settled(db, p) && p.keepGlobal != p.deleteGlobal && step.Rebind?
    ensures Settled(Apply(db, step).db, p) <==> !Unsettles(db, step, p)
  {
  }

  lemma DeletionKeepsSettledIff(db: Db, step: Step, p: Packet)
    requires Settled(db, p) && (step.DeleteUser? || step.Unbind? || step.SetStatus?)
    ensures Settled(Apply(db, step).db, p) <==> !Unsettles(db, step, p)
  {
  }

  /** A step unsettles a settled packet exactly when that query says so. */
  lemma StepKeepsSettledIff(db: Db, step: Step, p: Packet)
    requires Settled(db, p) && p.keepGlobal != p.deleteGlobal
    ensures Settled(Apply(db, step).db, p) <==> !Unsettles(db, step, p)
  {
    match step
    case Ensure(project, user, role, now) => EnsureTouchesOneRow(db, project, user, role, now);
    case Merge(surviving, retiring) => MergeKeepsSettled(db, surviving, retiring, p);
    case Rebind(_, _, _, _) => RebindKeepsSettledIff(db, step, p);
    case DeleteUser(_) => DeletionKeepsSettledIff(db, step, p);
    case Unbind(_) => DeletionKeepsSettledIff(db, step, p);
    case SetStatus(_, _) => DeletionKeepsSettledIff(db, step, p);
    case _ =>
  }

  /** No event of the run unsettles the packet where it happens. */
  predicate NeverUnsettles(db: Db, events: seq<Event>, p: Packet)
    decreases |events|
  {
    events != [] ==>
      && (events[0].Core? ==> !Unsettles(db, events[0].step, p))
      && NeverUnsettles(Next(db, events[0]), events[1..], p)
  }

  lemma NextKeepsSettled(db: Db, e: Event, p: Packet)
    requires Settled(db, p) && p.keepGlobal != p.deleteGlobal
    requires e.Core? ==> !Unsettles(db, e.step, p)
    ensures Settled(Next(db, e), p)
  {
    match e
    case Core(step) => StepKeepsSettledIff(db, step, p);
    case Delivery(q, tailFails) =>
      if Deliver(db, q, tailFails).db != db { MergeKeepsSettled(db, db.identities[KeptId(q)], db.identities[GoneId(q)], p); }
  }

  lemma {:induction false} PlayKeepsSettled(db: Db, events: seq<Event>, p: Packet)
    requires Settled(db, p) && p.keepGlobal != p.deleteGlobal && NeverUnsettles(db, events, p)
    ensures Settled(Play(db, events), p)
    decreases |events|
  {
    if events != [] {
      NextKeepsSettled(db, events[0], p);
      PlayKeepsSettled(Next(db, events[0]), events[1..], p);
    }
  }

  /** A settled packet changes nothing, and is answered with success exactly when its person is merged. */
  lemma SettledIsInert(db: Db, p: Packet, tailFails: bool)
    requires Settled(db, p)
    ensures Deliver(db, p, tailFails).db == db
    ensures Deliver(db, p, tailFails).outcome.Done? <==>
      && !tailFails
      && !IsBlank(p.keepGlobal) && !IsBlank(p.deleteGlobal) && !IsBlank(p.deletePerson)
      && p.keepGlobal != p.deleteGlobal
      && PersonMerged(db, p)
  {
  }

  /**
  Redelivery is safe: once a delivery has merged or succeeded, then after any number of other
  steps and deliveries (of this packet too), none of which unsettles it, delivering it again
  leaves every table unchanged.
   */
  lemma RedeliveryIsSafe(db: Db, p: Packet, tailFails: bool, between: seq<Event>, again: bool)
    requires var reply := Deliver(db, p, tailFails); reply.outcome.Done? || reply.db != db
    requires NeverUnsettles(Deliver(db, p, tailFails).db, between, p)
    ensures var later := Play(Deliver(db, p, tailFails).db, between);
      Deliver(later, p, again).db == later
  {
    var after := Deliver(db, p, tailFails).db;
    DeliverySettles(db, p, tailFails);
    PlayKeepsSettled(after, between, p);
    SettledIsInert(Play(after, between), p, again);
  }

  /** Both ids name users who differ and are both ACTIVE or PENDING, and the person named is not merged yet. */
  predicate StillMerges(db: Db, p: Packet) {
    && !IsBlank(p.keepGlobal) && !IsBlank(p.deleteGlobal) && !IsBlank(p.deletePerson) && p.keepGlobal != p.deleteGlobal
    && !PersonMerged(db, p)
    && KeptId(p) in db.identities && GoneId(p) in db.identities
    && var keeper, leaver := db.identities[KeptId(p)], db.identities[GoneId(p)];
       && keeper != leaver && keeper != "" && leaver != "" && keeper in db.users && leaver in db.users
       && db.users[keeper] in {Active, Pending} && db.users[leaver] in {Active, Pending}
  }

  /** A delivery changes the tables if and only if that holds; what undoes a settled packet need not go that far. */
  lemma DeliveryChangesIff(db: Db, p: Packet, tailFails: bool)
    ensures Deliver(db, p, tailFails).db != db <==> StillMerges(db, p)
    ensures StillMerges(db, p) ==> !Settled(db, p)
  {
    if StillMerges(db, p) {
      var keeper, leaver := db.identities[KeptId(p)], db.identities[GoneId(p)];
      MergeDoneIff(db, keeper, leaver);
      assert Deliver(db, p, tailFails).db.users[leaver] == Merged;
    }
  }

  /** The identity belongs to a user with a row. */
  predicate Known(db: Db, identity: Identity) {
    identity in db.identities && db.identities[identity] in db.users
  }

  /** What a delivery answers and does, by the packet and the rows it finds. */
  lemma DeliveryIs(db: Db, p: Packet, tailFails: bool)
    ensures var reply := Deliver(db, p, tailFails);
      var blank := IsBlank(p.keepGlobal) || IsBlank(p.deleteGlobal) || IsBlank(p.deletePerson);
      var malformed := blank || p.keepGlobal == p.deleteGlobal;
      var looksUp := !malformed && !PersonMerged(db, p);
      && (malformed ==> reply.outcome == Refused(InvalidInput))
      && (reply.outcome == Refused(NotFound) <==> looksUp && !(Known(db, KeptId(p)) && Known(db, GoneId(p))))
      && (reply.outcome.Done? <==> !tailFails && (StillMerges(db, p) || (!malformed && PersonMerged(db, p))))
      && (reply.outcome == Refused(Downstream) <==> tailFails && (StillMerges(db, p) || (!malformed && PersonMerged(db, p))))
      && (StillMerges(db, p) ==> reply.db == MergeReply(db, db.identities[KeptId(p)], db.identities[GoneId(p)]).db)
  {
  }

  /** The steps that never unsettle anything: all but status updates, deletions and identity updates. */
  predicate Calm(e: Event) {
    e.Core? ==> !e.step.SetStatus? && !e.step.DeleteUser? && !e.step.Unbind? && !e.step.Rebind?
  }

  lemma {:induction false} CalmRunsNeverUnsettle(db: Db, events: seq<Event>, p: Packet)
    requires forall i :: 0 <= i < |events| ==> Calm(events[i])
    ensures NeverUnsettles(db, events, p)
    decreases |events|
  {
    if events != [] { CalmRunsNeverUnsettle(Next(db, events[0]), events[1..], p); }
  }

  /** Puts the person and their global id back as they were. */
  function Undo(p: Packet): seq<Event> {
    [Core(SetStatus(p.deletePerson, Active)), Core(Rebind(GoneId(p), p.deletePerson, "", ""))]
  }

  /** After that, any packet that has merged the person it names merges them a second time. */
  lemma UndoneMergeRunsAgain(db: Db, p: Packet)
    requires GoneId(p) in db.identities && db.identities[GoneId(p)] == p.deletePerson && !PersonMerged(db, p)
    requires Deliver(db, p, false).outcome.Done?
    ensures var later := Play(Deliver(db, p, false).db, Undo(p));
      Deliver(later, p, false).outcome.Done? && Deliver(later, p, false).db != later
  {
    var once := Deliver(db, p, false).db;
    assert Undo(p)[1..] == [Undo(p)[1]] && Undo(p)[1..][1..] == [];
    var active := Next(once, Undo(p)[0]);
    var later := Next(active, Undo(p)[1]);
    assert Play(once, Undo(p)) == Play(active, Undo(p)[1..]) == Play(later, []) == later;
    assert !PersonMerged(later, p) && later.users == once.users[p.deletePerson := Active];
    assert later.identities[GoneId(p)] == p.deletePerson && later.identities[KeptId(p)] == db.identities[KeptId(p)];
  }
}
