/** Revision records and the steps that change them: `RevisionManager` of netlab/revisions.py, as values. */
module Revisions {
  import opened Options

  datatype Participant = Ros | Sionna | Isaac

  /** Pending stands for every state that is neither of the other two. */
  datatype ParticipantState = Pending | Acknowledged | Failed

  type Hashes = map<string, string>

  datatype Entry = Entry(state: ParticipantState, observedRevision: string, observedHashes: Hashes)

  datatype Phase = DraftSaved | AppliedTo(participant: Participant) | PhaseFailed | PhaseCommitted | PhaseRolledBack

  datatype SyncState = PendingRos | PendingSionna | PendingIsaac | InSync | SyncFailed | SyncRolledBack

  datatype Record = Record(id: string, parent: string, phase: Phase, state: SyncState, hashes: Hashes,
                           required: seq<Participant>, participants: map<Participant, Entry>)

  /** What a participant reports: the revision it names, whether it accepts it, and the hashes in the three fields
      observed_hashes, applied_hashes and hashes, empty where one is missing. */
  datatype Ack = Ack(revision: string, accepted: bool, observed: Hashes, applied: Hashes, plain: Hashes)

  function FirstFilled(a: Hashes, b: Hashes, c: Hashes): Hashes {
    if a != map[] then a else if b != map[] then b else c
  }

  /** The hashes that are marked. */
  function MarkedHashes(ack: Ack): Hashes {
    FirstFilled(ack.observed, ack.applied, ack.plain)
  }

  /** The hashes that are looked at for drift. */
  function DriftHashes(ack: Ack): Hashes {
    FirstFilled(ack.applied, ack.observed, ack.plain)
  }

  const REQUIRED_PARTICIPANTS: seq<Participant> := [Ros, Sionna, Isaac]

  /** tuple(record.get("required_participants") or REQUIRED_PARTICIPANTS) */
  function Required(r: Record): seq<Participant> {
    if r.required == [] then REQUIRED_PARTICIPANTS else r.required
  }

  /** Every expected hash is among the observed ones with the same value. */
  predicate Covers(observed: Hashes, expected: Hashes) {
    forall key :: key in expected ==> key in observed && observed[key] == expected[key]
  }

  /** The entry confirms this revision with all its hashes. */
  predicate EntryConfirms(e: Entry, r: Record) {
    e.state == Acknowledged && e.observedRevision == r.id && Covers(e.observedHashes, r.hashes)
  }

  predicate Confirmed(r: Record, p: Participant) {
    p in r.participants && EntryConfirms(r.participants[p], r)
  }

  predicate AllConfirmed(r: Record) {
    forall p :: p in Required(r) ==> Confirmed(r, p)
  }

  // ---------------------------------------------------------------- steps

  /** The stored files, and every acknowledgement that was ever read from a participant. */
  datatype Store = Store(records: map<string, Record>, desired: Option<Record>, committed: Option<Record>,
                         acks: set<(Participant, Ack)>)

  function NewRecord(s: Store, id: string, hashes: Hashes, required: seq<Participant>): Record {
    Record(id, if s.committed.Some? then s.committed.value.id else "", DraftSaved, PendingRos, hashes, required,
           map p | p in required :: Entry(Pending, "", map[]))
  }

  /** `create` */
  function Created(s: Store, id: string, hashes: Hashes, required: seq<Participant>): Store {
    var r := NewRecord(s, id, hashes, required);
    s.(records := s.records[id := r], desired := Some(r))
  }

  function StateAfter(p: Participant): SyncState {
    match p
    case Ros => PendingSionna
    case Sionna => PendingIsaac
    case Isaac => InSync
  }

  /** The record after `mark_participant`. */
  function MarkedRecord(r: Record, p: Participant, e: Entry): Record {
    var marked := r.(participants := r.participants[p := e]);
    match e.state
    case Acknowledged => marked.(state := StateAfter(p), phase := AppliedTo(p))
    case Failed => marked.(state := SyncFailed, phase := PhaseFailed)
    case Pending => marked
  }

  /** `_mark_from_ack` */
  function EntryOf(ack: Ack): Entry {
    Entry(if ack.accepted then Acknowledged else Failed, ack.revision, MarkedHashes(ack))
  }

  /** `mark_participant` */
  function Marked(s: Store, id: string, p: Participant, e: Entry): Store
    requires id in s.records
  {
    s.(records := s.records[id := MarkedRecord(s.records[id], p, e)])
  }

  /** `commit`, where it does not raise. */
  function Committed(s: Store, id: string): Store
    requires id in s.records
  {
    var r := s.records[id].(phase := PhaseCommitted, state := InSync);
    Store(s.records[id := r], Some(r), Some(r), s.acks)
  }

  /** `rollback`: a new revision with the hashes of the old candidate, in the rolled-back phase. */
  function RolledBack(s: Store, target: string, id: string): Store
    requires target in s.records
  {
    var c := Created(s, id, s.records[target].hashes, REQUIRED_PARTICIPANTS);
    c.(records := c.records[id := c.records[id].(phase := PhaseRolledBack, state := SyncRolledBack)])
  }

  // ---------------------------------------------------------------- every run

  /** What can happen to the store: a participant's acknowledgement is read, or an operation of the manager runs. */
  datatype Event =
    | Read(sender: Participant, ack: Ack)
    | Create(id: string, hashes: Hashes, required: seq<Participant>)
    | Mark(id: string, sender: Participant, entry: Entry)
    | Commit(id: string)
    | Rollback(target: string, id: string)

  /** An acknowledged entry goes back to an acknowledgement that was read from that participant. */
  ghost predicate BackedEntry(s: Store, p: Participant, e: Entry) {
    e.state == Acknowledged ==> exists ack :: (p, ack) in s.acks && EntryOf(ack) == e
  }

  lemma ReadIsBacked(s: Store, p: Participant, ack: Ack)
    requires (p, ack) in s.acks
    ensures EntryOf(ack).state != Pending && BackedEntry(s, p, EntryOf(ack))
  {
  }

  /** Participants are only marked as acknowledged on the strength of what was read from them; identifiers are new; a
      commit needs all confirmations. */
  ghost predicate Enabled(s: Store, e: Event) {
    match e
    case Read(_, _) => true
    case Create(id, _, _) => id !in s.records
    case Mark(id, sender, entry) => id in s.records && entry.state != Pending && BackedEntry(s, sender, entry)
    case Commit(id) => id in s.records && AllConfirmed(s.records[id])
    case Rollback(target, id) => target in s.records && id !in s.records
  }

  ghost function Next(s: Store, e: Event): Store
    requires Enabled(s, e)
  {
    match e
    case Read(sender, ack) => s.(acks := s.acks + {(sender, ack)})
    case Create(id, hashes, required) => Created(s, id, hashes, required)
    case Mark(id, sender, entry) => Marked(s, id, sender, entry)
    case Commit(id) => Committed(s, id)
    case Rollback(target, id) => RolledBack(s, target, id)
  }

  /** An acknowledgement of this revision by p, with all its hashes, has been read. */
  ghost predicate HasAcknowledged(s: Store, r: Record, p: Participant) {
    exists a :: (p, a) in s.acks && a.accepted && a.revision == r.id && Covers(MarkedHashes(a), r.hashes)
  }

  /** Every acknowledged entry goes back to an acknowledgement that was read. */
  ghost predicate Backed(s: Store, r: Record) {
    forall p :: p in r.participants ==> BackedEntry(s, p, r.participants[p])
  }

  ghost predicate RecordOk(s: Store, id: string, r: Record) {
    r.id == id && Backed(s, r) && (r.phase == PhaseCommitted ==> AllConfirmed(r))
  }

  ghost predicate Ok(s: Store) {
    && (forall id :: id in s.records ==> RecordOk(s, id, s.records[id]))
    && (s.committed.Some? ==> s.committed.value.phase == PhaseCommitted
                              && RecordOk(s, s.committed.value.id, s.committed.value))
    && DesiredOk(s)
  }

  /** The desired record is the committed one or a draft nobody has answered; without one nothing was committed. */
  ghost predicate DesiredOk(s: Store) {
    match s.desired
    case None => s.committed.None?
    case Some(d) => s.committed == Some(d) || Untouched(d)
  }

  ghost predicate Untouched(r: Record) {
    r.phase == DraftSaved && r.state == PendingRos && forall p :: p in r.participants ==> r.participants[p].state == Pending
  }

  lemma BackedMore(s: Store, t: Store, id: string, r: Record)
    requires RecordOk(s, id, r) && s.acks <= t.acks
    ensures RecordOk(t, id, r)
  {
  }

  lemma MarkedOk(s: Store, id: string, r: Record, p: Participant, e: Entry)
    requires RecordOk(s, id, r) && BackedEntry(s, p, e) && e.state != Pending
    ensures RecordOk(s, id, MarkedRecord(r, p, e))
  {
  }

  lemma NewRecordOk(s: Store, id: string, hashes: Hashes, required: seq<Participant>)
    ensures RecordOk(s, id, NewRecord(s, id, hashes, required))
  {
  }

  lemma CommittedOk(s: Store, id: string, r: Record)
    requires RecordOk(s, id, r) && AllConfirmed(r)
    ensures RecordOk(s, id, r.(phase := PhaseCommitted, state := InSync))
  {
    var c := r.(phase := PhaseCommitted, state := InSync);
    forall p | p in Required(c) ensures Confirmed(c, p) {
      assert Confirmed(r, p);
    }
  }

  /** Every step keeps the store in order. */
  lemma StepOk(s: Store, e: Event)
    requires Ok(s) && Enabled(s, e)
    ensures Ok(Next(s, e))
  {
    var t := Next(s, e);
    forall id | id in t.records ensures RecordOk(t, id, t.records[id]) {
      match e
      case Read(sender, ack) => BackedMore(s, t, id, s.records[id]);
      case Create(new_, hashes, required) =>
        if id == new_ { NewRecordOk(s, new_, hashes, required); }
      case Mark(marked, sender, entry) =>
        if id == marked { MarkedOk(s, id, s.records[id], sender, entry); }
      case Commit(committed) =>
        if id == committed { CommittedOk(s, id, s.records[id]); }
      case Rollback(target, new_) =>
        if id == new_ { NewRecordOk(s, new_, s.records[target].hashes, REQUIRED_PARTICIPANTS); }
    }
    if e.Commit? {
      CommittedOk(s, e.id, s.records[e.id]);
    } else if s.committed.Some? {
      BackedMore(s, t, s.committed.value.id, s.committed.value);
    }
  }

  ghost predicate Run(states: seq<Store>, events: seq<Event>) {
    && |states| == |events| + 1
    && states[0] == Store(map[], None, None, {})
    && forall k :: 0 <= k < |events| ==> Enabled(states[k], events[k]) && states[k+1] == Next(states[k], events[k])
  }

  lemma {:induction false} RunOk(states: seq<Store>, events: seq<Event>, n: nat)
    requires Run(states, events) && n < |states|
    ensures Ok(states[n])
  {
    if n > 0 {
      RunOk(states, events, n - 1);
      StepOk(states[n-1], events[n-1]);
      assert states[n-1+1] == Next(states[n-1], events[n-1]);
    }
  }

  /** Over every interleaving of requests, stale or timely acknowledgements, reconciliations and commits: the
      committed revision was acknowledged, by name and with every hash, by each participant it requires. */
  lemma CommittedIsAcknowledged(states: seq<Store>, events: seq<Event>, n: nat, p: Participant)
    requires Run(states, events) && n < |states| && states[n].committed.Some?
    requires p in Required(states[n].committed.value)
    ensures HasAcknowledged(states[n], states[n].committed.value, p)
  {
    RunOk(states, events, n);
    var r := states[n].committed.value;
    assert Confirmed(r, p);
    var a :| (p, a) in states[n].acks && EntryOf(a) == r.participants[p];
    assert a.accepted && a.revision == r.id;
  }

  // ---------------------------------------------------------------- who is confirmed

  /** The last entry made for p in the record, if any. */
  function LastEntry(events: seq<Event>, id: string, p: Participant): Option<Entry> {
    if events == [] then None
    else
      var e := events[|events|-1];
      if e.Mark? && e.id == id && e.sender == p then Some(e.entry) else LastEntry(events[..|events|-1], id, p)
  }

  /** Marking one participant leaves the others as they were, and confirms it exactly when the new entry does. */
  lemma MarkDecides(s: Store, id: string, p: Participant, q: Participant, e: Entry)
    requires id in s.records
    ensures var before, after := s.records[id], Marked(s, id, p, e).records[id];
            Confirmed(after, q) <==> if q == p then EntryConfirms(e, before) else Confirmed(before, q)
  {
  }

  /** Acknowledgements are not monotone: whatever was known, a participant is confirmed after an acknowledgement was
      read and marked exactly when that one accepts, names the revision and carries every hash. */
  lemma AckDecides(s: Store, id: string, p: Participant, ack: Ack)
    requires id in s.records && s.records[id].id == id
    ensures Confirmed(Marked(s, id, p, EntryOf(ack)).records[id], p)
       <==> ack.accepted && ack.revision == id && Covers(MarkedHashes(ack), s.records[id].hashes)
  {
    MarkDecides(s, id, p, p, EntryOf(ack));
  }

  /** Field by field: observed hashes count before applied ones, and those before the plain ones. */
  lemma AckDecidesByFields(s: Store, id: string, p: Participant, ack: Ack)
    requires id in s.records && s.records[id].id == id
    ensures var seen := if ack.observed != map[] then ack.observed else if ack.applied != map[] then ack.applied else ack.plain;
            Confirmed(Marked(s, id, p, EntryOf(ack)).records[id], p) <==>
              && ack.accepted && ack.revision == id
              && forall key :: key in s.records[id].hashes ==> key in seen && seen[key] == s.records[id].hashes[key]
  {
    AckDecides(s, id, p, ack);
  }

  /** The entry of p is the last one made, and pending before the first. */
  ghost predicate EntryIsLast(r: Record, p: Participant, last: Option<Entry>) {
    if last.Some? then p in r.participants && r.participants[p] == last.value
    else p in r.participants ==> r.participants[p].state == Pending
  }

  /** For a record that does not exist yet, no entry was ever made. */
  ghost predicate LastFor(s: Store, events: seq<Event>, id: string, p: Participant) {
    if id in s.records then EntryIsLast(s.records[id], p, LastEntry(events, id, p)) else LastEntry(events, id, p) == None
  }

  ghost predicate EntriesAreLast(s: Store, events: seq<Event>, p: Participant) {
    forall id :: LastFor(s, events, id, p)
  }

  lemma StaysLast(s: Store, events: seq<Event>, id: string, p: Participant)
    requires events != [] && Enabled(s, events[|events|-1]) && LastFor(s, events[..|events|-1], id, p)
    ensures LastFor(Next(s, events[|events|-1]), events, id, p)
  {
    hide BackedEntry, AllConfirmed;
  }

  lemma EntriesStayLast(s: Store, events: seq<Event>, p: Participant)
    requires events != [] && Enabled(s, events[|events|-1]) && EntriesAreLast(s, events[..|events|-1], p)
    ensures EntriesAreLast(Next(s, events[|events|-1]), events, p)
  {
    var t := Next(s, events[|events|-1]);
    forall id ensures LastFor(t, events, id, p) {
      StaysLast(s, events, id, p);
    }
  }

  lemma {:induction false} RunEntriesAreLast(states: seq<Store>, events: seq<Event>, n: nat, p: Participant)
    requires Run(states, events) && n < |states|
    ensures EntriesAreLast(states[n], events[..n], p)
  {
    if n > 0 {
      RunEntriesAreLast(states, events, n - 1, p);
      assert events[..n][..n-1] == events[..n-1];
      assert states[n-1+1] == Next(states[n-1], events[n-1]);
      EntriesStayLast(states[n-1], events[..n], p);
    }
  }

  /** In every state of every run, a participant is confirmed exactly when the last entry made for it confirms. */
  lemma LastEntryDecides(states: seq<Store>, events: seq<Event>, n: nat, id: string, p: Participant)
    requires Run(states, events) && n < |states| && id in states[n].records
    ensures var last := LastEntry(events[..n], id, p);
            Confirmed(states[n].records[id], p) <==> last.Some? && EntryConfirms(last.value, states[n].records[id])
  {
    RunEntriesAreLast(states, events, n, p);
    assert LastFor(states[n], events[..n], id, p);
  }

  /** Hence a revision can be committed exactly when the last entry of every required participant confirms it. */
  lemma LastEntriesCommit(states: seq<Store>, events: seq<Event>, n: nat, id: string)
    requires Run(states, events) && n < |states| && id in states[n].records
    ensures var r := states[n].records[id];
            Enabled(states[n], Commit(id)) <==>
              forall p :: p in Required(r) ==>
                LastEntry(events[..n], id, p).Some? && EntryConfirms(LastEntry(events[..n], id, p).value, r)
  {
    forall p ensures var last := LastEntry(events[..n], id, p);
                     Confirmed(states[n].records[id], p) <==> last.Some? && EntryConfirms(last.value, states[n].records[id]) {
      LastEntryDecides(states, events, n, id, p);
    }
  }

  /** A run in which a confirmed revision is no longer committable once a stale acknowledgement has been read. */
  lemma StaleAckTakesBack(id: string, hashes: Hashes, p: Participant, stale: Ack) returns (states: seq<Store>, events: seq<Event>)
    requires !(stale.accepted && stale.revision == id && Covers(MarkedHashes(stale), hashes))
    ensures Run(states, events) && |states| == 6
    ensures id in states[3].records && Required(states[3].records[id]) == [p] && AllConfirmed(states[3].records[id])
    ensures events[3] == Read(p, stale) && events[4] == Mark(id, p, EntryOf(stale))
    ensures id in states[5].records && !AllConfirmed(states[5].records[id])
    ensures Enabled(states[3], Commit(id)) && !Enabled(states[5], Commit(id))
  {
    var good := Ack(id, true, hashes, map[], map[]);
    assert MarkedHashes(good) == hashes;
    hide EntryOf, EntryConfirms, MarkedHashes, BackedEntry, Covers;
    events := [Create(id, hashes, [p]), Read(p, good), Mark(id, p, EntryOf(good)), Read(p, stale), Mark(id, p, EntryOf(stale))];
    var s0 := Store(map[], None, None, {});
    var s1 := Next(s0, events[0]);
    var s2 := Next(s1, events[1]);
    ReadIsBacked(s2, p, good);
    var s3 := Next(s2, events[2]);
    var s4 := Next(s3, events[3]);
    ReadIsBacked(s4, p, stale);
    var s5 := Next(s4, events[4]);
    states := [s0, s1, s2, s3, s4, s5];
    AckDecides(s2, id, p, good);
    AckDecides(s4, id, p, stale);
    assert p in Required(s5.records[id]);
  }

  // ---------------------------------------------------------------- status

  /** The part of `_ack_drift` that `status` looks at. */
  predicate Drifts(r: Record, ack: Ack) {
    (ack.revision != "" && ack.revision != r.id) || !Covers(DriftHashes(ack), r.hashes)
  }

  /** The two readings of an acknowledgement part ways only when it fills both observed_hashes and applied_hashes. */
  lemma ConfirmingDrift(r: Record, ack: Ack)
    requires EntryConfirms(EntryOf(ack), r)
    ensures Drifts(r, ack) <==> ack.observed != map[] && ack.applied != map[] && !Covers(ack.applied, r.hashes)
  {
  }

  /** Such an acknowledgement: it confirms a record, and is looked at as drift. */
  lemma ConfirmsAndDrifts(r: Record, key: string, other: string)
    requires key in r.hashes && r.hashes[key] != other
    ensures var ack := Ack(r.id, true, r.hashes, map[key := other], map[]);
            EntryConfirms(EntryOf(ack), r) && Drifts(r, ack)
  {
    var ack := Ack(r.id, true, r.hashes, map[key := other], map[]);
    assert key in ack.observed && key in ack.applied;
    assert DriftHashes(ack)[key] == other;
  }

  datatype Reported = DriftDetected | ReadyToCommit | Stated(state: SyncState)

  /** `status`: what is reported for a record, given the acknowledgement files. */
  function Status(r: Record, files: map<Participant, Ack>): Reported {
    if exists p :: p in files && Drifts(r, files[p]) then DriftDetected
    else if AllConfirmed(r) then (if r.phase == PhaseCommitted then Stated(InSync) else ReadyToCommit)
    else Stated(r.state)
  }

  /** The acknowledgement names another revision, or misses a hash or has another one, where applied hashes count before
      observed ones. */
  ghost predicate Strays(r: Record, ack: Ack) {
    var seen := if ack.applied != map[] then ack.applied else if ack.observed != map[] then ack.observed else ack.plain;
    || (ack.revision != "" && ack.revision != r.id)
    || exists key :: key in r.hashes && (key !in seen || seen[key] != r.hashes[key])
  }

  /** Drift is reported before everything else, then that a record is confirmed, and its own state only otherwise. */
  lemma StatusDecides(r: Record, files: map<Participant, Ack>)
    ensures Status(r, files) == DriftDetected <==> exists p :: p in files && Strays(r, files[p])
    ensures Status(r, files) == ReadyToCommit
       <==> (forall p :: p in files ==> !Strays(r, files[p])) && AllConfirmed(r) && r.phase != PhaseCommitted
    ensures Status(r, files).Stated? ==>
              Status(r, files).state == if AllConfirmed(r) then InSync else r.state
  {
    hide AllConfirmed, Drifts, Strays;
    forall p | p in files ensures Drifts(r, files[p]) <==> Strays(r, files[p]) {
      DriftIsStraying(r, files[p]);
    }
  }

  lemma DriftIsStraying(r: Record, ack: Ack)
    ensures Drifts(r, ack) <==> Strays(r, ack)
  {
  }

  /** The field in_sync. */
  predicate ReportsInSync(r: Record, files: map<Participant, Ack>) {
    Status(r, files) == Stated(InSync)
  }

  /** For records of a run, a report of being in sync means that everybody acknowledged exactly when the record is
      in the committed phase. */
  lemma InSyncMeansCommitted(s: Store, id: string, files: map<Participant, Ack>)
    requires Ok(s) && id in s.records && ReportsInSync(s.records[id], files)
    ensures AllConfirmed(s.records[id]) <==> s.records[id].phase == PhaseCommitted
  {
    assert RecordOk(s, id, s.records[id]);
  }

  /** The record `status` looks at when no revision is named. */
  function Looked(s: Store): Option<Record> {
    if s.desired.Some? then s.desired else s.committed
  }

  /** Without a name, `status` reports being in sync exactly when the desired revision is the committed one and no
      acknowledgement file drifts from it. */
  lemma UnnamedInSync(s: Store, files: map<Participant, Ack>)
    requires Ok(s)
    ensures Looked(s).Some? && ReportsInSync(Looked(s).value, files)
       <==> s.committed.Some? && s.desired == s.committed && forall p :: p in files ==> !Drifts(s.committed.value, files[p])
  {
    if s.desired.Some? && s.committed != s.desired {
      var d := s.desired.value;
      assert Untouched(d) && Required(d)[0] in Required(d);
      assert !Confirmed(d, Required(d)[0]);
    }
  }

  /** An acknowledgement of the last participant alone is enough for a report of being in sync. */
  lemma InSyncWithoutAcks(id: string, hashes: Hashes)
    requires id != ""
    ensures var s0 := Created(Store(map[], None, None, {}), id, hashes, REQUIRED_PARTICIPANTS);
            var ack := Ack(id, true, hashes, map[], map[]);
            var r := Marked(s0, id, Isaac, EntryOf(ack)).records[id];
            ReportsInSync(r, map[Isaac := ack]) && !Confirmed(r, Ros) && !Confirmed(r, Sionna)
  {
    var s0 := Created(Store(map[], None, None, {}), id, hashes, REQUIRED_PARTICIPANTS);
    var r := Marked(s0, id, Isaac, EntryOf(Ack(id, true, hashes, map[], map[]))).records[id];
    assert !Confirmed(r, Ros) && Ros in Required(r);
  }
}
