/** The classes `RevisionManager` of netlab/revisions.py and `RuntimeSynchronizer` of netlab/synchronization.py. */
module RuntimeSync {
  import opened Options
  import opened Revisions

  /** Success, or one of the two errors raised. */
  datatype Result = Done | Refused | UnknownRevision

  class RevisionManager {
    var records: map<string, Record>
    var desired: Option<Record>
    var committed: Option<Record>
    /** Every acknowledgement read from a participant so far. */
    ghost var acks: set<(Participant, Ack)>

    ghost function State(): Store
      reads this
    {
      Store(records, desired, committed, acks)
    }

    ghost predicate Valid()
      reads this
    {
      Ok(State())
    }

    constructor ()
      ensures Valid() && State() == Store(map[], None, None, {})
    {
      records, desired, committed, acks := map[], None, None, {};
    }

    /** `create`; the identifier stands for a fresh uuid4. */
    method CreateRevision(id: string, hashes: Hashes, required: seq<Participant>) returns (record: Record)
      requires Valid() && id !in records
      modifies this
      ensures Valid() && State() == Created(old(State()), id, hashes, required)
      ensures record == Record(id, if committed.Some? then committed.value.id else "", DraftSaved, PendingRos, hashes, required,
                               map p | p in required :: Entry(Pending, "", map[]))
      ensures records == old(records)[id := record] && desired == Some(record) && committed == old(committed)
    {
      StepOk(State(), Create(id, hashes, required));
      var parent := if committed.Some? then committed.value.id else "";
      record := Record(id, parent, DraftSaved, PendingRos, hashes, required,
                       map p | p in required :: Entry(Pending, "", map[]));
      records := records[id := record];
      desired := Some(record);
    }

    /** `mark_participant`. The laws of the store survive a mark that goes back to what was read from the participant. */
    method MarkParticipant(id: string, participant: Participant, entry: Entry) returns (result: Result)
      requires Valid()
      modifies this`records
      ensures result == if id in old(records) then Done else UnknownRevision
      ensures State() == if result == Done then Marked(old(State()), id, participant, entry) else old(State())
      ensures entry.state != Pending && BackedEntry(State(), participant, entry) ==> Valid()
      ensures result == Done ==> id in old(records) && id in records && var was, now := old(records)[id], records[id];
                && now == was.(participants := was.participants[participant := entry], state := now.state, phase := now.phase)
                && (entry.state == Pending ==> now.state == was.state && now.phase == was.phase)
                && (entry.state == Failed ==> now.state == SyncFailed && now.phase == PhaseFailed)
                && (entry.state == Acknowledged ==>
                      && now.phase == AppliedTo(participant)
                      && (participant == Ros ==> now.state == PendingSionna)
                      && (participant == Sionna ==> now.state == PendingIsaac)
                      && (participant == Isaac ==> now.state == InSync))
    {
      if id !in records {
        return UnknownRevision;
      }
      if entry.state != Pending && BackedEntry(State(), participant, entry) {
        StepOk(State(), Mark(id, participant, entry));
      }
      var record := records[id];
      record := record.(participants := record.participants[participant := entry]);
      if entry.state == Acknowledged {
        record := record.(state := StateAfter(participant), phase := AppliedTo(participant));
      } else if entry.state == Failed {
        record := record.(state := SyncFailed, phase := PhaseFailed);
      }
      records := records[id := record];
      result := Done;
    }

    /** `all_required_acknowledged` */
    method AllRequiredAcknowledged(record: Record) returns (all: bool)
      ensures all <==> AllConfirmed(record)
    {
      var required := if record.required == [] then REQUIRED_PARTICIPANTS else record.required;
      for i := 0 to |required|
        invariant forall j :: 0 <= j < i ==> Confirmed(record, required[j])
      {
        var name := required[i];
        assert name in Required(record);
        if name !in record.participants {
          return false;
        }
        var participant := record.participants[name];
        if participant.state != Acknowledged {
          return false;
        }
        if participant.observedRevision != record.id {
          return false;
        }
        var matching := AllMatch(participant.observedHashes, record.hashes);
        if !matching {
          return false;
        }
      }
      all := true;
    }

    /** not any(observed.get(key) != value for key, value in expected.items()) */
    method AllMatch(observed: Hashes, expected: Hashes) returns (matching: bool)
      ensures matching <==> Covers(observed, expected)
    {
      var todo := expected.Keys;
      while todo != {}
        invariant todo <= expected.Keys
        invariant forall key :: key in expected && key !in todo ==> key in observed && observed[key] == expected[key]
      {
        var key :| key in todo;
        todo := todo - {key};
        if key !in observed || observed[key] != expected[key] {
          return false;
        }
      }
      matching := true;
    }

    /** `commit` */
    method CommitRevision(id: string) returns (result: Result)
      requires Valid()
      modifies this
      ensures Valid()
      ensures result == if id !in old(records) then UnknownRevision
                        else if AllConfirmed(old(records)[id]) then Done else Refused
      ensures result == Done ==> State() == Committed(old(State()), id)
      ensures result == Done ==>
                && id in old(records) && id in records && records[id] == old(records)[id].(phase := PhaseCommitted, state := InSync)
                && committed == Some(records[id]) && desired == Some(records[id])
      ensures result != Done ==> State() == old(State())
    {
      if id !in records {
        return UnknownRevision;
      }
      var record := records[id];
      var all := AllRequiredAcknowledged(record);
      if !all {
        return Refused;
      }
      StepOk(State(), Commit(id));
      record := record.(phase := PhaseCommitted, state := InSync);
      records := records[id := record];
      committed := Some(record);
      desired := Some(record);
      result := Done;
    }

    /** `rollback` */
    method RollbackTo(target: string, id: string) returns (result: Result)
      requires Valid() && id !in records
      modifies this
      ensures Valid() && result == if target in old(records) then Done else UnknownRevision
      ensures result == Done ==> State() == RolledBack(old(State()), target, id)
      ensures result == Done ==>
                && target in old(records) && id in records && records[id].hashes == old(records)[target].hashes
                && records[id].phase == PhaseRolledBack && records[id].state == SyncRolledBack
                && records[id].required == REQUIRED_PARTICIPANTS && committed == old(committed)
                && desired == Some(records[id].(phase := DraftSaved, state := PendingRos))
      ensures result != Done ==> State() == old(State())
    {
      if target !in records {
        return UnknownRevision;
      }
      StepOk(State(), Rollback(target, id));
      var record := CreateRevision(id, records[target].hashes, REQUIRED_PARTICIPANTS);
      record := record.(phase := PhaseRolledBack, state := SyncRolledBack);
      records := records[id := record];
      result := Done;
    }
  }

  // ---------------------------------------------------------------- waiting for an acknowledgement

  /** The values read until the deadline, an empty file being None: the first that names the revision, otherwise
      the last that is not empty. */
  function Latest(polls: seq<Option<Ack>>, id: string): Option<Ack> {
    if polls == [] then None
    else if polls[0].Some? && polls[0].value.revision == id then polls[0]
    else
      var later := Latest(polls[1..], id);
      if later.None? then polls[0] else later
  }

  /** The answer names the revision as soon as one that was read does. */
  lemma {:induction false} LatestFindsIt(polls: seq<Option<Ack>>, id: string, k: nat)
    requires k < |polls| && polls[k].Some? && polls[k].value.revision == id
    ensures Latest(polls, id).Some? && Latest(polls, id).value.revision == id
  {
    if k > 0 && !(polls[0].Some? && polls[0].value.revision == id) {
      LatestFindsIt(polls[1..], id, k - 1);
    }
  }

  /** On a timeout with only foreign acknowledgements around, one of them is handed back. */
  lemma {:induction false} LatestMayBeForeign(polls: seq<Option<Ack>>, id: string)
    requires forall k :: 0 <= k < |polls| ==> polls[k].None? || polls[k].value.revision != id
    ensures Latest(polls, id).None? <==> forall k :: 0 <= k < |polls| ==> polls[k].None?
    ensures Latest(polls, id).Some? ==> Latest(polls, id).value.revision != id && Latest(polls, id) in polls
  {
    if polls != [] {
      LatestMayBeForeign(polls[1..], id);
      assert Latest(polls, id).None? ==> forall k :: 0 <= k < |polls| ==> polls[k].None? by {
        if Latest(polls, id).None? {
          forall k | 0 <= k < |polls| ensures polls[k].None? {
            if k > 0 { assert polls[k] == polls[1..][k-1]; }
          }
        }
      }
    }
  }

  lemma {:induction false} LatestSnoc(polls: seq<Option<Ack>>, value: Option<Ack>, id: string)
    requires forall k :: 0 <= k < |polls| ==> polls[k].None? || polls[k].value.revision != id
    ensures Latest(polls + [value], id) == if value.Some? then value else Latest(polls, id)
  {
    if polls != [] {
      LatestSnoc(polls[1..], value, id);
      assert (polls + [value])[1..] == polls[1..] + [value];
    }
  }

  lemma {:induction false} LatestPrefix(polls: seq<Option<Ack>>, more: seq<Option<Ack>>, id: string, k: nat)
    requires k < |polls| && polls[k].Some? && polls[k].value.revision == id
    requires forall j :: 0 <= j < k ==> polls[j].None? || polls[j].value.revision != id
    ensures Latest(polls + more, id) == polls[k]
  {
    if k > 0 {
      LatestPrefix(polls[1..], more, id, k - 1);
      assert (polls + more)[1..] == polls[1..] + more;
    }
  }

  /** `_wait_ack`; polls are the values found in the files until the deadline. */
  method WaitAck(polls: seq<Option<Ack>>, id: string) returns (ack: Option<Ack>)
    ensures ack == Latest(polls, id)
  {
    ack := None;
    for i := 0 to |polls|
      invariant forall k :: 0 <= k < i ==> polls[k].None? || polls[k].value.revision != id
      invariant ack == Latest(polls[..i], id)
    {
      var value := polls[i];
      assert polls[..i+1] == polls[..i] + [value];
      LatestSnoc(polls[..i], value, id);
      if value.Some? && value.value.revision == id {
        assert polls == polls[..i+1] + polls[i+1..];
        LatestPrefix(polls[..i+1], polls[i+1..], id, i);
        return value;
      }
      if value.Some? {
        ack := value;
      }
    }
    assert polls[..|polls|] == polls;
  }

  lemma {:induction false} LatestIsRead(polls: seq<Option<Ack>>, id: string)
    ensures Latest(polls, id).Some? ==> Latest(polls, id) in polls
  {
    if polls != [] {
      LatestIsRead(polls[1..], id);
    }
  }

  // ---------------------------------------------------------------- one synchronization

  /** What the participants answer during one `apply`. */
  datatype Answers = Answers(ros: seq<Option<Ack>>, sionna: HttpAnswer, isaac: seq<Option<Ack>>)

  /** The answer over HTTP, and whether one of its fields ok and accepted is true: accepted decides over ok when the
      answer has both, so the two may differ. */
  datatype HttpAnswer = HttpAnswer(ack: Ack, okOrAccepted: bool)

  /** bool(ack and ack revision == revision_id and accepted) */
  predicate Accepts(ack: Option<Ack>, id: string) {
    ack.Some? && ack.value.revision == id && ack.value.accepted
  }

  /** The acknowledgement a participant's round ends with. */
  function Answer(a: Answers, p: Participant, id: string): Option<Ack> {
    match p
    case Ros => Latest(a.ros, id)
    case Sionna => Some(a.sionna.ack)
    case Isaac => Latest(a.isaac, id)
  }

  /** Whether the round of p records its acknowledgement: over HTTP only when ok or accepted is set, otherwise whenever
      something was read. */
  predicate Recorded(a: Answers, p: Participant, id: string) {
    Answer(a, p, id).Some? && (p == Sionna ==> a.sionna.okOrAccepted)
  }

  /** What the answers of the participants asked make of p's confirmation of a record. */
  predicate Decided(r: Record, a: Answers, id: string, asked: seq<Participant>, p: Participant) {
    if p in asked && Recorded(a, p, id) then EntryConfirms(EntryOf(Answer(a, p, id).value), r) else Confirmed(r, p)
  }

  /** now is r after the participants asked so far have answered. */
  ghost predicate Answered(r: Record, now: Record, a: Answers, id: string, asked: seq<Participant>) {
    && now.id == r.id && now.hashes == r.hashes && now.required == r.required
    && forall p :: Confirmed(now, p) <==> Decided(r, a, id, asked, p)
  }

  lemma AnsweredNone(r: Record, a: Answers, id: string)
    ensures Answered(r, r, a, id, [])
  {
  }

  lemma AnsweredMore(r: Record, now: Record, a: Answers, id: string, asked: seq<Participant>, p: Participant)
    requires Answered(r, now, a, id, asked)
    ensures var next := if Recorded(a, p, id) then MarkedRecord(now, p, EntryOf(Answer(a, p, id).value)) else now;
            p !in asked ==> Answered(r, next, a, id, asked + [p])
  {
    if p !in asked {
      var next := if Recorded(a, p, id) then MarkedRecord(now, p, EntryOf(Answer(a, p, id).value)) else now;
      forall q ensures Confirmed(next, q) <==> Decided(r, a, id, asked + [p], q) {
        assert Confirmed(now, q) <==> Decided(r, a, id, asked, q);
        assert q in asked + [p] <==> q in asked || q == p;
      }
    }
  }

  /** Whether the answers to those asked leave the record committable. */
  predicate Committable(r: Record, a: Answers, id: string, asked: seq<Participant>) {
    forall p :: p in Required(r) ==> Decided(r, a, id, asked, p)
  }

  lemma AnsweredCommits(r: Record, now: Record, a: Answers, id: string, asked: seq<Participant>)
    requires Answered(r, now, a, id, asked)
    ensures AllConfirmed(now) <==> Committable(r, a, id, asked)
  {
    forall p ensures Confirmed(now, p) <==> Decided(r, a, id, asked, p) {
    }
  }

  // ---------------------------------------------------------------- the answers, field by field

  /** The acknowledgement was found in the file of p, or came from it over HTTP. */
  ghost predicate ReadFrom(a: Answers, p: Participant, ack: Ack) {
    && (p == Ros ==> Some(ack) in a.ros)
    && (p == Sionna ==> ack == a.sionna.ack)
    && (p == Isaac ==> Some(ack) in a.isaac)
  }

  /** The k-th poll is the first to find an acknowledgement of this revision. */
  ghost predicate FirstNaming(polls: seq<Option<Ack>>, id: string, k: int) {
    && 0 <= k < |polls| && polls[k].Some? && polls[k].value.revision == id
    && forall j :: 0 <= j < k ==> polls[j].None? || polls[j].value.revision != id
  }

  /** The first acknowledgement of this revision that was found accepts it. */
  ghost predicate FileAccepts(polls: seq<Option<Ack>>, id: string) {
    exists k :: FirstNaming(polls, id, k) && polls[k].value.accepted
  }

  /** What a file makes of a confirmation: the first acknowledgement of this revision decides by acceptance and hashes;
      foreign ones alone take the confirmation back, and an empty file leaves it as it was. */
  ghost predicate FileConfirms(polls: seq<Option<Ack>>, id: string, hashes: Hashes, before: bool) {
    || (exists k :: FirstNaming(polls, id, k) && polls[k].value.accepted && Covers(MarkedHashes(polls[k].value), hashes))
    || (before && forall k :: 0 <= k < |polls| ==> polls[k] == None)
  }

  lemma {:induction false} NamedHasFirst(polls: seq<Option<Ack>>, id: string, k: nat) returns (first: nat)
    requires k < |polls| && polls[k].Some? && polls[k].value.revision == id
    ensures FirstNaming(polls, id, first)
    decreases k
  {
    if j :| 0 <= j < k && polls[j].Some? && polls[j].value.revision == id {
      first := NamedHasFirst(polls, id, j);
    } else {
      first := k;
    }
  }

  lemma OneFirst(polls: seq<Option<Ack>>, id: string, j: int, k: int)
    requires FirstNaming(polls, id, j) && FirstNaming(polls, id, k)
    ensures j == k
  {
  }

  /** What waiting returns is what the file says. */
  lemma LatestIs(polls: seq<Option<Ack>>, id: string, r: Record, before: bool)
    requires r.id == id
    ensures Accepts(Latest(polls, id), id) <==> FileAccepts(polls, id)
    ensures (if Latest(polls, id).Some? then EntryConfirms(EntryOf(Latest(polls, id).value), r) else before)
       <==> FileConfirms(polls, id, r.hashes, before)
  {
    if k :| 0 <= k < |polls| && polls[k].Some? && polls[k].value.revision == id {
      var first := NamedHasFirst(polls, id, k);
      LatestPrefix(polls[..first+1], polls[first+1..], id, first);
      assert polls[..first+1] + polls[first+1..] == polls;
      forall j | FirstNaming(polls, id, j) ensures j == first {
        OneFirst(polls, id, first, j);
      }
    } else {
      LatestMayBeForeign(polls, id);
    }
  }

  /** What the answers of those asked make of the confirmations of a record. */
  ghost predicate Reflected(r: Record, now: Record, a: Answers, asked: seq<Participant>) {
    && (Confirmed(now, Ros) <==>
          if Ros in asked then FileConfirms(a.ros, r.id, r.hashes, Confirmed(r, Ros)) else Confirmed(r, Ros))
    && (Confirmed(now, Sionna) <==>
          if Sionna in asked && a.sionna.okOrAccepted then
            a.sionna.ack.accepted && a.sionna.ack.revision == r.id && Covers(MarkedHashes(a.sionna.ack), r.hashes)
          else Confirmed(r, Sionna))
    && (Confirmed(now, Isaac) <==>
          if Isaac in asked then FileConfirms(a.isaac, r.id, r.hashes, Confirmed(r, Isaac)) else Confirmed(r, Isaac))
  }

  lemma AnsweredIs(r: Record, now: Record, a: Answers, id: string, asked: seq<Participant>)
    requires r.id == id && Answered(r, now, a, id, asked)
    ensures Reflected(r, now, a, asked)
  {
    hide Confirmed, EntryConfirms, Latest, FileConfirms;
    LatestIs(a.ros, id, r, Confirmed(r, Ros));
    LatestIs(a.isaac, id, r, Confirmed(r, Isaac));
    assert forall p :: Confirmed(now, p) <==> Decided(r, a, id, asked, p);
    SionnaConfirms(r, a);
  }

  lemma SionnaConfirms(r: Record, a: Answers)
    ensures EntryConfirms(EntryOf(a.sionna.ack), r)
       <==> a.sionna.ack.accepted && a.sionna.ack.revision == r.id && Covers(MarkedHashes(a.sionna.ack), r.hashes)
  {
  }

  /** Those asked whose answer was read and was no acceptance of this revision. */
  ghost predicate Refusing(a: Answers, id: string, asked: seq<Participant>, pending: seq<Participant>) {
    && (Ros in pending <==> Ros in asked && !FileAccepts(a.ros, id))
    && (Sionna in pending <==> Sionna in asked && !(a.sionna.ack.accepted && a.sionna.ack.revision == id))
    && (Isaac in pending <==> Isaac in asked && !FileAccepts(a.isaac, id))
  }

  lemma PendingIs(r: Record, a: Answers, asked: seq<Participant>, pending: seq<Participant>)
    requires forall p :: p in pending <==> p in asked && !Accepts(Answer(a, p, r.id), r.id)
    ensures Refusing(a, r.id, asked, pending)
  {
    hide Latest, FileAccepts;
    LatestIs(a.ros, r.id, r, false);
    LatestIs(a.isaac, r.id, r, false);
    assert Accepts(Answer(a, Ros, r.id), r.id) <==> FileAccepts(a.ros, r.id);
    assert Accepts(Answer(a, Isaac, r.id), r.id) <==> FileAccepts(a.isaac, r.id);
    assert Accepts(Answer(a, Sionna, r.id), r.id) <==> a.sionna.ack.accepted && a.sionna.ack.revision == r.id;
  }

  /** No poll found an acknowledgement that names the revision and accepts. */
  ghost predicate NoneAccepts(polls: seq<Option<Ack>>, id: string) {
    forall k :: 0 <= k < |polls| && polls[k].Some? ==> polls[k].value.revision != id || !polls[k].value.accepted
  }

  /** Where none accepts, nothing is accepted and nothing newly confirmed. */
  lemma SilenceConfirmsNothing(polls: seq<Option<Ack>>, id: string, hashes: Hashes, before: bool)
    ensures NoneAccepts(polls, id) ==> !FileAccepts(polls, id) && (FileConfirms(polls, id, hashes, before) ==> before)
  {
  }

  datatype Reconciled = NoDesiredRevision | NoSuchRevision | Tried(committable: bool)

  lemma RecordIsNamed(s: Store, id: string)
    requires Ok(s) && id in s.records
    ensures s.records[id].id == id
  {
    assert RecordOk(s, id, s.records[id]);
  }

  /** One answer, read and recorded. */
  lemma OneAnswered(r: Record, a: Answers, p: Participant)
    ensures var ack := Answer(a, p, r.id);
            var now := if Recorded(a, p, r.id) then MarkedRecord(r, p, EntryOf(ack.value)) else r;
            && (ack.Some? ==> ReadFrom(a, p, ack.value)) && Reflected(r, now, a, [p])
            && (p == Ros ==> (Accepts(ack, r.id) <==> FileAccepts(a.ros, r.id)))
            && (p == Isaac ==> (Accepts(ack, r.id) <==> FileAccepts(a.isaac, r.id)))
  {
    hide Confirmed, EntryConfirms, EntryOf, MarkedRecord, Latest, Reflected, FileAccepts, FileConfirms, Answered;
    LatestIsRead(a.ros, r.id);
    LatestIsRead(a.isaac, r.id);
    LatestIs(a.ros, r.id, r, false);
    LatestIs(a.isaac, r.id, r, false);
    AnsweredNone(r, a, r.id);
    AnsweredMore(r, r, a, r.id, [], p);
    assert [] + [p] == [p];
    AnsweredIs(r, if Recorded(a, p, r.id) then MarkedRecord(r, p, EntryOf(Answer(a, p, r.id).value)) else r, a, r.id, [p]);
  }

  lemma SilentIsPending(r: Record, now: Record, a: Answers, asked: seq<Participant>, pending: seq<Participant>)
    requires Reflected(r, now, a, asked) && Refusing(a, r.id, asked, pending)
    ensures Ros in asked && NoneAccepts(a.ros, r.id) ==> Ros in pending && (Confirmed(now, Ros) ==> Confirmed(r, Ros))
    ensures Isaac in asked && NoneAccepts(a.isaac, r.id) ==> Isaac in pending && (Confirmed(now, Isaac) ==> Confirmed(r, Isaac))
  {
    hide Confirmed, NoneAccepts, FileAccepts, FileConfirms;
    SilenceConfirmsNothing(a.ros, r.id, r.hashes, Confirmed(r, Ros));
    SilenceConfirmsNothing(a.isaac, r.id, r.hashes, Confirmed(r, Isaac));
  }

  /** The store after those asked have been asked: only this record has changed, by their answers, only what they sent was
      read, and pending lists those who do not accept. */
  ghost predicate Asked(was: Store, now: Store, id: string, a: Answers, asked: seq<Participant>, pending: seq<Participant>) {
    && id in was.records && now.records.Keys == was.records.Keys && was.records[id].id == id
    && Answered(was.records[id], now.records[id], a, id, asked)
    && (forall other :: other in now.records && other != id ==> now.records[other] == was.records[other])
    && (forall p, ack :: (p, ack) in now.acks && (p, ack) !in was.acks ==> ReadFrom(a, p, ack))
    && (forall p :: p in pending <==> p in asked && !Accepts(Answer(a, p, id), id))
    && now.committed == was.committed && now.desired == was.desired
  }

  lemma AskedNone(s: Store, id: string, a: Answers)
    requires Ok(s) && id in s.records
    ensures Asked(s, s, id, a, [], [])
  {
    RecordIsNamed(s, id);
    AnsweredNone(s.records[id], a, id);
  }

  /** What asking p adds to the store. */
  ghost function Asking(s: Store, id: string, a: Answers, p: Participant): Store
    requires id in s.records
  {
    var ack := Answer(a, p, id);
    s.(acks := s.acks + (if ack.Some? then {(p, ack.value)} else {}),
       records := if Recorded(a, p, id) then s.records[id := MarkedRecord(s.records[id], p, EntryOf(ack.value))] else s.records)
  }

  lemma AskedMore(was: Store, now: Store, id: string, a: Answers, asked: seq<Participant>, pending: seq<Participant>, p: Participant)
    requires Asked(was, now, id, a, asked, pending) && p !in asked
    ensures Asked(was, Asking(now, id, a, p), id, a, asked + [p],
                  if Accepts(Answer(a, p, id), id) then pending else pending + [p])
  {
    hide Answered, Accepts, MarkedRecord, EntryOf;
    AnsweredMore(was.records[id], now.records[id], a, id, asked, p);
    OneAnswered(was.records[id], a, p);
  }

  /** What a round comes to. */
  lemma RoundIs(was: Store, now: Store, id: string, a: Answers, asked: seq<Participant>, pending: seq<Participant>)
    requires Asked(was, now, id, a, asked, pending)
    ensures id in was.records && id in now.records && now.committed == was.committed && now.desired == was.desired
    ensures AllConfirmed(now.records[id]) <==> Committable(was.records[id], a, id, asked)
    ensures now.records.Keys == was.records.Keys
    ensures forall other :: other in now.records && other != id ==> now.records[other] == was.records[other]
    ensures forall p, ack :: (p, ack) in now.acks && (p, ack) !in was.acks ==> ReadFrom(a, p, ack)
    ensures forall p :: p in pending <==> p in asked && !Accepts(Answer(a, p, id), id)
    ensures Reflected(was.records[id], now.records[id], a, asked) && Refusing(a, id, asked, pending)
    ensures Ros in asked && NoneAccepts(a.ros, id) ==>
              Ros in pending && (Confirmed(now.records[id], Ros) ==> Confirmed(was.records[id], Ros))
    ensures Isaac in asked && NoneAccepts(a.isaac, id) ==>
              Isaac in pending && (Confirmed(now.records[id], Isaac) ==> Confirmed(was.records[id], Isaac))
  {
    hide Answered, Answer, Accepts, AllConfirmed, Committable, Reflected, Refusing, NoneAccepts, Confirmed, ReadFrom;
    var r, next := was.records[id], now.records[id];
    AnsweredCommits(r, next, a, id, asked);
    AnsweredIs(r, next, a, id, asked);
    PendingIs(r, a, asked, pending);
    SilentIsPending(r, next, a, asked, pending);
  }

  class RuntimeSynchronizer {
    const manager: RevisionManager

    constructor (manager: RevisionManager)
      ensures this.manager == manager
    {
      this.manager := manager;
    }

    /** `_apply_ros`, `_apply_sionna` or `_apply_isaac`. */
    method ApplyTo(p: Participant, id: string, answers: Answers) returns (ack: Option<Ack>)
      requires manager.Valid() && id in manager.records
      modifies manager`records, manager`acks
      ensures manager.Valid() && ack == Answer(answers, p, id)
      ensures manager.acks == old(manager.acks) + (if ack.Some? then {(p, ack.value)} else {})
      ensures ack.Some? ==> ReadFrom(answers, p, ack.value)
      ensures p == Ros ==> (Accepts(ack, id) <==> FileAccepts(answers.ros, id))
      ensures p == Isaac ==> (Accepts(ack, id) <==> FileAccepts(answers.isaac, id))
      ensures p == Sionna ==> ack == Some(answers.sionna.ack)
      ensures manager.records == if Recorded(answers, p, id) then
                                   old(manager.records)[id := MarkedRecord(old(manager.records)[id], p, EntryOf(ack.value))]
                                 else old(manager.records)
      ensures Reflected(old(manager.records)[id], manager.records[id], answers, [p])
      ensures manager.State() == Asking(old(manager.State()), id, answers, p)
    {
      hide Ok, Confirmed, EntryConfirms, EntryOf, MarkedRecord, Latest, Reflected, FileAccepts, FileConfirms, Answered;
      ghost var before := manager.records[id];
      assert before.id == id by { RecordIsNamed(manager.State(), id); }
      match p {
        case Ros => ack := WaitAck(answers.ros, id);
        case Sionna => ack := Some(answers.sionna.ack);
        case Isaac => ack := WaitAck(answers.isaac, id);
      }
      OneAnswered(before, answers, p);
      if ack.Some? {
        StepOk(manager.State(), Read(p, ack.value));
        manager.acks := manager.acks + {(p, ack.value)};
        if p != Sionna || answers.sionna.okOrAccepted {
          ReadIsBacked(manager.State(), p, ack.value);
          var marked := manager.MarkParticipant(id, p, EntryOf(ack.value));
        }
      }
    }

    /** `apply`: the three participants in order; an absent one either stops the round or is left pending. The outcome is
        decided by the record as it was and the answers of those asked. */
    method Apply(id: string, answers: Answers, offlineIsPending: bool)
      returns (committable: bool, pending: seq<Participant>, ghost asked: seq<Participant>)
      requires manager.Valid() && id in manager.records
      modifies manager`records, manager`acks
      ensures manager.Valid() && id in manager.records
      ensures committable <==> AllConfirmed(manager.records[id])
      ensures committable <==> Committable(old(manager.records)[id], answers, id, asked)
      ensures asked <= REQUIRED_PARTICIPANTS && forall p :: p in pending <==> p in asked && !Accepts(Answer(answers, p, id), id)
      ensures offlineIsPending || pending == [] ==> asked == REQUIRED_PARTICIPANTS == [Ros, Sionna, Isaac]
      ensures !offlineIsPending && pending != [] ==> asked != [] && pending == [asked[|asked|-1]]
      ensures manager.committed == old(manager.committed) && manager.desired == old(manager.desired)
      ensures manager.records.Keys == old(manager.records.Keys)
      ensures forall other :: other in manager.records && other != id ==> manager.records[other] == old(manager.records)[other]
      ensures forall p, ack :: (p, ack) in manager.acks && (p, ack) !in old(manager.acks) ==> ReadFrom(answers, p, ack)
      ensures Reflected(old(manager.records)[id], manager.records[id], answers, asked)
      ensures Refusing(answers, id, asked, pending)
      ensures Ros in asked && NoneAccepts(answers.ros, id) ==>
                Ros in pending && (Confirmed(manager.records[id], Ros) ==> Confirmed(old(manager.records)[id], Ros))
      ensures Isaac in asked && NoneAccepts(answers.isaac, id) ==>
                Isaac in pending && (Confirmed(manager.records[id], Isaac) ==> Confirmed(old(manager.records)[id], Isaac))
    {
      hide Ok, AllConfirmed, Answer, Asked, Asking, Accepts, Committable, Reflected, Refusing, NoneAccepts, Confirmed, ReadFrom;
      ghost var was := manager.State();
      AskedNone(was, id, answers);
      pending, asked := [], [];
      var i := 0;
      while i < |REQUIRED_PARTICIPANTS|
        invariant 0 <= i <= 3 && manager.Valid() && asked == REQUIRED_PARTICIPANTS[..i]
        invariant id in manager.records && Asked(was, manager.State(), id, answers, asked, pending)
        invariant !offlineIsPending ==> pending == []
      {
        var p := REQUIRED_PARTICIPANTS[i];
        AskedMore(was, manager.State(), id, answers, asked, pending, p);
        var ack := ApplyTo(p, id, answers);
        asked := asked + [p];
        i := i + 1;
        if !Accepts(ack, id) {
          pending := pending + [p];
          if !offlineIsPending {
            break;
          }
        }
      }
      RoundIs(was, manager.State(), id, answers, asked, pending);
      committable := manager.AllRequiredAcknowledged(manager.records[id]);
    }

    /** `reconcile`: the named revision, or the desired one. */
    method Reconcile(revision: string, answers: Answers) returns (outcome: Reconciled)
      requires manager.Valid()
      modifies manager`records, manager`acks
      ensures manager.Valid() && manager.committed == old(manager.committed) && manager.desired == old(manager.desired)
      ensures manager.records.Keys == old(manager.records.Keys)
      ensures var id := if revision != "" then revision
                        else if manager.desired.Some? then manager.desired.value.id else "";
              outcome == if id == "" then NoDesiredRevision
                         else if id !in manager.records then NoSuchRevision
                         else Tried(Committable(old(manager.records)[id], answers, id, REQUIRED_PARTICIPANTS))
      ensures var id := if revision != "" then revision
                        else if manager.desired.Some? then manager.desired.value.id else "";
              forall other :: other in manager.records && other != id ==> manager.records[other] == old(manager.records)[other]
      ensures !outcome.Tried? ==> manager.State() == old(manager.State())
      ensures outcome.Tried? ==> var id := if revision != "" then revision else old(manager.desired).value.id;
                && id in manager.records && outcome.committable == AllConfirmed(manager.records[id])
                && Reflected(old(manager.records)[id], manager.records[id], answers, [Ros, Sionna, Isaac])
    {
      var id := revision;
      if id == "" && manager.desired.Some? {
        id := manager.desired.value.id;
      }
      if id == "" {
        return NoDesiredRevision;
      }
      if id !in manager.records {
        return NoSuchRevision;
      }
      var committable, pending;
      ghost var asked;
      hide Reflected, AllConfirmed, Refusing, Committable, Ok;
      committable, pending, asked := Apply(id, answers, true);
      outcome := Tried(committable);
    }

    /** Synchronizing and then committing: the commit goes through exactly when the round left the revision
        committable, and then every required participant has acknowledged it. */
    method ApplyAndCommit(id: string, answers: Answers) returns (committable: bool, result: Result)
      requires manager.Valid() && id in manager.records
      modifies manager
      ensures manager.Valid() && (result == Done <==> committable)
      ensures committable <==> Committable(old(manager.records)[id], answers, id, REQUIRED_PARTICIPANTS)
      ensures committable ==> manager.committed.Some? && manager.committed.value.id == id
      ensures committable ==> forall p :: p in Required(manager.committed.value) ==>
                                HasAcknowledged(manager.State(), manager.committed.value, p)
      ensures !committable ==> manager.committed == old(manager.committed)
    {
      var pending;
      ghost var asked;
      committable, pending, asked := Apply(id, answers, true);
      result := manager.CommitRevision(id);
      if committable {
        ghost var r := manager.committed.value;
        forall p | p in Required(r) ensures HasAcknowledged(manager.State(), r, p) {
          assert Confirmed(r, p);
          var a :| (p, a) in manager.acks && EntryOf(a) == r.participants[p];
          assert a.accepted && a.revision == r.id;
        }
      }
    }
  }
}
