/** The typed store of netlab/revisions.py and the `SynchronizationCoordinator` of netlab/synchronization.py. */
module RevisionStore {
  import opened Options
  import opened Revisions

  datatype Status = Draft | Validated | WaitingFor(name: string) | AppliedBy(name: string) | AllApplied | Final
                  | Degraded | Drifted | BackedOut

  /** The answer of one participant. */
  datatype Answer = Answer(participant: string, revision: string, accepted: bool, observed: Hashes)

  datatype Revision = Revision(id: string, parent: string, hashes: Hashes, status: Status, acks: map<string, Answer>)

  /** Hashes that are observed agree with the expected ones; a missing one does not count against the answer. */
  predicate Uncontradicted(observed: Hashes, expected: Hashes) {
    forall key :: key in expected && key in observed ==> observed[key] == expected[key]
  }

  /** What `commit` asks of the answer filed under a name. */
  predicate Passes(r: Revision, name: string) {
    name in r.acks && r.acks[name].accepted && Uncontradicted(r.acks[name].observed, r.hashes)
  }

  predicate AllPass(r: Revision, names: seq<string>) {
    forall k :: 0 <= k < |names| ==> Passes(r, names[k])
  }

  /** The answer filed under a name confirms every hash. */
  predicate Confirms(r: Revision, name: string) {
    name in r.acks && r.acks[name].accepted && Covers(r.acks[name].observed, r.hashes)
  }

  /** A revision that passes is confirmed by a participant exactly when that participant reported all hashes. */
  lemma PassesConfirms(r: Revision, name: string)
    requires Passes(r, name)
    ensures Confirms(r, name) <==> r.hashes.Keys <= r.acks[name].observed.Keys
  {
    if r.hashes.Keys <= r.acks[name].observed.Keys {
      forall key | key in r.hashes ensures key in r.acks[name].observed && r.acks[name].observed[key] == r.hashes[key] {
        assert key in r.hashes.Keys;
      }
    }
  }

  /** An accepting answer without any hash passes, and confirms nothing. */
  lemma EmptyAnswerPasses(r: Revision, name: string, key: string)
    requires key in r.hashes
    ensures var filed := r.(acks := r.acks[name := Answer(name, r.id, true, map[])]);
            Passes(filed, name) && !Confirms(filed, name)
  {
  }

  datatype Result = Stored(revision: Revision) | Error

  class Store {
    var revisions: map<string, Revision>
    var desired: Option<Revision>
    var current: Option<Revision>

    constructor ()
      ensures revisions == map[] && desired == None && current == None
    {
      revisions, desired, current := map[], None, None;
    }

    /** `create` */
    method CreateRevision(id: string, hashes: Hashes) returns (r: Revision)
      modifies this
      ensures r == Revision(id, if old(current).Some? then old(current).value.id else "", hashes, Draft, map[])
      ensures revisions == old(revisions)[id := r] && desired == Some(r) && current == old(current)
    {
      r := Revision(id, if current.Some? then current.value.id else "", hashes, Draft, map[]);
      Save(r);
      desired := Some(r);
    }

    /** `save` */
    method Save(r: Revision)
      modifies this`revisions
      ensures revisions == old(revisions)[r.id := r]
    {
      revisions := revisions[r.id := r];
    }

    /** `acknowledge` */
    method Acknowledge(r: Revision, ack: Answer) returns (result: Result)
      modifies this`revisions
      ensures result == if ack.revision != r.id then Error else Stored(r.(acks := r.acks[ack.participant := ack]))
      ensures revisions == if result.Error? then old(revisions) else old(revisions)[r.id := result.revision]
    {
      if ack.revision != r.id {
        return Error;
      }
      var filed := r.(acks := r.acks[ack.participant := ack]);
      Save(filed);
      result := Stored(filed);
    }

    /** The hashes of one answer that contradict the revision. */
    method Contradicts(observed: Hashes, expected: Hashes) returns (found: bool)
      ensures found <==> !Uncontradicted(observed, expected)
    {
      found := false;
      var todo := expected.Keys;
      while todo != {}
        invariant todo <= expected.Keys
        invariant found <==> !forall key :: key in expected && key !in todo && key in observed ==> observed[key] == expected[key]
      {
        var key :| key in todo;
        todo := todo - {key};
        if key in observed && observed[key] != expected[key] {
          found := true;
        }
      }
    }

    /** `commit` */
    method CommitRevision(r: Revision, participants: seq<string>) returns (result: Result)
      modifies this
      ensures result == if AllPass(r, participants) then Stored(r.(status := Final)) else Error
      ensures result.Stored? ==> revisions == old(revisions)[r.id := result.revision] && current == Some(result.revision)
      ensures result.Error? ==> revisions == old(revisions) && current == old(current)
      ensures desired == old(desired)
    {
      var missing, mismatch := false, false;
      for i := 0 to |participants|
        invariant !missing && !mismatch <==> forall k :: 0 <= k < i ==> Passes(r, participants[k])
        invariant revisions == old(revisions) && current == old(current) && desired == old(desired)
      {
        var name := participants[i];
        if name !in r.acks || !r.acks[name].accepted {
          missing := true;
          continue;
        }
        var contradicted := Contradicts(r.acks[name].observed, r.hashes);
        if contradicted {
          mismatch := true;
        }
      }
      if missing || mismatch {
        return Error;
      }
      var final := r.(status := Final);
      Save(final);
      current := Some(final);
      result := Stored(final);
    }
  }

  // ---------------------------------------------------------------- the coordinator

  datatype CommandStatus = Completed | PartiallyApplied | CommandFailed | Raised

  /** The answers filed after the first n rounds. */
  function Filed(answers: seq<Answer>): map<string, Answer> {
    if answers == [] then map[] else Filed(answers[..|answers|-1])[answers[|answers|-1].participant := answers[|answers|-1]]
  }

  lemma FiledMore(answers: seq<Answer>, i: nat)
    requires i < |answers|
    ensures Filed(answers[..i+1]) == Filed(answers[..i])[answers[i].participant := answers[i]]
  {
    assert answers[..i+1][..i] == answers[..i];
  }

  function Names(answers: seq<Answer>): seq<string> {
    seq(|answers|, i requires 0 <= i < |answers| => answers[i].participant)
  }

  /** Every participant answers for this revision and accepts it. */
  predicate AllAccept(answers: seq<Answer>, id: string) {
    forall k :: 0 <= k < |answers| ==> answers[k].revision == id && answers[k].accepted
  }

  /** The first answer that names another revision or refuses this one. */
  function FirstDeviant(answers: seq<Answer>, id: string): Option<Answer> {
    if answers == [] then None
    else if answers[0].revision != id || !answers[0].accepted then Some(answers[0])
    else FirstDeviant(answers[1..], id)
  }

  lemma {:induction false} DeviantAt(answers: seq<Answer>, id: string, i: nat)
    requires i <= |answers| && AllAccept(answers[..i], id)
    ensures i == |answers| ==> FirstDeviant(answers, id) == None
    ensures i < |answers| && (answers[i].revision != id || !answers[i].accepted) ==> FirstDeviant(answers, id) == Some(answers[i])
    decreases |answers|
  {
    if i > 0 {
      assert answers[..i][0] == answers[0] && answers[1..][..i-1] == answers[..i][1..];
      DeviantAt(answers[1..], id, i - 1);
    }
  }

  class SynchronizationCoordinator {
    const store: Store

    constructor (store: Store)
      ensures this.store == store
    {
      this.store := store;
    }

    /** `apply`; answers are what the participants return, in their order. */
    method Apply(id: string, hashes: Hashes, answers: seq<Answer>) returns (status: CommandStatus, revision: Revision)
      modifies store
      ensures store.desired.Some? && store.desired.value.id == id && revision.id == id && revision.hashes == hashes
      ensures var deviant, passes := FirstDeviant(answers, id),
                                     AllPass(Revision(id, "", hashes, Draft, Filed(answers)), Names(answers));
              status == if deviant.Some? then (if deviant.value.revision != id then Raised else PartiallyApplied)
                        else if passes then Completed else CommandFailed
      ensures status == Completed ==> store.current == Some(revision) && revision.status == Final && revision.acks == Filed(answers)
      ensures status != Completed ==> store.current == old(store.current)
      ensures status == CommandFailed ==> revision.status == Drifted
      ensures status == PartiallyApplied ==> revision.status == Degraded
      ensures FirstDeviant(answers, id) == None <==> AllAccept(answers, id)
    {
      revision := store.CreateRevision(id, hashes);
      revision := revision.(status := Validated);
      store.Save(revision);
      for i := 0 to |answers|
        invariant revision.id == id && revision.hashes == hashes && revision.acks == Filed(answers[..i])
        invariant store.desired.Some? && store.desired.value.id == id && store.current == old(store.current)
        invariant AllAccept(answers[..i], id)
      {
        var ack := answers[i];
        revision := revision.(status := WaitingFor(ack.participant));
        store.Save(revision);
        var filed := store.Acknowledge(revision, ack);
        FiledMore(answers, i);
        DeviantAt(answers, id, i);
        if filed.Error? {
          return Raised, revision;
        }
        revision := filed.revision;
        if !ack.accepted {
          revision := revision.(status := Degraded);
          store.Save(revision);
          return PartiallyApplied, revision;
        }
        revision := revision.(status := AppliedBy(ack.participant));
        store.Save(revision);
        assert answers[..i+1] == answers[..i] + [ack];
      }
      assert answers[..|answers|] == answers;
      DeviantAt(answers, id, |answers|);
      revision := revision.(status := AllApplied);
      store.Save(revision);
      StatusDoesNotMatter(revision, Revision(id, "", hashes, Draft, Filed(answers)), Names(answers));
      var committed := store.CommitRevision(revision, Names(answers));
      if committed.Error? {
        revision := revision.(status := Drifted);
        store.Save(revision);
        return CommandFailed, revision;
      }
      status, revision := Completed, committed.revision;
    }

    lemma StatusDoesNotMatter(r: Revision, s: Revision, names: seq<string>)
      requires r.hashes == s.hashes && r.acks == s.acks
      ensures AllPass(r, names) <==> AllPass(s, names)
    {
      forall k | 0 <= k < |names| ensures Passes(r, names[k]) == Passes(s, names[k]) {
      }
    }

    /** The field in_sync of `inspect`. */
    method InSync() returns (inSync: bool)
      ensures inSync <==> store.desired.Some? && store.current.Some? && store.desired.value.id == store.current.value.id
    {
      inSync := store.desired.Some? && store.current.Some? && store.desired.value.id == store.current.value.id;
    }

    /** After `apply` of a new revision, `inspect` reports being in sync exactly when the commit went through. */
    method ApplyThenInspect(id: string, hashes: Hashes, answers: seq<Answer>) returns (status: CommandStatus, inSync: bool)
      requires store.current.Some? ==> store.current.value.id != id
      modifies store
      ensures inSync <==> status == Completed
    {
      var revision;
      status, revision := Apply(id, hashes, answers);
      inSync := InSync();
    }
  }
}
