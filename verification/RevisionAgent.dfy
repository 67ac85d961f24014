/** Docker/workspace/ros2/netlab_revision_agent.py: the ROS participant. */
module RevisionAgent {
  import opened Options
  import Revisions

  type Hashes = Revisions.Hashes

  /** A request file: the revision it names ("" when it names none), and its candidate, None when that is no object. */
  datatype Request = Request(revision: string, candidate: Option<string>)

  /** The acknowledgement file of the packet node; accepted is the field the agent adds. */
  datatype PacketAck = PacketAck(revision: string, ready: bool, applied: Hashes, observed: Hashes, accepted: Option<bool>)

  /** A published configuration: the revision it belongs to, and the clock when it was sent. */
  datatype Message = Message(revision: string, at: real)

  datatype State = State(pending: string, payload: Option<string>, lastPublished: real, lastAcknowledged: string,
                         failed: bool, sequence: nat, config: Option<string>, published: seq<Message>, ack: Option<PacketAck>)

  // ---------------------------------------------------------------- one tick, as values

  /** The request calls for preparation. */
  predicate IsNews(s: State, request: Option<Request>) {
    request.Some? && request.value.revision != "" && request.value.revision != s.pending
    && request.value.revision != s.lastAcknowledged
  }

  function Prepared(s: State, request: Request): (t: State)
    requires request.candidate.Some?
    ensures t.sequence == s.sequence
  {
    s.(config := request.candidate, pending := request.revision, payload := request.candidate, lastPublished := 0.0, failed := false)
  }

  function Published(s: State, now: real): (t: State)
    ensures t.sequence == s.sequence
  {
    if s.pending == "" || s.payload.None? || now - s.lastPublished < 0.5 then s
    else s.(published := s.published + [Message(s.pending, now)], lastPublished := now)
  }

  /** acknowledgement.get("applied_hashes") or acknowledgement.get("observed_hashes") or {} */
  function ReportedHashes(ack: PacketAck): Hashes {
    if ack.applied != map[] then ack.applied else ack.observed
  }

  function Canonical(ack: PacketAck): PacketAck {
    ack.(accepted := Some(ack.ready && ReportedHashes(ack) != map[]), observed := ReportedHashes(ack))
  }

  /** The acknowledgement file names the pending revision. */
  predicate Answered(s: State) {
    s.pending != "" && s.ack.Some? && s.ack.value.revision == s.pending
  }

  function Observed(s: State): (t: State)
    ensures t.sequence == s.sequence
  {
    if !Answered(s) then s
    else s.(ack := Some(Canonical(s.ack.value)), lastAcknowledged := s.pending, pending := "", payload := None)
  }

  /** `_tick`: an error while preparing skips publishing and observing. */
  function Ticked(s: State, request: Option<Request>, now: real): State {
    var t :=
      if IsNews(s, request) && request.value.candidate.None? then s.(failed := true)
      else Observed(Published(if IsNews(s, request) then Prepared(s, request.value) else s, now));
    t.(sequence := s.sequence + 1)
  }

  // ---------------------------------------------------------------- what ticks do

  /** The acknowledgement file only changes when it names the revision being waited for; it is then marked accepted
      exactly when the packet node was ready and reported some hash. */
  lemma AckIsEarned(s: State, request: Option<Request>, now: real)
    ensures var t := Ticked(s, request, now);
            t.ack != s.ack ==>
              && s.ack.Some? && t.ack.Some? && s.ack.value.revision == t.ack.value.revision == t.lastAcknowledged
              && (s.pending == t.lastAcknowledged || (request.Some? && request.value.revision == t.lastAcknowledged))
              && t.ack.value.accepted == Some(s.ack.value.ready && ReportedHashes(s.ack.value) != map[])
    ensures var t := Ticked(s, request, now);
            t.ack != s.ack ==> s.ack.Some? && t.ack.Some? && var was, marked := s.ack.value, t.ack.value;
              && marked.accepted == Some(was.ready && (was.applied != map[] || was.observed != map[]))
              && marked.observed == (if was.applied != map[] then was.applied else was.observed)
              && marked.applied == was.applied && marked.ready == was.ready
  {
  }

  /** The configuration is the candidate of the last request for another revision than the pending and the acknowledged
      one; such a request without a usable candidate fails and changes nothing else, but the tick counts. */
  lemma ConfigFollowsRequest(s: State, request: Option<Request>, now: real)
    ensures var t := Ticked(s, request, now);
            && t.sequence == s.sequence + 1
            && (request.Some? && request.value.revision !in ["", s.pending, s.lastAcknowledged] ==>
                  if request.value.candidate.Some? then t.config == request.value.candidate && !t.failed
                  else t == s.(failed := true, sequence := s.sequence + 1))
            && (request == None || request.value.revision in ["", s.pending, s.lastAcknowledged] ==>
                  t.config == s.config && t.failed == s.failed)
  {
  }

  /** What a tick may read: a request and the acknowledgement file as the packet node left it. */
  datatype Input = Input(request: Option<Request>, written: Option<Option<PacketAck>>, now: real)

  /** The packet node may rewrite the acknowledgement file before a tick. */
  function Received(s: State, i: Input): State {
    if i.written.Some? then s.(ack := i.written.value) else s
  }

  function Run(s: State, inputs: seq<Input>): State {
    if inputs == [] then s
    else
      var n := |inputs| - 1;
      Ticked(Received(Run(s, inputs[..n]), inputs[n]), inputs[n].request, inputs[n].now)
  }

  /** One more tick. */
  lemma RunMore(s: State, inputs: seq<Input>, i: Input)
    ensures Run(s, inputs + [i]) == Ticked(Received(Run(s, inputs), i), i.request, i.now)
  {
    assert (inputs + [i])[..|inputs|] == inputs;
  }

  const START := State("", None, 0.0, "", false, 0, None, [], None)

  /** A revision was requested with a usable candidate at or before the last tick. */
  ghost predicate Requested(inputs: seq<Input>, revision: string) {
    exists k :: 0 <= k < |inputs| && inputs[k].request.Some? && inputs[k].request.value.revision == revision
                && inputs[k].request.value.candidate.Some?
  }

  /** The packet node has written an acknowledgement that names the revision. */
  ghost predicate Reported(inputs: seq<Input>, revision: string) {
    exists k :: 0 <= k < |inputs| && inputs[k].written.Some? && inputs[k].written.value.Some?
                && inputs[k].written.value.value.revision == revision
  }

  lemma RequestedMore(inputs: seq<Input>, revision: string)
    requires inputs != [] && Requested(inputs[..|inputs|-1], revision)
    ensures Requested(inputs, revision)
  {
    var k :| 0 <= k < |inputs| - 1 && inputs[..|inputs|-1][k].request.Some?
             && inputs[..|inputs|-1][k].request.value.revision == revision
             && inputs[..|inputs|-1][k].request.value.candidate.Some?;
    assert inputs[k].request.Some?;
  }

  lemma ReportedMore(inputs: seq<Input>, revision: string)
    requires inputs != [] && Reported(inputs[..|inputs|-1], revision)
    ensures Reported(inputs, revision)
  {
    var k :| 0 <= k < |inputs| - 1 && inputs[..|inputs|-1][k].written.Some? && inputs[..|inputs|-1][k].written.value.Some?
             && inputs[..|inputs|-1][k].written.value.value.revision == revision;
    assert inputs[k].written.Some?;
  }

  /** What is pending was requested; what counts as acknowledged was requested and the packet node reported it; the
      pending revision is never the acknowledged one. */
  ghost predicate Grounded(inputs: seq<Input>, s: State) {
    && (s.pending != "" ==> Requested(inputs, s.pending) && s.payload.Some? && s.pending != s.lastAcknowledged)
    && (s.lastAcknowledged != "" ==> Requested(inputs, s.lastAcknowledged) && Reported(inputs, s.lastAcknowledged))
    && (s.ack.Some? ==> Reported(inputs, s.ack.value.revision))
  }

  lemma ReceivedGrounded(inputs: seq<Input>, s: State)
    requires inputs != [] && Grounded(inputs[..|inputs|-1], s)
    ensures Grounded(inputs, Received(s, inputs[|inputs|-1]))
  {
    var n := |inputs| - 1;
    if s.pending != "" { RequestedMore(inputs, s.pending); }
    if s.lastAcknowledged != "" {
      RequestedMore(inputs, s.lastAcknowledged);
      ReportedMore(inputs, s.lastAcknowledged);
    }
    if inputs[n].written.None? && s.ack.Some? {
      ReportedMore(inputs, s.ack.value.revision);
    }
  }

  lemma PreparedGrounded(inputs: seq<Input>, s: State, request: Request)
    requires Grounded(inputs, s) && IsNews(s, Some(request)) && request.candidate.Some? && Requested(inputs, request.revision)
    ensures Grounded(inputs, Prepared(s, request))
  {
  }

  lemma ObservedGrounded(inputs: seq<Input>, s: State, now: real)
    requires Grounded(inputs, s)
    ensures Grounded(inputs, Observed(Published(s, now)))
  {
  }

  lemma TickedGrounded(inputs: seq<Input>, s: State)
    requires inputs != [] && Grounded(inputs, s)
    ensures Grounded(inputs, Ticked(s, inputs[|inputs|-1].request, inputs[|inputs|-1].now))
  {
    var i := inputs[|inputs|-1];
    if IsNews(s, i.request) && i.request.value.candidate.Some? {
      assert Requested(inputs, i.request.value.revision);
      PreparedGrounded(inputs, s, i.request.value);
      ObservedGrounded(inputs, Prepared(s, i.request.value), i.now);
    } else {
      ObservedGrounded(inputs, s, i.now);
    }
  }

  /** Every state of every run is grounded, and every tick counts. */
  lemma {:induction false} RunGrounded(inputs: seq<Input>)
    ensures Grounded(inputs, Run(START, inputs)) && Run(START, inputs).sequence == |inputs|
    decreases |inputs|
  {
    if inputs != [] {
      var n := |inputs| - 1;
      RunGrounded(inputs[..n]);
      ReceivedGrounded(inputs, Run(START, inputs[..n]));
      TickedGrounded(inputs, Received(Run(START, inputs[..n]), inputs[n]));
    }
  }

  // ---------------------------------------------------------------- what is published, and when

  /** No request names another revision than this one. */
  ghost predicate NamesOnly(inputs: seq<Input>, revision: string) {
    forall k :: 0 <= k < |inputs| && inputs[k].request.Some? ==> inputs[k].request.value.revision in ["", revision]
  }

  /** Requests come with a candidate, and the clock has passed the publication interval. */
  ghost predicate Usable(inputs: seq<Input>) {
    forall k :: 0 <= k < |inputs| ==> inputs[k].now >= 0.5 && (inputs[k].request.Some? ==> inputs[k].request.value.candidate.Some?)
  }

  /** With nothing pending, a tick publishes exactly the requests for another revision than the last acknowledged one. */
  lemma TickPublishes(s: State, i: Input)
    requires s.pending == "" && Usable([i])
    ensures var t := Ticked(Received(s, i), i.request, i.now);
            if NamesOnly([i], s.lastAcknowledged) then
              t.published == s.published && t.pending == "" && t.lastAcknowledged == s.lastAcknowledged
            else t.published == s.published + [Message(i.request.value.revision, i.now)]
  {
    assert [i][0] == i;
  }

  lemma TickGrows(s: State, i: Input)
    ensures s.published <= Ticked(Received(s, i), i.request, i.now).published
  {
  }

  /** Nothing published is ever taken back. */
  lemma {:induction false} PublishedGrows(s: State, inputs: seq<Input>)
    ensures s.published <= Run(s, inputs).published
    decreases |inputs|
  {
    hide Ticked, Received;
    if inputs != [] {
      var n := |inputs| - 1;
      PublishedGrows(s, inputs[..n]);
      TickGrows(Run(s, inputs[..n]), inputs[n]);
    }
  }

  /** From a state with nothing pending, a run stays in one, and publishes nothing, while no other revision than the
      last acknowledged one is named. */
  lemma {:induction false} QuietRun(s: State, inputs: seq<Input>)
    requires s.pending == "" && NamesOnly(inputs, s.lastAcknowledged)
    ensures var t := Run(s, inputs);
            t.pending == "" && t.lastAcknowledged == s.lastAcknowledged && t.published == s.published
    decreases |inputs|
  {
    if inputs != [] {
      QuietRun(s, inputs[..|inputs|-1]);
    }
  }

  /** With usable requests it publishes something exactly when another revision is named. */
  lemma {:induction false} QuietIff(s: State, inputs: seq<Input>)
    requires s.pending == "" && Usable(inputs)
    ensures Run(s, inputs).published == s.published <==> NamesOnly(inputs, s.lastAcknowledged)
    decreases |inputs|
  {
    hide Ticked, Received;
    if inputs != [] {
      var n := |inputs| - 1;
      var t := Run(s, inputs[..n]);
      QuietIff(s, inputs[..n]);
      PublishedGrows(s, inputs[..n]);
      TickGrows(t, inputs[n]);
      if NamesOnly(inputs[..n], s.lastAcknowledged) {
        QuietRun(s, inputs[..n]);
        TickPublishes(t, inputs[n]);
        assert NamesOnly(inputs, s.lastAcknowledged) <==> NamesOnly([inputs[n]], s.lastAcknowledged) by {
          NamesMore(inputs, s.lastAcknowledged);
        }
      }
    }
  }

  lemma NamesMore(inputs: seq<Input>, revision: string)
    requires inputs != []
    ensures NamesOnly(inputs, revision) <==>
              NamesOnly(inputs[..|inputs|-1], revision) && NamesOnly([inputs[|inputs|-1]], revision)
  {
    var last := [inputs[|inputs|-1]];
    assert last[0] == inputs[|inputs|-1];
    if NamesOnly(inputs[..|inputs|-1], revision) && NamesOnly(last, revision) {
      forall k | 0 <= k < |inputs| && inputs[k].request.Some? ensures inputs[k].request.value.revision in ["", revision] {
        if k < |inputs| - 1 { assert inputs[k] == inputs[..|inputs|-1][k]; }
      }
    }
  }

  /** The acknowledgement refuses the revision: the packet node was not ready, or reported no hash. */
  predicate Refuses(ack: PacketAck) {
    !ack.ready || ReportedHashes(ack) == map[]
  }

  /** A refusal of the pending revision is passed on as one and ends the attempt. From then on, as long as requests
      are usable, nothing is published exactly while no other revision is requested. */
  lemma RefusedIsNotRetried(s: State, i: Input, inputs: seq<Input>)
    requires var r := Received(s, i); Answered(r) && Refuses(r.ack.value) && !IsNews(r, i.request)
    ensures var t := Ticked(Received(s, i), i.request, i.now);
            && t.ack.Some? && t.ack.value.accepted == Some(false)
            && t.pending == "" && t.lastAcknowledged == s.pending
            && (NamesOnly(inputs, s.pending) ==> Run(t, inputs).published == t.published)
            && (Usable(inputs) ==> (Run(t, inputs).published == t.published <==> NamesOnly(inputs, s.pending)))
  {
    var t := Ticked(Received(s, i), i.request, i.now);
    if NamesOnly(inputs, s.pending) { QuietRun(t, inputs); }
    if Usable(inputs) { QuietIff(t, inputs); }
  }

  /** A usable request is pending after its tick, unless it was answered before. */
  lemma Asked(s: State, ask: Input)
    requires s.pending == "" && IsNews(s, ask.request) && ask.request.value.candidate.Some? && ask.written.None?
    requires s.ack.Some? ==> s.ack.value.revision != ask.request.value.revision
    ensures var t := Ticked(Received(s, ask), ask.request, ask.now);
            t.pending == ask.request.value.revision
  {
  }

  /** The answer to what is pending is taken at once. */
  lemma AnsweredAt(s: State, again: Input)
    requires s.pending != "" && again.request.Some? && again.request.value.revision == s.pending
    requires again.written.Some? && again.written.value.Some? && again.written.value.value.revision == s.pending
    ensures var t := Ticked(Received(s, again), again.request, again.now);
            && t.pending == "" && t.lastAcknowledged == s.pending && t.ack == Some(Canonical(again.written.value.value))
  {
  }

  /** A request while nothing is pending, and the packet node's answer at the next tick. */
  lemma Attempt(before: seq<Input>, request: Request, answer: PacketAck, now: real) returns (after: seq<Input>)
    requires var s := Run(START, before);
             && s.pending == "" && IsNews(s, Some(request)) && request.candidate.Some?
             && (s.ack.Some? ==> s.ack.value.revision != request.revision)
    requires answer.revision == request.revision
    ensures before <= after
    ensures var t := Run(START, after);
            t.pending == "" && t.lastAcknowledged == request.revision && t.ack == Some(Canonical(answer))
  {
    hide Run, Ticked, Received;
    var ask, again := Input(Some(request), None, now), Input(Some(request), Some(Some(answer)), now + 1.0);
    RunMore(START, before, ask);
    RunMore(START, before + [ask], again);
    Asked(Run(START, before), ask);
    AnsweredAt(Run(START, before + [ask]), again);
    after := before + [ask] + [again];
  }

  /** Only the last acknowledged revision is remembered: after a was refused and then b accepted, a request for a is
      published again. */
  lemma RefusedIsRetriedAfterAnother(a: string, b: string, candidate: string, hashes: Hashes)
    returns (refused: seq<Input>, accepted: seq<Input>, again: Input)
    requires a != "" && b != "" && a != b && hashes != map[]
    ensures refused <= accepted && again.request == Some(Request(a, Some(candidate)))
    ensures var s := Run(START, refused);
            s.lastAcknowledged == a && s.ack.Some? && s.ack.value.accepted == Some(false)
    ensures var s := Run(START, accepted);
            s.lastAcknowledged == b && s.ack.Some? && s.ack.value.accepted == Some(true)
    ensures Run(START, accepted + [again]).published == Run(START, accepted).published + [Message(a, 5.0)]
  {
    assert Run(START, []) == START;
    hide Run, Ticked, Received;
    refused := Attempt([], Request(a, Some(candidate)), PacketAck(a, false, map[], map[], None), 1.0);
    accepted := Attempt(refused, Request(b, Some(candidate)), PacketAck(b, true, hashes, map[], None), 3.0);
    again := Input(Some(Request(a, Some(candidate))), None, 5.0);
    RunMore(START, accepted, again);
    TickPublishes(Run(START, accepted), again);
  }

  /** The clock does not go back. */
  ghost predicate Clocked(inputs: seq<Input>) {
    forall j, k :: 0 <= j < k < |inputs| ==> inputs[j].now <= inputs[k].now
  }

  /** Two messages in a row belong to different revisions or are at least half a second apart. */
  ghost predicate Spaced(published: seq<Message>) {
    forall i, j {:trigger published[i], published[j]} :: 0 <= i < |published| && 0 <= j < |published| && j == i + 1 ==>
      published[i].revision != published[j].revision || published[j].at - published[i].at >= 0.5
  }

  /** The last message belongs to the revision pending, or else acknowledged last; its time is the one remembered. */
  ghost predicate Paced(s: State) {
    && Spaced(s.published) && s.lastPublished >= 0.0
    && (s.published != [] ==>
          var last := s.published[|s.published|-1];
          && last.at >= 0.5
          && (if s.pending == "" then last.revision == s.lastAcknowledged
              else last.revision == s.pending && s.lastPublished == last.at))
  }

  lemma MoreSpaced(published: seq<Message>, m: Message)
    requires Spaced(published)
    requires published != [] ==>
               var last := published[|published|-1]; last.revision != m.revision || m.at - last.at >= 0.5
    ensures Spaced(published + [m])
  {
  }

  lemma ObservedPaced(s: State)
    requires Paced(s)
    ensures Paced(Observed(s)) && Observed(s).published == s.published
  {
  }

  /** After preparing, if there is news, and publishing, if it is time. */
  lemma PublishedPaced(s: State, request: Option<Request>, now: real)
    requires Paced(s) && (s.published != [] ==> s.published[|s.published|-1].at <= now)
    requires IsNews(s, request) ==> request.value.candidate.Some?
    ensures var t := Published(if IsNews(s, request) then Prepared(s, request.value) else s, now);
            Paced(t) && (t.published != [] ==> t.published[|t.published|-1].at <= now)
  {
    hide Spaced;
    var t := Published(if IsNews(s, request) then Prepared(s, request.value) else s, now);
    if t.published != s.published {
      MoreSpaced(s.published, Message(t.pending, now));
    }
  }

  lemma TickPaced(s: State, i: Input)
    requires Paced(s) && (s.published != [] ==> s.published[|s.published|-1].at <= i.now)
    ensures var t := Ticked(Received(s, i), i.request, i.now);
            Paced(t) && (t.published != [] ==> t.published[|t.published|-1].at <= i.now)
  {
    hide Spaced, Published, Prepared, Observed;
    var r := Received(s, i);
    if IsNews(r, i.request) ==> i.request.value.candidate.Some? {
      PublishedPaced(r, i.request, i.now);
      ObservedPaced(Published(if IsNews(r, i.request) then Prepared(r, i.request.value) else r, i.now));
    }
  }

  lemma {:induction false} RunPaced(inputs: seq<Input>)
    requires Clocked(inputs)
    ensures var t := Run(START, inputs);
            && Paced(t)
            && (t.published != [] ==> inputs != [] && t.published[|t.published|-1].at <= inputs[|inputs|-1].now)
    decreases |inputs|
  {
    if inputs != [] {
      RunPaced(inputs[..|inputs|-1]);
      TickPaced(Run(START, inputs[..|inputs|-1]), inputs[|inputs|-1]);
    }
  }

  /** Over every run, the messages for one revision keep their distance. */
  lemma PublicationsAreSpaced(inputs: seq<Input>)
    requires Clocked(inputs)
    ensures Spaced(Run(START, inputs).published)
  {
    RunPaced(inputs);
  }

  /** Any two messages in a row are at least half a second apart. */
  ghost predicate AllApart(published: seq<Message>) {
    forall i, j {:trigger published[i], published[j]} :: 0 <= i < |published| && 0 <= j < |published| && j == i + 1 ==>
      published[j].at - published[i].at >= 0.5
  }

  /** A usable new request comes at least half a second after the last message. */
  ghost predicate Waits(s: State, i: Input) {
    IsNews(s, i.request) && i.request.value.candidate.Some? && s.published != [] ==>
      i.now - s.published[|s.published|-1].at >= 0.5
  }

  lemma OneMoreApart(published: seq<Message>, m: Message)
    ensures AllApart(published + [m]) <==>
              AllApart(published) && (published != [] ==> m.at - published[|published|-1].at >= 0.5)
  {
    var more := published + [m];
    if AllApart(more) {
      forall i, j {:trigger published[i], published[j]} | 0 <= i < |published| && 0 <= j < |published| && j == i + 1
        ensures published[j].at - published[i].at >= 0.5
      {
        assert more[i] == published[i] && more[j] == published[j];
      }
      if published != [] {
        assert more[|published|-1] == published[|published|-1] && more[|published|] == m;
      }
    }
  }

  lemma TickApart(s: State, i: Input)
    requires Paced(s) && (s.published != [] ==> s.published[|s.published|-1].at <= i.now)
    ensures AllApart(Ticked(Received(s, i), i.request, i.now).published) <==> AllApart(s.published) && Waits(Received(s, i), i)
  {
    hide Spaced, AllApart;
    var t := Ticked(Received(s, i), i.request, i.now);
    if t.published != s.published {
      OneMoreApart(s.published, t.published[|t.published|-1]);
      assert t.published == s.published + [t.published[|t.published|-1]];
    }
  }

  /** The k-th request of the run waits, if it is news. */
  ghost predicate WaitsAt(inputs: seq<Input>, k: nat)
    requires k < |inputs|
  {
    Waits(Received(Run(START, inputs[..k]), inputs[k]), inputs[k])
  }

  lemma WaitsInPrefix(inputs: seq<Input>, n: nat, k: nat)
    requires k < n <= |inputs|
    ensures WaitsAt(inputs[..n], k) <==> WaitsAt(inputs, k)
  {
    assert inputs[..n][..k] == inputs[..k];
  }

  ghost predicate AllWait(inputs: seq<Input>) {
    forall k :: 0 <= k < |inputs| ==> WaitsAt(inputs, k)
  }

  lemma AllWaitMore(inputs: seq<Input>)
    requires inputs != []
    ensures AllWait(inputs) <==> AllWait(inputs[..|inputs|-1]) && WaitsAt(inputs, |inputs| - 1)
  {
    hide WaitsAt;
    var n := |inputs| - 1;
    forall k | 0 <= k < n ensures WaitsAt(inputs[..n], k) <==> WaitsAt(inputs, k) {
      WaitsInPrefix(inputs, n, k);
    }
  }

  lemma ApartStep(before: seq<Input>, i: Input)
    requires Clocked(before + [i])
    ensures AllApart(Run(START, before + [i]).published) <==>
              AllApart(Run(START, before).published) && Waits(Received(Run(START, before), i), i)
  {
    hide AllApart, Paced, Ticked, Run, Waits, Received;
    assert Clocked(before) && (before != [] ==> before[|before|-1].now <= i.now) by {
      assert (before + [i])[..|before|] == before;
      if before != [] { assert (before + [i])[|before|-1].now <= (before + [i])[|before|].now; }
      forall j, k | 0 <= j < k < |before| ensures before[j].now <= before[k].now {
        assert (before + [i])[j].now <= (before + [i])[k].now;
      }
    }
    hide Clocked;
    RunPaced(before);
    RunMore(START, before, i);
    TickApart(Run(START, before), i);
  }

  /** The messages of a run, whatever revisions they belong to, are all at least half a second apart exactly when every
      usable new request came at least that long after the message before it. */
  lemma {:induction false} ApartIffNewsWaits(inputs: seq<Input>)
    requires Clocked(inputs)
    ensures AllApart(Run(START, inputs).published) <==> AllWait(inputs)
    decreases |inputs|
  {
    if inputs != [] {
      var n := |inputs| - 1;
      assert Clocked(inputs[..n]);
      hide AllApart, AllWait, Run, Waits, Received, Clocked;
      ApartIffNewsWaits(inputs[..n]);
      assert inputs[..n] + [inputs[n]] == inputs;
      ApartStep(inputs[..n], inputs[n]);
      AllWaitMore(inputs);
    }
  }

  /** Messages for different revisions need not. */
  lemma NewRevisionIsPublishedAtOnce(s: State, i: Input)
    requires IsNews(Received(s, i), i.request) && i.request.value.candidate.Some? && i.now >= 0.5
    ensures Ticked(Received(s, i), i.request, i.now).published == s.published + [Message(i.request.value.revision, i.now)]
  {
  }

  // ---------------------------------------------------------------- the node

  class Agent {
    var pendingRevision: string
    var pendingPayload: Option<string>
    var lastPublished: real
    var lastAcknowledged: string
    var failed: bool
    var sequence: nat
    var config: Option<string>
    var published: seq<Message>
    var ack: Option<PacketAck>
    /** What the ticks have read so far. */
    ghost var inputs: seq<Input>

    ghost function Value(): State
      reads this
    {
      State(pendingRevision, pendingPayload, lastPublished, lastAcknowledged, failed, sequence, config, published, ack)
    }

    /** The fields are those a run over the inputs ends in. */
    ghost predicate Valid()
      reads this
    {
      Value() == Run(START, inputs)
    }

    constructor ()
      ensures Valid() && inputs == []
    {
      inputs := [];
      pendingRevision, pendingPayload, lastPublished, lastAcknowledged := "", None, 0.0, "";
      failed, sequence, config, published, ack := false, 0, None, [], None;
    }

    /** `_prepare`; false stands for the ValueError. */
    method Prepare(request: Request) returns (ok: bool)
      modifies this
      ensures inputs == old(inputs)
      ensures ok <==> request.candidate.Some?
      ensures Value() == if ok then Prepared(old(Value()), request) else old(Value())
    {
      if request.candidate.None? {
        return false;
      }
      config := request.candidate;
      pendingRevision, pendingPayload := request.revision, request.candidate;
      lastPublished := 0.0;
      failed := false;
      ok := true;
    }

    /** `_publish_pending` */
    method PublishPending(now: real)
      modifies this
      ensures inputs == old(inputs)
      ensures Value() == Published(old(Value()), now)
    {
      if pendingRevision == "" || pendingPayload.None? {
        return;
      }
      if now - lastPublished < 0.5 {
        return;
      }
      published := published + [Message(pendingRevision, now)];
      lastPublished := now;
    }

    /** `_observe_packet_ack` */
    method ObservePacketAck()
      modifies this
      ensures inputs == old(inputs)
      ensures Value() == Observed(old(Value()))
    {
      if pendingRevision == "" || ack.None? {
        return;
      }
      var acknowledgement := ack.value;
      if acknowledgement.revision != pendingRevision {
        return;
      }
      var hashes := if acknowledgement.applied != map[] then acknowledgement.applied else acknowledgement.observed;
      ack := Some(acknowledgement.(accepted := Some(acknowledgement.ready && hashes != map[]), observed := hashes));
      lastAcknowledged := acknowledgement.revision;
      pendingRevision, pendingPayload := "", None;
    }

    /** `_tick`, on the files as it finds them. Whatever the ticks have read, what is pending or acknowledged was asked
        for and reported, messages keep their distance, and every tick counts. */
    method Tick(i: Input)
      requires Valid()
      modifies this
      ensures Valid() && inputs == old(inputs) + [i]
      ensures Grounded(inputs, Value()) && sequence == |inputs|
      ensures Clocked(inputs) ==> Spaced(published)
    {
      hide Run, Grounded, Clocked, Spaced, Prepared, Published, Observed;
      RunMore(START, inputs, i);
      if i.written.Some? {
        ack := i.written.value;
      }
      var ok := true;
      if i.request.Some? && i.request.value.revision != ""
         && i.request.value.revision != pendingRevision && i.request.value.revision != lastAcknowledged
      {
        ok := Prepare(i.request.value);
      }
      if ok {
        PublishPending(i.now);
        ObservePacketAck();
      } else {
        failed := true;
      }
      sequence := sequence + 1;
      inputs := inputs + [i];
      RunGrounded(inputs);
      if Clocked(inputs) {
        PublicationsAreSpaced(inputs);
      }
    }
  }
}
