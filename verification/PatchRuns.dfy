/** Any number of PATCH replays and direct PUTs, interleaved in any way at the store's mutex. */
module PatchRuns {
  import opened Strings
  import opened Responses
  import opened EntityTags
  import opened Patch

  datatype Request = Patching(patch: PatchRequest) | Putting(put: PutRequest)

  /** How far a request has come. `base` is what its internal GET read. */
  datatype Phase =
    | Arrived
    | Fetched(base: Option<Profile>, response: Response)
    | Ready(base: Option<Profile>, put: PutRequest)
    | Done(status: int)

  type Profiles = map<string, Profile>

  /** `base` is what the client's GET had read; a direct PUT reads nothing. */
  datatype Commit = Commit(client: nat, base: Option<Profile>, before: Profiles, after: Profiles)

  /** The commits are a record of the run; the code keeps only the profiles. */
  datatype System = System(profiles: Profiles, phases: seq<Phase>, commits: seq<Commit>)

  function Start(initial: Profiles, requests: seq<Request>): System {
    System(initial, seq(|requests|, _ => Arrived), [])
  }

  /** Client i takes its next step: the GET, the local work, or the PUT. */
  function Step(lib: Library, requests: seq<Request>, s: System, i: nat): (t: System)
    requires |s.phases| == |requests| && i < |requests|
    ensures |t.phases| == |requests|
  {
    match s.phases[i]
    case Arrived =>
      var phase := match requests[i]
        case Putting(put) => Ready(None, put)
        case Patching(r) =>
          var base := Current(s.profiles, r.id);
          Fetched(base, GetResponse(lib, base, r.ifNoneMatch, r.range));
      s.(phases := s.phases[i := phase])
    case Fetched(base, response) =>
      var phase := match requests[i]
        case Putting(put) => Ready(None, put)
        case Patching(r) =>
          match Prepare(lib, r, response)
          case Reply(status) => Done(status)
          case Replay(put) => Ready(base, put);
      s.(phases := s.phases[i := phase])
    case Ready(base, put) =>
      var (profiles, status) := PutResult(lib, s.profiles, put);
      System(profiles, s.phases[i := Done(status)],
             if status == OK then s.commits + [Commit(i, base, s.profiles, profiles)] else s.commits)
    case Done(_) => s
  }

  predicate Schedules(requests: seq<Request>, schedule: seq<nat>) {
    forall k | 0 <= k < |schedule| :: schedule[k] < |requests|
  }

  /** Every interleaving is the run of some schedule. */
  function Run(lib: Library, requests: seq<Request>, initial: Profiles, schedule: seq<nat>): (s: System)
    requires Schedules(requests, schedule)
    ensures |s.phases| == |requests|
  {
    if schedule == [] then Start(initial, requests)
    else
      var n := |schedule| - 1;
      Step(lib, requests, Run(lib, requests, initial, schedule[..n]), schedule[n])
  }

  /** The same request carried out in one go, with nobody else at the store. */
  function Atomic(lib: Library, request: Request, profiles: Profiles): (Profiles, int) {
    match request
    case Patching(r) => Alone(lib, profiles, r)
    case Putting(put) => PutResult(lib, profiles, put)
  }

  /** The requests carried out one after the other. */
  function InTurn(lib: Library, requests: seq<Request>, initial: Profiles, order: seq<nat>): Profiles
    requires Schedules(requests, order)
  {
    if order == [] then initial
    else
      var n := |order| - 1;
      Atomic(lib, requests[order[n]], InTurn(lib, requests, initial, order[..n])).0
  }

  function Clients(commits: seq<Commit>): (r: seq<nat>)
    ensures |r| == |commits| && forall k | 0 <= k < |commits| :: r[k] == commits[k].client
  {
    seq(|commits|, k requires 0 <= k < |commits| => commits[k].client)
  }

  // ---------------------------------------------------------------- the invariant

  /** The phase of a client follows from what its GET read. */
  ghost predicate PhaseOk(lib: Library, request: Request, phase: Phase) {
    match phase
    case Arrived => true
    case Fetched(base, response) =>
      request.Patching? && response == GetResponse(lib, base, request.patch.ifNoneMatch, request.patch.range)
    case Ready(base, put) =>
      if request.Putting? then put == request.put
      else
        var r := request.patch;
        Prepare(lib, r, GetResponse(lib, base, r.ifNoneMatch, r.range)) == Replay(put)
    case Done(_) => true
  }

  /** The commits lead from the initial profiles to the present ones. */
  ghost predicate Chained(initial: Profiles, commits: seq<Commit>, profiles: Profiles) {
    if commits == [] then profiles == initial
    else
      var last := commits[|commits| - 1];
      last.after == profiles && Chained(initial, commits[..|commits| - 1], last.before)
  }

  /** A request answered 200 has committed, once, and nothing else has. */
  ghost predicate CommitsMatchAnswers(s: System) {
    && (forall k | 0 <= k < |s.commits| ::
          s.commits[k].client < |s.phases| && s.phases[s.commits[k].client] == Done(OK))
    && (forall k, m | 0 <= k < m < |s.commits| :: s.commits[k].client != s.commits[m].client)
    && (forall i | 0 <= i < |s.phases| && s.phases[i] == Done(OK) ::
          exists k :: 0 <= k < |s.commits| && s.commits[k].client == i)
  }

  /** A PATCH whose internal GET is tagged: nothing in it switches the ETag middleware off. */
  predicate Tagged(request: Request) {
    request.Patching? ==> request.patch.range == ""
  }

  /** What the two steps of a commit did: for a PATCH, the PUT that its GET led to. */
  ghost predicate CommitOk(lib: Library, requests: seq<Request>, c: Commit) {
    && c.client < |requests|
    && match requests[c.client]
       case Putting(put) => PutResult(lib, c.before, put) == (c.after, OK)
       case Patching(r) =>
         var prepared := Prepare(lib, r, GetResponse(lib, c.base, r.ifNoneMatch, r.range));
         prepared.Replay? && PutResult(lib, c.before, prepared.put) == (c.after, OK)
  }

  ghost predicate CommitsOk(lib: Library, requests: seq<Request>, commits: seq<Commit>) {
    forall c | c in commits :: CommitOk(lib, requests, c)
  }

  /** The resource held this profile at some moment of the run. */
  ghost predicate Held(initial: Profiles, commits: seq<Commit>, id: string, p: Profile) {
    || (id in initial && initial[id] == p)
    || exists c :: c in commits && id in c.after && c.after[id] == p
  }

  /** What a PATCH has read is a profile that its resource has held. */
  ghost predicate ReadWasHeld(initial: Profiles, commits: seq<Commit>, request: Request, base: Option<Profile>) {
    request.Patching? && base.Some? ==> Held(initial, commits, request.patch.id, base.value)
  }

  ghost predicate ReadsWereHeld(initial: Profiles, requests: seq<Request>, s: System) {
    && (forall i | 0 <= i < |requests| && i < |s.phases| && (s.phases[i].Fetched? || s.phases[i].Ready?) ::
          ReadWasHeld(initial, s.commits, requests[i], s.phases[i].base))
    && (forall c | c in s.commits && c.client < |requests| ::
          ReadWasHeld(initial, s.commits, requests[c.client], c.base))
  }

  ghost predicate Inv(lib: Library, requests: seq<Request>, initial: Profiles, s: System) {
    && |s.phases| == |requests|
    && (forall i | 0 <= i < |requests| :: PhaseOk(lib, requests[i], s.phases[i]))
    && Chained(initial, s.commits, s.profiles)
    && CommitsMatchAnswers(s)
    && CommitsOk(lib, requests, s.commits)
  }

  /** What a refused preparation answers is never 200. */
  lemma RefusalIsNotOk(lib: Library, r: PatchRequest, response: Response)
    ensures Prepare(lib, r, response) != Reply(OK)
  {}

  lemma CommitKeepsMatch(s: System, t: System, i: nat, c: Commit)
    requires CommitsMatchAnswers(s) && i < |s.phases| && !s.phases[i].Done?
    requires t.phases == s.phases[i := Done(OK)] && t.commits == s.commits + [c] && c.client == i
    ensures CommitsMatchAnswers(t)
  {
    forall j | 0 <= j < |t.phases| && t.phases[j] == Done(OK)
      ensures exists k :: 0 <= k < |t.commits| && t.commits[k].client == j
    {
      if j == i { assert t.commits[|s.commits|].client == j; } else {
        var k :| 0 <= k < |s.commits| && s.commits[k].client == j;
        assert t.commits[k].client == j;
      }
    }
  }

  lemma OtherAnswerKeepsMatch(s: System, t: System, i: nat, phase: Phase)
    requires CommitsMatchAnswers(s) && i < |s.phases| && !s.phases[i].Done? && phase != Done(OK)
    requires t.phases == s.phases[i := phase] && t.commits == s.commits
    ensures CommitsMatchAnswers(t)
  {}

  /** A step that leaves the store alone. */
  lemma LocalStepKeepsInv(lib: Library, requests: seq<Request>, initial: Profiles, s: System, i: nat, phase: Phase)
    requires Inv(lib, requests, initial, s) && i < |requests| && !s.phases[i].Done?
    requires PhaseOk(lib, requests[i], phase) && phase != Done(OK)
    ensures Inv(lib, requests, initial, s.(phases := s.phases[i := phase]))
  {
    OtherAnswerKeepsMatch(s, s.(phases := s.phases[i := phase]), i, phase);
  }

  lemma LocalPhaseOk(lib: Library, requests: seq<Request>, s: System, i: nat)
    requires |s.phases| == |requests| && i < |requests| && PhaseOk(lib, requests[i], s.phases[i])
    requires s.phases[i].Arrived? || s.phases[i].Fetched?
    ensures var t := Step(lib, requests, s, i);
            && PhaseOk(lib, requests[i], t.phases[i]) && t.phases[i] != Done(OK)
            && t == s.(phases := s.phases[i := t.phases[i]])
  {
    if s.phases[i].Fetched? { RefusalIsNotOk(lib, requests[i].patch, s.phases[i].response); }
  }

  /** The step of a client that is ready. */
  lemma PutStep(lib: Library, requests: seq<Request>, s: System, i: nat)
    requires |s.phases| == |requests| && i < |requests| && s.phases[i].Ready?
    ensures var (profiles, status) := PutResult(lib, s.profiles, s.phases[i].put);
            Step(lib, requests, s, i)
            == System(profiles, s.phases[i := Done(status)],
                      if status == OK then s.commits + [Commit(i, s.phases[i].base, s.profiles, profiles)]
                      else s.commits)
  {}

  lemma ReadyCommitOk(lib: Library, requests: seq<Request>, s: System, i: nat)
    requires |s.phases| == |requests| && i < |requests| && PhaseOk(lib, requests[i], s.phases[i]) && s.phases[i].Ready?
    requires PutResult(lib, s.profiles, s.phases[i].put).1 == OK
    ensures CommitOk(lib, requests, Commit(i, s.phases[i].base, s.profiles, PutResult(lib, s.profiles,
                s.phases[i].put).0))
  {}

  lemma ChainedSnoc(initial: Profiles, commits: seq<Commit>, profiles: Profiles, c: Commit)
    requires Chained(initial, commits, profiles) && c.before == profiles
    ensures Chained(initial, commits + [c], c.after)
  {
    assert (commits + [c])[..|commits|] == commits;
  }

  lemma PutExtendsCommits(lib: Library, requests: seq<Request>, initial: Profiles, s: System, i: nat)
    requires Inv(lib, requests, initial, s) && i < |requests| && s.phases[i].Ready?
    ensures var t := Step(lib, requests, s, i);
            Chained(initial, t.commits, t.profiles) && CommitsOk(lib, requests, t.commits)
  {
    PutStep(lib, requests, s, i);
    var (profiles, status) := PutResult(lib, s.profiles, s.phases[i].put);
    if status == OK {
      ReadyCommitOk(lib, requests, s, i);
      ChainedSnoc(initial, s.commits, s.profiles, Commit(i, s.phases[i].base, s.profiles, profiles));
    } else {
      RefusedPutKeeps(lib, s.profiles, s.phases[i].put);
    }
  }

  lemma RefusedPutKeeps(lib: Library, profiles: Profiles, put: PutRequest)
    requires PutResult(lib, profiles, put).1 != OK
    ensures PutResult(lib, profiles, put).0 == profiles
  {}

  lemma PutMatchesAnswers(lib: Library, requests: seq<Request>, s: System, i: nat)
    requires |s.phases| == |requests| && i < |requests| && s.phases[i].Ready? && CommitsMatchAnswers(s)
    ensures CommitsMatchAnswers(Step(lib, requests, s, i))
  {
    var t, status := Step(lib, requests, s, i), PutResult(lib, s.profiles, s.phases[i].put).1;
    if status == OK {
      CommitKeepsMatch(s, t, i, Commit(i, s.phases[i].base, s.profiles, t.profiles));
    } else {
      OtherAnswerKeepsMatch(s, t, i, Done(status));
    }
  }

  lemma PutKeepsInv(lib: Library, requests: seq<Request>, initial: Profiles, s: System, i: nat)
    requires Inv(lib, requests, initial, s) && i < |requests| && s.phases[i].Ready?
    ensures Inv(lib, requests, initial, Step(lib, requests, s, i))
  {
    PutExtendsCommits(lib, requests, initial, s, i);
    PutMatchesAnswers(lib, requests, s, i);
    var t := Step(lib, requests, s, i);
    forall j | 0 <= j < |requests| ensures PhaseOk(lib, requests[j], t.phases[j]) {
      if j == i { assert t.phases[j].Done?; } else { assert t.phases[j] == s.phases[j]; }
    }
  }

  lemma StepKeepsInv(lib: Library, requests: seq<Request>, initial: Profiles, s: System, i: nat)
    requires Inv(lib, requests, initial, s) && i < |requests|
    ensures Inv(lib, requests, initial, Step(lib, requests, s, i))
  {
    if s.phases[i].Ready? {
      PutKeepsInv(lib, requests, initial, s, i);
    } else if !s.phases[i].Done? {
      LocalPhaseOk(lib, requests, s, i);
      LocalStepKeepsInv(lib, requests, initial, s, i, Step(lib, requests, s, i).phases[i]);
    }
  }

  lemma {:induction false} RunKeepsInv(lib: Library, requests: seq<Request>, initial: Profiles, schedule: seq<nat>)
    requires Schedules(requests, schedule)
    ensures Inv(lib, requests, initial, Run(lib, requests, initial, schedule))
  {
    if schedule != [] {
      var n := |schedule| - 1;
      RunKeepsInv(lib, requests, initial, schedule[..n]);
      StepKeepsInv(lib, requests, initial, Run(lib, requests, initial, schedule[..n]), schedule[n]);
    }
  }

  // ---------------------------------------------------- the profiles that a run holds

  lemma HeldStill(initial: Profiles, commits: seq<Commit>, more: seq<Commit>, id: string, p: Profile)
    requires Held(initial, commits, id, p) && forall c | c in commits :: c in more
    ensures Held(initial, more, id, p)
  {}

  lemma PresentIsHeld(initial: Profiles, commits: seq<Commit>, profiles: Profiles, id: string)
    requires Chained(initial, commits, profiles) && id in profiles
    ensures Held(initial, commits, id, profiles[id])
  {
    if commits != [] { assert commits[|commits| - 1] in commits; }
  }

  /** What a commit found in the store had been held, too. */
  lemma {:induction false} FoundWasHeld(initial: Profiles, commits: seq<Commit>, profiles: Profiles, c: Commit,
                                        id: string)
    requires Chained(initial, commits, profiles) && c in commits && id in c.before
    ensures Held(initial, commits, id, c.before[id])
  {
    var last := commits[|commits| - 1];
    var front := commits[..|commits| - 1];
    if c == last {
      PresentIsHeld(initial, front, last.before, id);
    } else {
      FoundWasHeld(initial, front, last.before, c, id);
    }
    HeldStill(initial, front, commits, id, c.before[id]);
  }

  /** What one step can change. */
  lemma StepChanges(lib: Library, requests: seq<Request>, s: System, i: nat)
    requires |s.phases| == |requests| && i < |requests|
    ensures var t := Step(lib, requests, s, i);
            && t.phases == s.phases[i := t.phases[i]]
            && (t.commits == s.commits
                || (s.phases[i].Ready?
                    && t.commits == s.commits + [Commit(i, s.phases[i].base, s.profiles, t.profiles)]))
            && (requests[i].Patching? && (t.phases[i].Fetched? || t.phases[i].Ready?) ==>
                  t.phases[i].base
                  == if s.phases[i].Arrived? then Current(s.profiles, requests[i].patch.id) else s.phases[i].base)
  {}

  lemma ReadIsHeld(lib: Library, requests: seq<Request>, initial: Profiles, s: System, i: nat)
    requires Inv(lib, requests, initial, s) && ReadsWereHeld(initial, requests, s) && i < |requests|
    ensures var p := Step(lib, requests, s, i).phases[i];
            p.Fetched? || p.Ready? ==> ReadWasHeld(initial, s.commits, requests[i], p.base)
  {
    StepChanges(lib, requests, s, i);
    if s.phases[i].Arrived? && requests[i].Patching? && requests[i].patch.id in s.profiles {
      PresentIsHeld(initial, s.commits, s.profiles, requests[i].patch.id);
    }
  }

  lemma ReadHeldStill(initial: Profiles, commits: seq<Commit>, more: seq<Commit>, request: Request,
                      base: Option<Profile>)
    requires ReadWasHeld(initial, commits, request, base) && forall c | c in commits :: c in more
    ensures ReadWasHeld(initial, more, request, base)
  {}

  lemma StepKeepsReads(lib: Library, requests: seq<Request>, initial: Profiles, s: System, i: nat)
    requires Inv(lib, requests, initial, s) && ReadsWereHeld(initial, requests, s) && i < |requests|
    ensures ReadsWereHeld(initial, requests, Step(lib, requests, s, i))
  {
    var t := Step(lib, requests, s, i);
    StepChanges(lib, requests, s, i);
    ReadIsHeld(lib, requests, initial, s, i);
    forall j | 0 <= j < |requests| && (t.phases[j].Fetched? || t.phases[j].Ready?)
      ensures ReadWasHeld(initial, t.commits, requests[j], t.phases[j].base)
    {
      ReadHeldStill(initial, s.commits, t.commits, requests[j], t.phases[j].base);
    }
    forall c | c in t.commits && c.client < |requests|
        ensures ReadWasHeld(initial, t.commits, requests[c.client], c.base) {
      ReadHeldStill(initial, s.commits, t.commits, requests[c.client], c.base);
    }
  }

  /** Whatever a PATCH reads, and whatever its commit was based on, its resource has held. */
  lemma {:induction false} RunKeepsReads(lib: Library, requests: seq<Request>, initial: Profiles, schedule: seq<nat>)
    requires Schedules(requests, schedule)
    ensures ReadsWereHeld(initial, requests, Run(lib, requests, initial, schedule))
  {
    if schedule != [] {
      var n := |schedule| - 1;
      RunKeepsReads(lib, requests, initial, schedule[..n]);
      RunKeepsInv(lib, requests, initial, schedule[..n]);
      StepKeepsReads(lib, requests, initial, Run(lib, requests, initial, schedule[..n]), schedule[n]);
    }
  }

  /** No two different profiles that one resource holds during the run have the same hash. */
  ghost predicate CollisionFree(lib: Library, initial: Profiles, commits: seq<Commit>) {
    forall id, p, q | Held(initial, commits, id, p) && Held(initial, commits, id, q) :: !Collide(lib, p, q)
  }

  // -------------------------------------------------------------- the main results

  /** A tagged PATCH whose PUT goes through does so over a profile with the tag of the one it read;
      unless the two collide it is, at that moment, the whole PATCH in one go. */
  lemma CommitIsAtomic(lib: Library, r: PatchRequest, base: Option<Profile>, profiles: Profiles)
    requires r.range == ""
    requires Prepare(lib, r, GetResponse(lib, base, r.ifNoneMatch, "")).Replay?
    requires PutResult(lib, profiles, Prepare(lib, r, GetResponse(lib, base, r.ifNoneMatch, "")).put).1 == OK
    ensures base.Some? && r.id in profiles && Patched(lib, r.document, base.value).Some?
    ensures ProfileTag(lib, profiles[r.id]) == ProfileTag(lib, base.value)
    ensures base.value == profiles[r.id] || Collide(lib, base.value, profiles[r.id])
    ensures base.value == profiles[r.id] ==>
              Alone(lib, profiles, r) == PutResult(lib, profiles, Prepare(lib, r, GetResponse(lib, base,
                  r.ifNoneMatch, "")).put)
  {
    var put := Prepare(lib, r, GetResponse(lib, base, r.ifNoneMatch, "")).put;
    ReplayIsConditional(lib, r, base);
    ConditionalPut(lib, profiles, put, base.value);
    TagNamesProfile(lib, base.value, profiles[r.id]);
  }

  /** No lost update, for every hash: whatever else happens in the run, untagged PATCHes included, a
      tagged PATCH that commits does so over a profile with the very tag of the one it had read, writes
      its patched version of that one, touches nothing else, and honours the If-Match its client sent.
      What it replaces is the profile it had read, unless these two, both held by the resource in this
      run, are different profiles with one hash. */
  lemma NoLostUpdate(lib: Library, requests: seq<Request>, initial: Profiles, schedule: seq<nat>, c: Commit)
    requires Schedules(requests, schedule)
    requires c in Run(lib, requests, initial, schedule).commits && c.client < |requests|
    requires requests[c.client].Patching? && Tagged(requests[c.client])
    ensures var commits := Run(lib, requests, initial, schedule).commits;
            var r := requests[c.client].patch;
            && c.base.Some? && r.id in c.before && Patched(lib, r.document, c.base.value).Some?
            && Held(initial, commits, r.id, c.base.value) && Held(initial, commits, r.id, c.before[r.id])
            && c.after == c.before[r.id := Patched(lib, r.document, c.base.value).value]
            && (c.base.value == c.before[r.id] || Collide(lib, c.base.value, c.before[r.id]))
            && (Trim(r.ifMatch) != "" ==> IfMatchMatches(Trim(r.ifMatch), ProfileTag(lib, c.before[r.id])))
  {
    RunKeepsInv(lib, requests, initial, schedule);
    RunKeepsReads(lib, requests, initial, schedule);
    var s, r := Run(lib, requests, initial, schedule), requests[c.client].patch;
    assert CommitOk(lib, requests, c);
    CommitIsAtomic(lib, r, c.base, c.before);
    ReplayIsConditional(lib, r, c.base);
    FoundWasHeld(initial, s.commits, s.profiles, c, r.id);
    PutWrites(lib, c.before, Prepare(lib, r, GetResponse(lib, c.base, r.ifNoneMatch, "")).put);
  }

  lemma PutWrites(lib: Library, profiles: Profiles, put: PutRequest)
    requires PutResult(lib, profiles, put).1 == OK
    ensures lib.decode(put.body).Some? && PutResult(lib, profiles,
                put).0 == profiles[put.id := lib.decode(put.body).value]
  {}

  ghost predicate IsAtomic(lib: Library, requests: seq<Request>, c: Commit) {
    c.client < |requests| && Atomic(lib, requests[c.client], c.before) == (c.after, OK)
  }

  lemma CommitsAreAtomic(lib: Library, requests: seq<Request>, initial: Profiles, schedule: seq<nat>)
    requires Schedules(requests, schedule)
    requires CollisionFree(lib, initial, Run(lib, requests, initial, schedule).commits)
    ensures forall c | c in Run(lib, requests, initial, schedule).commits && c.client < |requests|
            && Tagged(requests[c.client]) ::
              IsAtomic(lib, requests, c)
  {
    RunKeepsInv(lib, requests, initial, schedule);
    var s := Run(lib, requests, initial, schedule);
    forall c | c in s.commits && c.client < |requests| && Tagged(requests[c.client])
        ensures IsAtomic(lib, requests, c) {
      assert CommitOk(lib, requests, c);
      if requests[c.client].Patching? {
        NoLostUpdate(lib, requests, initial, schedule, c);
        CommitIsAtomic(lib, requests[c.client].patch, c.base, c.before);
      }
    }
  }

  lemma InTurnSnoc(lib: Library, requests: seq<Request>, initial: Profiles, order: seq<nat>, i: nat)
    requires Schedules(requests, order) && i < |requests|
    ensures Schedules(requests, order + [i])
    ensures InTurn(lib, requests, initial, order + [i]) == Atomic(lib, requests[i], InTurn(lib, requests, initial,
                order)).0
  {
    assert (order + [i])[..|order|] == order;
  }

  lemma {:induction false} ChainIsInTurn(lib: Library, requests: seq<Request>, initial: Profiles, commits: seq<Commit>,
                                         profiles: Profiles)
    requires Chained(initial, commits, profiles) && forall c | c in commits :: IsAtomic(lib, requests, c)
    ensures Schedules(requests, Clients(commits)) && InTurn(lib, requests, initial, Clients(commits)) == profiles
  {
    if commits != [] {
      var n := |commits| - 1;
      var last := commits[n];
      assert IsAtomic(lib, requests, last);
      ChainIsInTurn(lib, requests, initial, commits[..n], last.before);
      assert Clients(commits) == Clients(commits[..n]) + [last.client];
      InTurnSnoc(lib, requests, initial, Clients(commits[..n]), last.client);
    }
  }

  /** In every interleaving of tagged PATCHes and direct PUTs in which no resource holds two different
      profiles with one hash, the store is what the requests that were answered 200, carried out whole
      and one after the other in commit order, would leave. */
  lemma StoreIsCommitsInTurn(lib: Library, requests: seq<Request>, initial: Profiles, schedule: seq<nat>)
    requires Schedules(requests, schedule) && forall r | r in requests :: Tagged(r)
    requires CollisionFree(lib, initial, Run(lib, requests, initial, schedule).commits)
    ensures var s := Run(lib, requests, initial, schedule);
            var order := Clients(s.commits);
            && Schedules(requests, order)
            && s.profiles == InTurn(lib, requests, initial, order)
            && (forall k, m | 0 <= k < m < |order| :: order[k] != order[m])
            && (forall i | 0 <= i < |requests| :: s.phases[i] == Done(OK) <==> i in order)
  {
    RunKeepsInv(lib, requests, initial, schedule);
    CommitsAreAtomic(lib, requests, initial, schedule);
    var s := Run(lib, requests, initial, schedule);
    forall c | c in s.commits ensures IsAtomic(lib, requests, c) {
      assert CommitOk(lib, requests, c) && Tagged(requests[c.client]);
    }
    ChainIsInTurn(lib, requests, initial, s.commits, s.profiles);
    forall i | 0 <= i < |requests| ensures s.phases[i] == Done(OK) <==> i in Clients(s.commits) {
      AnsweredIsCommitted(s, i);
    }
  }

  lemma AnsweredIsCommitted(s: System, i: nat)
    requires CommitsMatchAnswers(s) && i < |s.phases|
    ensures s.phases[i] == Done(OK) <==> i in Clients(s.commits)
  {
    if s.phases[i] == Done(OK) {
      var k :| 0 <= k < |s.commits| && s.commits[k].client == i;
      assert Clients(s.commits)[k] == i;
    }
  }

  /** A tagged PATCH ready for its PUT, whose result is a valid profile, is answered 200 exactly when
      the profile it read is still the stored one, or collides with it, and 412 otherwise. */
  lemma ConflictExactly(lib: Library, requests: seq<Request>, initial: Profiles, schedule: seq<nat>, i: nat)
    requires Schedules(requests, schedule) && i < |requests|
    requires requests[i].Patching? && Tagged(requests[i])
    requires Run(lib, requests, initial, schedule).phases[i].Ready?
    ensures var s := Run(lib, requests, initial, schedule);
            var answer, base := Step(lib, requests, s, i).phases[i], s.phases[i].base;
            var current := Current(s.profiles, requests[i].patch.id);
            && base.Some?
            && if lib.decode(s.phases[i].put.body).None? then answer == Done(BAD_REQUEST)
               else if current == base || (current.Some? && Collide(lib, current.value, base.value)) then
                 answer == Done(OK)
               else answer == Done(PRECONDITION_FAILED)
  {
    RunKeepsInv(lib, requests, initial, schedule);
    var s := Run(lib, requests, initial, schedule);
    assert PhaseOk(lib, requests[i], s.phases[i]);
    var r, base, put := requests[i].patch, s.phases[i].base, s.phases[i].put;
    ReplayIsConditional(lib, r, base);
    ConditionalPut(lib, s.profiles, put, base.value);
    if put.id in s.profiles { TagNamesProfile(lib, s.profiles[put.id], base.value); }
  }

  // ------------------------------------------------ where the protection ends, exactly

  /** Every commit of the request, in every run, is the whole PATCH in one go, but for collisions of
      what it read with what it replaced. */
  ghost predicate Protected(lib: Library, r: PatchRequest) {
    forall requests, initial, schedule :: ProtectedIn(lib, r, requests, initial, schedule)
  }

  ghost predicate ProtectedIn(lib: Library, r: PatchRequest, requests: seq<Request>, initial: Profiles,
                              schedule: seq<nat>) {
    Schedules(requests, schedule) ==>
      forall c | c in Run(lib, requests, initial, schedule).commits && c.client < |requests|
                 && requests[c.client] == Patching(r) :: Unharmed(lib, r, c)
  }

  ghost predicate Unharmed(lib: Library, r: PatchRequest, c: Commit) {
    || Alone(lib, c.before, r) == (c.after, OK)
    || (c.base.Some? && r.id in c.before && Collide(lib, c.base.value, c.before[r.id]))
  }

  /** The document makes two different profiles of p and q, whose hashes differ, and a PUT can write q. */
  ghost predicate Matters(lib: Library, document: Document, p: Profile, q: Profile, writesQ: Bytes) {
    && lib.decode(writesQ) == Some(q) && !Collide(lib, p, q)
    && Patched(lib, document, p).Some? && Patched(lib, document, q).Some?
    && Patched(lib, document, p) != Patched(lib, document, q)
  }

  /** An untagged PATCH with an If-Match is always refused: nothing to compare it with. */
  lemma UntaggedIfMatchRefused(lib: Library, r: PatchRequest, base: Option<Profile>)
    requires r.range != "" && Trim(r.ifMatch) != ""
    ensures Prepare(lib, r, GetResponse(lib, base, r.ifNoneMatch, r.range)).Reply?
  {}

  lemma {:induction false} UntaggedIfMatchNeverCommits(lib: Library, r: PatchRequest, requests: seq<Request>,
                                                       initial: Profiles, schedule: seq<nat>)
    requires r.range != "" && Trim(r.ifMatch) != "" && Schedules(requests, schedule)
    ensures var s := Run(lib, requests, initial, schedule);
            && (forall c | c in s.commits && c.client < |requests| :: requests[c.client] != Patching(r))
            && (forall i | 0 <= i < |requests| && requests[i] == Patching(r) ::
                  !s.phases[i].Ready?
                  && (s.phases[i].Fetched? ==>
                        s.phases[i].response == GetResponse(lib, s.phases[i].base, r.ifNoneMatch, r.range)))
  {
    if schedule != [] {
      var n := |schedule| - 1;
      UntaggedIfMatchNeverCommits(lib, r, requests, initial, schedule[..n]);
      var s := Run(lib, requests, initial, schedule[..n]);
      if s.phases[schedule[n]].Fetched? {
        UntaggedIfMatchRefused(lib, r, s.phases[schedule[n]].base);
      }
    }
  }

  lemma RunSnoc(lib: Library, requests: seq<Request>, initial: Profiles, schedule: seq<nat>, i: nat)
    requires Schedules(requests, schedule) && i < |requests|
    ensures Schedules(requests, schedule + [i])
    ensures Run(lib, requests, initial, schedule + [i]) == Step(lib, requests, Run(lib, requests, initial, schedule), i)
  {
    assert (schedule + [i])[..|schedule|] == schedule;
  }

  function Overwriter(id: string, body: Bytes): Request {
    Putting(PutRequest(id, "", "", body))
  }

  lemma OverwriterIsFirst(lib: Library, r: PatchRequest, p: Profile, q: Profile, writesQ: Bytes)
    requires r.range != "" && lib.decode(writesQ) == Some(q)
    ensures var initial := map[r.id := p];
            Run(lib, [Patching(r), Overwriter(r.id, writesQ)], initial, [0, 1, 1])
            == System(initial[r.id := q],
                      [Fetched(Some(p), GetResponse(lib, Some(p), r.ifNoneMatch, r.range)), Done(OK)],
                      [Commit(1, None, initial, initial[r.id := q])])
  {
    var requests, initial := [Patching(r), Overwriter(r.id, writesQ)], map[r.id := p];
    var read := GetResponse(lib, Some(p), r.ifNoneMatch, r.range);
    RunSnoc(lib, requests, initial, [], 0);
    assert [] + [0] == [0];
    assert Run(lib, requests, initial, [0]).phases == [Fetched(Some(p), read), Arrived];
    RunSnoc(lib, requests, initial, [0], 1);
    assert [0] + [1] == [0, 1];
    assert Run(lib, requests, initial, [0, 1]).phases == [Fetched(Some(p), read), Ready(None, requests[1].put)];
    RunSnoc(lib, requests, initial, [0, 1], 1);
    assert [0, 1] + [1] == [0, 1, 1];
    assert PutResult(lib, initial, requests[1].put) == (initial[r.id := q], OK);
  }

  /** The PATCH reads p, the PUT replaces it by q, and the PATCH then goes through all the same. */
  lemma UntaggedPatchOverwrites(lib: Library, r: PatchRequest, p: Profile, q: Profile, writesQ: Bytes)
    requires r.range != "" && Trim(r.ifMatch) == "" && Matters(lib, r.document, p, q, writesQ)
    ensures var requests, initial := [Patching(r), Overwriter(r.id, writesQ)], map[r.id := p];
            var s := Run(lib, requests, initial, [0, 1, 1, 0, 0]);
            var held := initial[r.id := q];
            s.commits == [Commit(1, None, initial, held),
                          Commit(0, Some(p), held, held[r.id := Patched(lib, r.document, p).value])]
  {
    var requests, initial := [Patching(r), Overwriter(r.id, writesQ)], map[r.id := p];
    OverwriterIsFirst(lib, r, p, q, writesQ);
    UntaggedRead(lib, r, p);
    RunSnoc(lib, requests, initial, [0, 1, 1], 0);
    assert [0, 1, 1] + [0] == [0, 1, 1, 0];
    var put := PutRequest(r.id, r.ifMatch, r.ifUnmodifiedSince, Merge(lib, r.document, lib.encode(p)).body);
    assert Run(lib, requests, initial, [0, 1, 1, 0]).phases[0] == Ready(Some(p), put);
    RunSnoc(lib, requests, initial, [0, 1, 1, 0], 0);
    assert [0, 1, 1, 0] + [0] == [0, 1, 1, 0, 0];
  }

  lemma UntaggedRead(lib: Library, r: PatchRequest, p: Profile)
    requires r.range != "" && Trim(r.ifMatch) == ""
    requires Merge(lib, r.document, lib.encode(p)).Merged?
    ensures Prepare(lib, r, GetResponse(lib, Some(p), r.ifNoneMatch, r.range))
            == Replay(PutRequest(r.id, r.ifMatch, r.ifUnmodifiedSince, Merge(lib, r.document, lib.encode(p)).body))
  {
    var read := GetResponse(lib, Some(p), r.ifNoneMatch, r.range);
    assert read.body == lib.encode(p);
  }

  lemma AtomicOrCollides(lib: Library, r: PatchRequest, requests: seq<Request>, initial: Profiles, schedule: seq<nat>,
                         c: Commit)
    requires r.range == "" && Schedules(requests, schedule)
    requires c in Run(lib, requests, initial, schedule).commits && c.client < |requests|
             && requests[c.client] == Patching(r)
    ensures Unharmed(lib, r, c)
  {
    RunKeepsInv(lib, requests, initial, schedule);
    assert CommitOk(lib, requests, c);
    CommitIsAtomic(lib, r, c.base, c.before);
  }

  lemma ProtectedWhenTagged(lib: Library, r: PatchRequest)
    requires r.range == "" || Trim(r.ifMatch) != ""
    ensures Protected(lib, r)
  {
    forall requests, initial, schedule ensures ProtectedIn(lib, r, requests, initial, schedule) {
      if Schedules(requests, schedule) {
        if r.range == "" {
          forall c | c in Run(lib, requests, initial, schedule).commits && c.client < |requests|
                     && requests[c.client] == Patching(r) ensures Unharmed(lib, r, c)
          {
            AtomicOrCollides(lib, r, requests, initial, schedule, c);
          }
        } else {
          UntaggedIfMatchNeverCommits(lib, r, requests, initial, schedule);
        }
      }
    }
  }

  lemma OverwritesWhenUntagged(lib: Library, r: PatchRequest, p: Profile, q: Profile, writesQ: Bytes)
    requires Matters(lib, r.document, p, q, writesQ) && r.range != "" && Trim(r.ifMatch) == ""
    ensures !Protected(lib, r)
  {
    var requests, initial := [Patching(r), Overwriter(r.id, writesQ)], map[r.id := p];
    var held := initial[r.id := q];
    UntaggedPatchOverwrites(lib, r, p, q, writesQ);
    UntaggedRead(lib, r, q);
    var c := Run(lib, requests, initial, [0, 1, 1, 0, 0]).commits[1];
    assert requests[c.client] == Patching(r);
    assert c.after[r.id] == Patched(lib, r.document, p).value;
    assert Alone(lib, held, r).0[r.id] == Patched(lib, r.document, q).value;
    assert !Unharmed(lib, r, c);
    assert !ProtectedIn(lib, r, requests, initial, [0, 1, 1, 0, 0]);
  }

  /** A PATCH that matters is protected against lost updates in every run if and only if it
      carries no Range header or carries an If-Match (in which case, with a Range, it is refused). */
  lemma ProtectedExactly(lib: Library, r: PatchRequest, p: Profile, q: Profile, writesQ: Bytes)
    requires Matters(lib, r.document, p, q, writesQ)
    ensures Protected(lib, r) <==> r.range == "" || Trim(r.ifMatch) != ""
  {
    if r.range == "" || Trim(r.ifMatch) != "" {
      ProtectedWhenTagged(lib, r);
    } else {
      OverwritesWhenUntagged(lib, r, p, q, writesQ);
    }
  }

  // ------------------------------------------------------------- two clients, one resource

  /** A PATCH without any condition of its own, on a profile that it changes. */
  predicate Plain(lib: Library, r: PatchRequest, p: Profile, q: Profile) {
    && r.range == "" && Trim(r.ifMatch) == "" && Trim(r.ifUnmodifiedSince) == "" && Trim(r.ifNoneMatch) == ""
    && Patched(lib, r.document, p) == Some(q) && lib.hash(lib.encode(p)) != lib.hash(lib.encode(q))
  }

  function PutOf(lib: Library, r: PatchRequest, p: Profile): PutRequest
    requires Patched(lib, r.document, p).Some?
  {
    PutRequest(r.id, ProfileTag(lib, p), r.ifUnmodifiedSince, Merge(lib, r.document, lib.encode(p)).body)
  }

  lemma PlainPrepares(lib: Library, r: PatchRequest, p: Profile, q: Profile)
    requires Plain(lib, r, p, q)
    ensures Prepare(lib, r, GetResponse(lib, Some(p), r.ifNoneMatch, "")) == Replay(PutOf(lib, r, p))
  {
    TaggedGet(lib, p, r.ifNoneMatch);
  }

  lemma GetStep(lib: Library, requests: seq<Request>, s: System, i: nat, base: Option<Profile>)
    requires |s.phases| == |requests| && i < |requests| && s.phases[i].Arrived? && requests[i].Patching?
    requires base == Current(s.profiles, requests[i].patch.id)
    ensures var r := requests[i].patch;
            Step(lib, requests, s, i) == s.(phases := s.phases[i := Fetched(base, GetResponse(lib, base,
                r.ifNoneMatch, r.range))])
  {}

  lemma PrepareStep(lib: Library, requests: seq<Request>, s: System, i: nat, put: PutRequest)
    requires |s.phases| == |requests| && i < |requests| && s.phases[i].Fetched? && requests[i].Patching?
    requires Prepare(lib, requests[i].patch, s.phases[i].response) == Replay(put)
    ensures Step(lib, requests, s, i) == s.(phases := s.phases[i := Ready(s.phases[i].base, put)])
  {}

  /** The system of two such PATCHes before anything has been written. */
  function Unwritten(id: string, p: Profile, one: Phase, two: Phase): System {
    System(map[id := p], [one, two], [])
  }

  function ReadOf(lib: Library, r: PatchRequest, p: Profile): Phase {
    Fetched(Some(p), GetResponse(lib, Some(p), r.ifNoneMatch, r.range))
  }

  lemma BothRead(lib: Library, r: PatchRequest, p: Profile)
    ensures var requests, read := [Patching(r), Patching(r)], ReadOf(lib, r, p);
            Step(lib, requests, Step(lib, requests, Unwritten(r.id, p, Arrived, Arrived), 0), 1)
            == Unwritten(r.id, p, read, read)
  {
    var requests, read := [Patching(r), Patching(r)], ReadOf(lib, r, p);
    GetStep(lib, requests, Unwritten(r.id, p, Arrived, Arrived), 0, Some(p));
    assert [Arrived, Arrived][0 := read] == [read, Arrived];
    GetStep(lib, requests, Unwritten(r.id, p, read, Arrived), 1, Some(p));
    assert [read, Arrived][1 := read] == [read, read];
  }

  lemma BothPrepare(lib: Library, r: PatchRequest, p: Profile, q: Profile)
    requires Plain(lib, r, p, q)
    ensures var requests, read := [Patching(r), Patching(r)], ReadOf(lib, r, p);
            var ready := Ready(Some(p), PutOf(lib, r, p));
            Step(lib, requests, Step(lib, requests, Unwritten(r.id, p, read, read), 0), 1)
            == Unwritten(r.id, p, ready, ready)
  {
    var requests, read := [Patching(r), Patching(r)], ReadOf(lib, r, p);
    var ready := Ready(Some(p), PutOf(lib, r, p));
    PlainPrepares(lib, r, p, q);
    PrepareStep(lib, requests, Unwritten(r.id, p, read, read), 0, PutOf(lib, r, p));
    assert [read, read][0 := ready] == [ready, read];
    PrepareStep(lib, requests, Unwritten(r.id, p, ready, read), 1, PutOf(lib, r, p));
    assert [ready, read][1 := ready] == [ready, ready];
  }

  lemma PlainPuts(lib: Library, r: PatchRequest, p: Profile, q: Profile)
    requires Plain(lib, r, p, q)
    ensures PutResult(lib, map[r.id := p], PutOf(lib, r, p)) == (map[r.id := q], OK)
    ensures PutResult(lib, map[r.id := q], PutOf(lib, r, p)) == (map[r.id := q], PRECONDITION_FAILED)
  {
    ConditionalPut(lib, map[r.id := p], PutOf(lib, r, p), p);
    ConditionalPut(lib, map[r.id := q], PutOf(lib, r, p), p);
    TagsDistinguishHashes(lib.hash, lib.encode(p), lib.encode(q));
    assert map[r.id := p][r.id := q] == map[r.id := q];
  }

  /** What is left when the first has won. */
  function Won(id: string, p: Profile, q: Profile, other: Phase): System {
    System(map[id := q], [Done(OK), other], [Commit(0, Some(p), map[id := p], map[id := q])])
  }

  lemma FirstCommits(lib: Library, r: PatchRequest, p: Profile, q: Profile)
    requires Plain(lib, r, p, q)
    ensures var requests, ready := [Patching(r), Patching(r)], Ready(Some(p), PutOf(lib, r, p));
            Step(lib, requests, Unwritten(r.id, p, ready, ready), 0) == Won(r.id, p, q, ready)
  {
    var ready := Ready(Some(p), PutOf(lib, r, p));
    PlainPuts(lib, r, p, q);
    PutStep(lib, [Patching(r), Patching(r)], Unwritten(r.id, p, ready, ready), 0);
    assert [ready, ready][0 := Done(OK)] == [Done(OK), ready];
  }

  lemma SecondIsRefused(lib: Library, r: PatchRequest, p: Profile, q: Profile)
    requires Plain(lib, r, p, q)
    ensures var requests, ready := [Patching(r), Patching(r)], Ready(Some(p), PutOf(lib, r, p));
            Step(lib, requests, Won(r.id, p, q, ready), 1) == Won(r.id, p, q, Done(PRECONDITION_FAILED))
  {
    var ready := Ready(Some(p), PutOf(lib, r, p));
    PlainPuts(lib, r, p, q);
    PutStep(lib, [Patching(r), Patching(r)], Won(r.id, p, q, ready), 1);
    assert [Done(OK), ready][1 := Done(PRECONDITION_FAILED)] == [Done(OK), Done(PRECONDITION_FAILED)];
  }

  lemma RunTwoSteps(lib: Library, requests: seq<Request>, initial: Profiles, schedule: seq<nat>, i: nat, j: nat)
    requires Schedules(requests, schedule) && i < |requests| && j < |requests|
    ensures Schedules(requests, schedule + [i, j])
    ensures Run(lib, requests, initial, schedule + [i, j])
            == Step(lib, requests, Step(lib, requests, Run(lib, requests, initial, schedule), i), j)
  {
    RunSnoc(lib, requests, initial, schedule, i);
    RunSnoc(lib, requests, initial, schedule + [i], j);
    assert schedule + [i] + [j] == schedule + [i, j];
  }

  lemma TwoProfilesHeld(lib: Library, id: string, p: Profile, q: Profile, c: Commit)
    requires lib.hash(lib.encode(p)) != lib.hash(lib.encode(q)) && c.after == map[id := q]
    ensures CollisionFree(lib, map[id := p], [c])
  {
    forall other, x | Held(map[id := p], [c], other, x) ensures x == p || x == q {}
  }

  /** Two clients read the same profile and both replay: one commits, the other is refused, and
      nothing collides. */
  lemma OneOfTwoCommits(lib: Library, r: PatchRequest, p: Profile, q: Profile)
    requires Plain(lib, r, p, q)
    ensures var s := Run(lib, [Patching(r), Patching(r)], map[r.id := p], [] + [0, 1] + [0, 1] + [0, 1]);
            s == Won(r.id, p, q, Done(PRECONDITION_FAILED)) && CollisionFree(lib, map[r.id := p], s.commits)
  {
    var requests, initial := [Patching(r), Patching(r)], map[r.id := p];
    assert Start(initial, requests).phases == [Arrived, Arrived];
    BothRead(lib, r, p);
    BothPrepare(lib, r, p, q);
    FirstCommits(lib, r, p, q);
    SecondIsRefused(lib, r, p, q);
    RunTwoSteps(lib, requests, initial, [], 0, 1);
    RunTwoSteps(lib, requests, initial, [] + [0, 1], 0, 1);
    RunTwoSteps(lib, requests, initial, [] + [0, 1] + [0, 1], 0, 1);
    TwoProfilesHeld(lib, r.id, p, q, Commit(0, Some(p), initial, map[r.id := q]));
  }

  /** A library of one-byte encodings: "", "a" and "b" are the names it tells apart. */
  function SmallLibrary(): Library {
    Library(
      (b: Bytes) => if b == [] then 0 else b[0] as int as uint64,
      (p: Profile) => if p.name == "" then [0] else if p.name == "a" then [1] else [2],
      (b: Bytes) => if b == [0] then Some(Named("")) else if b == [1] then Some(Named("a")) else Some(Named("b")),
      (d: Document, b: Bytes) => Merged(if b == [0] then [1] else [2]),
      (s: string) => None)
  }

  function Named(name: string): Profile {
    Profile(name, "", [])
  }

  /** The hypotheses of these theorems are met: by this library, its profiles, and a run in which two
      PATCHes compete. */
  lemma SmallLibraryMeetsAll(id: string)
    ensures var lib, r := SmallLibrary(), PatchRequest(id, "", "", "", "", Document("", []));
            && Plain(lib, r, Named(""), Named("a"))
            && Matters(lib, r.document, Named(""), Named("a"), [1])
            && var s := Run(lib, [Patching(r), Patching(r)], map[id := Named("")], [] + [0, 1] + [0, 1] + [0, 1]);
               s.phases == [Done(OK), Done(PRECONDITION_FAILED)] && CollisionFree(lib, map[id := Named("")], s.commits)
  {
    OneOfTwoCommits(SmallLibrary(), PatchRequest(id, "", "", "", "", Document("", [])), Named(""), Named("a"));
  }
}
