/** The ETag middleware: a buffered GET answer gets a tag, and an answer that the client already
    holds becomes an empty 304. */
module ETag {
  import opened Strings
  import opened Responses
  import opened EntityTags

  /** The tag of a successful answer: the handler's own, or one computed from the body. */
  function TagOf(hash: Hash, source: Response): string {
    if Get(source.header, "ETag") != "" then Get(source.header, "ETag") else ComputeETag(hash, source.body)
  }

  /** flush, as a function of what the two writers hold. */
  function Flushed(hash: Hash, source: Response, destination: Response, ifNoneMatch: string): Response {
    if !source.IsSuccess() then Copied(destination, source)
    else
      var tag := TagOf(hash, source);
      var tagged := destination.(header := Added(destination.header, source.header)["ETag" := [tag]]);
      if IfNoneMatchMatches(ifNoneMatch, tag) then tagged.WithStatus(NOT_MODIFIED)
      else tagged.WithStatus(source.FinalStatus()).WithData(source.body)
  }

  method Flush(hash: Hash, source: ResponseWriter, destination: ResponseWriter, ifNoneMatch: string)
    requires source != destination
    modifies source`statusCode, destination
    ensures destination.Value() == Flushed(hash, old(source.Value()), old(destination.Value()), ifNoneMatch)
  {
    ghost var before := destination.Value();
    if !source.wroteHeader {
      source.statusCode := OK;
    }
    if source.statusCode < OK || source.statusCode >= MULTIPLE_CHOICES {
      destination.AddAll(source.header);
      assert destination.Value() == before.(header := Added(before.header, source.header));
      destination.WriteHeader(source.statusCode);
      destination.Write(source.buffer);
      return;
    }
    var etag := Get(source.header, "ETag");
    if etag == "" {
      etag := ComputeETag(hash, source.buffer);
    }
    destination.AddAll(source.header);
    destination.header := destination.header["ETag" := [etag]];
    assert destination.Value() == before.(header := Added(before.header, source.header)["ETag" := [etag]]);
    if IfNoneMatchMatches(ifNoneMatch, etag) {
      destination.WriteHeader(NOT_MODIFIED);
      return;
    }
    destination.WriteHeader(source.statusCode);
    destination.Write(source.buffer);
  }

  /** One GET through the middleware: what net/http sends to the client. */
  function Serve(hash: Hash, actions: seq<Action>, ifNoneMatch: string): Response {
    Flushed(hash, PerformAll(Untouched, actions), Unsent, ifNoneMatch)
  }

  /** The bytes of a buffered answer that reach the client. */
  function Visible(answer: Response): Bytes {
    Carried(Serving, Shown(answer.FinalStatus()), answer.body)
  }

  /** Without If-None-Match, and compared with direct writing: the status is the same, and with it
      the bytes, exactly when the handler's first status is not informational or its first final one
      is 200 anyway; and a header but ETag is the same exactly when nothing sets it, or only to what
      it was, after the first final status or byte. */
  lemma BufferingIsTransparent(hash: Hash, actions: seq<Action>, ifNoneMatch: string)
    requires Trim(ifNoneMatch) == ""
    ensures var direct, sent := PerformAll(Unsent, actions), Serve(hash, actions, ifNoneMatch);
            var first, final := FirstStatus(Buffering, actions), FirstStatus(Serving, actions);
            && direct.FinalStatus() == final && direct.body == Carried(Serving, final, AllBytes(actions))
            && sent.FinalStatus() == Shown(first) && sent.body == Carried(Serving, Shown(first), AllBytes(actions))
            && (sent.FinalStatus() == direct.FinalStatus() <==> !Informational(first) || final == OK)
            && forall name | name != "ETag" ::
                 (Values(sent.Sent(), name) == Values(direct.Sent(), name)
                  <==> var late := LastSet(Late(actions), name);
                       late.None? || late.value == LastSet(Early(actions), name).GetOr([]))
  {
    WriterHoldsWholeOutput(Buffering, actions);
    WriterHoldsWholeOutput(Serving, actions);
    ServeShows(hash, actions, ifNoneMatch);
    if !Informational(FirstStatus(Buffering, actions)) { KindsAgree(actions); }
    forall name | name != "ETag"
      ensures Values(Serve(hash, actions, ifNoneMatch).Sent(), name) == Values(Answer(actions).header, name)
    {
      ServedHeader(hash, actions, ifNoneMatch, name);
    }
    forall name { HeaderAgreesExactly(actions, name); }
  }

  /** Early hints before a 404: written directly the client gets the 404, through the buffer a 200. */
  lemma EarlyHintsHideTheStatus(hash: Hash, data: Bytes)
    ensures var actions := [WriteHeader(103), WriteHeader(404), Write(data)];
            PerformAll(Unsent, actions).FinalStatus() == 404 && Serve(hash, actions, "").FinalStatus() == 200
  {
    var actions := [WriteHeader(103), WriteHeader(404), Write(data)];
    assert actions[1..] == [WriteHeader(404), Write(data)];
    assert FirstStatus(Serving, actions[1..]) == 404;
    TrimIsTrimmed("");
    BufferingIsTransparent(hash, actions, "");
  }

  lemma ServedHeader(hash: Hash, actions: seq<Action>, ifNoneMatch: string, name: string)
    requires name != "ETag" || !Answer(actions).IsSuccess()
    ensures Values(Serve(hash, actions, ifNoneMatch).Sent(), name) == Values(Answer(actions).header, name)
  {
    assert [] + Values(Answer(actions).header, name) == Values(Answer(actions).header, name);
  }

  // ------------------------------------------------------------------ the tag itself

  /** The tag that the handler's actions leave in its own ETag header, "" when they leave none. */
  function OwnTag(actions: seq<Action>): string {
    match LastSet(actions, "ETag")
    case Some(values) => if values != [] then values[0] else ""
    case None => ""
  }

  /** The tag that a successful answer is served under: the handler's own, or else that of its bytes. */
  function ServedTag(hash: Hash, actions: seq<Action>): string {
    if OwnTag(actions) != "" then OwnTag(actions) else ComputeETag(hash, AllBytes(actions))
  }

  lemma OwnTagIsGot(actions: seq<Action>)
    ensures Get(Answer(actions).header, "ETag") == OwnTag(actions)
  {
    HeldHeader(Buffering, actions, "ETag");
  }

  lemma TagOfAnswer(hash: Hash, actions: seq<Action>)
    ensures TagOf(hash, Answer(actions)) == ServedTag(hash, actions)
  {
    OwnTagIsGot(actions);
    WriterHoldsWholeOutput(Buffering, actions);
  }

  lemma TaggedReply(hash: Hash, actions: seq<Action>, ifNoneMatch: string)
    requires Answer(actions).IsSuccess()
    ensures var sent := Serve(hash, actions, ifNoneMatch).Sent();
            "ETag" in sent && sent["ETag"] == [TagOf(hash, Answer(actions))]
  {}

  /** Every successful answer is served under one tag, the handler's own wherever it has set one; and it
      becomes an empty 304 exactly when the list in If-None-Match names that tag, W/ set aside. */
  lemma ServedUnderTag(hash: Hash, actions: seq<Action>, tags: seq<string>)
    requires 200 <= FirstStatus(Buffering, actions) < 300
    requires forall t | t in tags :: Listable(t)
    requires Trim(Join(tags, ", ")) != "*"
    ensures var tag, reply := ServedTag(hash, actions), Serve(hash, actions, Join(tags, ", "));
            && "ETag" in reply.Sent() && reply.Sent()["ETag"] == [tag]
            && if !Blank(Join(tags, ", ")) && exists t | t in tags :: TrimPrefix(t, WEAK) == TrimPrefix(tag, WEAK)
               then reply.FinalStatus() == 304 && reply.body == []
               else && reply.FinalStatus() == FirstStatus(Buffering, actions)
                    && reply.body == Carried(Serving, FirstStatus(Buffering, actions), AllBytes(actions))
  {
    var list := Join(tags, ", ");
    WriterHoldsWholeOutput(Buffering, actions);
    TagOfAnswer(hash, actions);
    TaggedReply(hash, actions, list);
    ServeShows(hash, actions, list);
    TrimBlank(list);
    if !Blank(list) { IfNoneMatchListExactly(tags, ServedTag(hash, actions)); }
  }

  /** "*" is any tag; and an answer that is no success gets no tag and is passed on as it is. */
  lemma ServedOtherwise(hash: Hash, actions: seq<Action>, ifNoneMatch: string)
    ensures 200 <= FirstStatus(Buffering, actions) < 300 ==>
              var reply := Serve(hash, actions, "*"); reply.FinalStatus() == 304 && reply.body == []
    ensures !(200 <= FirstStatus(Buffering, actions) < 300) ==>
              var reply, status := Serve(hash, actions, ifNoneMatch), Shown(FirstStatus(Buffering, actions));
              && reply.FinalStatus() == status && reply.body == Carried(Serving, status, AllBytes(actions))
              && Values(reply.Sent(), "ETag") == LastSet(actions, "ETag").GetOr([])
  {
    WriterHoldsWholeOutput(Buffering, actions);
    TrimIsTrimmed("*");
    ServeShows(hash, actions, "*");
    ServeShows(hash, actions, ifNoneMatch);
    HeldHeader(Buffering, actions, "ETag");
    if !Answer(actions).IsSuccess() { ServedHeader(hash, actions, ifNoneMatch, "ETag"); }
  }

  // --------------------------------------------------------- a client with a cache

  datatype Cache = Nothing | Stored(tag: string, body: Bytes)

  /** One exchange: the client sends the tag it holds and reuses its body on 304. */
  function Exchange(hash: Hash, cache: Cache, actions: seq<Action>): (r: (Cache, Bytes)) {
    var reply := Serve(hash, actions, if cache.Stored? then cache.tag else "");
    var tag := Get(reply.Sent(), "ETag");
    if reply.FinalStatus() == NOT_MODIFIED && cache.Stored? then (cache, cache.body)
    else if reply.FinalStatus() == OK && tag != "" then (Stored(tag, reply.body), reply.body)
    else (cache, reply.body)
  }

  /** The cache after a run of exchanges with a handler whose answers change. */
  function CacheAfter(hash: Hash, run: seq<seq<Action>>): Cache {
    if run == [] then Nothing
    else Exchange(hash, CacheAfter(hash, run[..|run| - 1]), run[|run| - 1]).0
  }

  function Answer(actions: seq<Action>): Response {
    PerformAll(Untouched, actions)
  }

  /** Answers that a client can store: those that reach it as 200, with a tag. One that begins with an
      informational status has only a tag of its own. */
  predicate Stores(a: seq<Action>) {
    && Shown(Answer(a).FinalStatus()) == OK
    && (Informational(Answer(a).FinalStatus()) ==> Get(Answer(a).header, "ETag") != "")
  }

  /** A client that has stored the answer a gets 304 for the answer b: its tag names that of b, or the
      handler says 304 of its own accord. */
  predicate Reuses(hash: Hash, a: seq<Action>, b: seq<Action>) {
    || Answer(b).FinalStatus() == NOT_MODIFIED
    || (Answer(b).IsSuccess() && IfNoneMatchMatches(TagOf(hash, Answer(a)), TagOf(hash, Answer(b))))
  }

  /** Whenever one answer is reused for another, they show the client the same bytes. */
  ghost predicate Faithful(hash: Hash, answers: seq<seq<Action>>) {
    forall a, b | a in answers && b in answers && Stores(a) && Reuses(hash, a, b) ::
      Visible(Answer(a)) == Visible(Answer(b))
  }

  /** What is served is the empty 304 or the whole answer. */
  lemma ServeShows(hash: Hash, actions: seq<Action>, ifNoneMatch: string)
    ensures var answer, reply := Answer(actions), Serve(hash, actions, ifNoneMatch);
            if answer.IsSuccess() && IfNoneMatchMatches(ifNoneMatch, TagOf(hash, answer))
            then reply.FinalStatus() == NOT_MODIFIED && reply.body == []
            else reply.FinalStatus() == Shown(answer.FinalStatus()) && reply.body == Visible(answer)
  {
    assert [] + Answer(actions).body == Answer(actions).body;
  }

  /** Ordinary tags, computed or of the handlers' own choice, are faithful when they tell apart the
      bytes of the answers, and no handler answers 304 of its own accord. */
  lemma OrdinaryTagsAreFaithful(hash: Hash, answers: seq<seq<Action>>)
    requires forall a | a in answers :: Answer(a).FinalStatus() != NOT_MODIFIED
    requires forall a | a in answers && Stores(a) ::
               Listable(TagOf(hash, Answer(a))) && TagOf(hash, Answer(a)) != "*"
    requires forall a, b | a in answers && b in answers && Stores(a) && Answer(b).IsSuccess() ::
               TrimPrefix(TagOf(hash, Answer(a)), WEAK) == TrimPrefix(TagOf(hash, Answer(b)), WEAK) ==>
                 Visible(Answer(a)) == Visible(Answer(b))
    ensures Faithful(hash, answers)
  {
    forall a, b | a in answers && b in answers && Stores(a) && Reuses(hash, a, b)
      ensures Visible(Answer(a)) == Visible(Answer(b))
    {
      ComputedTagIsListable(hash, Answer(a).body);
      OneTagMatches(TagOf(hash, Answer(a)), TagOf(hash, Answer(b)));
    }
  }

  lemma OneTagMatches(sent: string, tag: string)
    requires Listable(sent) && sent != "" && sent != "*"
    ensures IfNoneMatchMatches(sent, tag) <==> TrimPrefix(sent, WEAK) == TrimPrefix(tag, WEAK)
  {
    TrimIsTrimmed(sent);
    assert Join([sent], ", ") == sent;
    IfNoneMatchListExactly([sent], tag);
  }

  /** When no handler sets a tag, nor writes bytes that its status cannot carry, a hash that tells
      the bodies apart is enough. */
  lemma ComputedTagsAreFaithful(hash: Hash, answers: seq<seq<Action>>)
    requires forall a | a in answers :: Answer(a).FinalStatus() != NOT_MODIFIED
    requires forall a | a in answers :: Get(Answer(a).header, "ETag") == ""
    requires forall a | a in answers && Answer(a).IsSuccess() :: Visible(Answer(a)) == Answer(a).body
    requires forall a, b | a in answers && b in answers ::
               hash(Answer(a).body) == hash(Answer(b).body) ==> Answer(a).body == Answer(b).body
    ensures Faithful(hash, answers)
  {
    forall a | a in answers
      ensures var tag := TagOf(hash, Answer(a)); Listable(tag) && tag != "*" && TrimPrefix(tag, WEAK) == tag
    {
      ComputedTagIsListable(hash, Answer(a).body);
    }
    forall a, b | a in answers && b in answers
      ensures TagOf(hash, Answer(a)) == TagOf(hash, Answer(b)) ==> Answer(a).body == Answer(b).body
    {
      TagsDistinguishHashes(hash, Answer(a).body, Answer(b).body);
    }
    OrdinaryTagsAreFaithful(hash, answers);
  }

  /** What the client has stored is the tag and the bytes of one of the answers so far. */
  ghost predicate StoredFrom(hash: Hash, run: seq<seq<Action>>, cache: Cache) {
    cache.Stored? ==> exists a :: a in run && Stores(a) && cache == Stored(TagOf(hash, Answer(a)), Visible(Answer(a)))
  }

  /** An exchange keeps the cache or stores the tag and the bytes of the answer. */
  lemma ExchangeStores(hash: Hash, cache: Cache, actions: seq<Action>)
    ensures var next, answer := Exchange(hash, cache, actions).0, Answer(actions);
            next == cache || (Stores(actions) && next == Stored(TagOf(hash, answer), Visible(answer)))
    ensures cache.Nothing? && Stores(actions) ==>
              Exchange(hash, cache, actions).0 == Stored(TagOf(hash, Answer(actions)), Visible(Answer(actions)))
  {
    var sent := if cache.Stored? then cache.tag else "";
    ServeShows(hash, actions, sent);
    ComputedTagIsListable(hash, Answer(actions).body);
    if !Answer(actions).IsSuccess() { ServedHeader(hash, actions, sent, "ETag"); }
  }

  lemma {:induction false} CacheIsStored(hash: Hash, run: seq<seq<Action>>)
    ensures StoredFrom(hash, run, CacheAfter(hash, run))
  {
    if run != [] {
      var n := |run| - 1;
      CacheIsStored(hash, run[..n]);
      ExchangeStores(hash, CacheAfter(hash, run[..n]), run[n]);
      assert run[n] in run && forall a | a in run[..n] :: a in run;
    }
  }

  /** An exchange reuses the stored bytes or receives the full ones. */
  lemma ExchangeReusesOrReceives(hash: Hash, a: seq<Action>, b: seq<Action>)
    ensures var cache := Stored(TagOf(hash, Answer(a)), Visible(Answer(a)));
            Exchange(hash, cache, b).1 == if Reuses(hash, a, b) then Visible(Answer(a)) else Visible(Answer(b))
    ensures Exchange(hash, Nothing, b).1 == Visible(Answer(b))
  {
    ServeShows(hash, b, TagOf(hash, Answer(a)));
    ServeShows(hash, b, "");
  }

  /** After the last exchange of the run the client holds what a full GET would have returned. */
  predicate Coherent(hash: Hash, run: seq<seq<Action>>)
    requires run != []
  {
    var n := |run| - 1;
    Exchange(hash, CacheAfter(hash, run[..n]), run[n]).1 == Serve(hash, run[n], "").body
  }

  lemma NotModifiedReuses(hash: Hash, a: seq<Action>, b: seq<Action>)
    requires Serve(hash, b, TagOf(hash, Answer(a))).FinalStatus() == NOT_MODIFIED
    ensures Reuses(hash, a, b)
  {
    ServeShows(hash, b, TagOf(hash, Answer(a)));
  }

  lemma HeldIsAnswer(hash: Hash, answers: seq<seq<Action>>, a: seq<Action>, b: seq<Action>)
    requires Faithful(hash, answers) && a in answers && b in answers && Stores(a)
    ensures Serve(hash, b, TagOf(hash, Answer(a))).FinalStatus() == NOT_MODIFIED ==>
              Visible(Answer(a)) == Visible(Answer(b))
  {
    if Serve(hash, b, TagOf(hash, Answer(a))).FinalStatus() == NOT_MODIFIED { NotModifiedReuses(hash, a, b); }
  }

  /** A 304 goes only to a client that holds the bytes of the answer. */
  lemma NotModifiedOnlyIfHeld(hash: Hash, answers: seq<seq<Action>>, run: seq<seq<Action>>)
    requires run != [] && Faithful(hash, answers) && forall a | a in run :: a in answers
    ensures var n := |run| - 1;
            var cache := CacheAfter(hash, run[..n]);
            cache.Stored? && Serve(hash, run[n], cache.tag).FinalStatus() == NOT_MODIFIED ==>
              cache.body == Visible(Answer(run[n]))
  {
    var n := |run| - 1;
    var cache := CacheAfter(hash, run[..n]);
    CacheIsStored(hash, run[..n]);
    if cache.Stored? {
      var a :| a in run[..n] && Stores(a) && cache == Stored(TagOf(hash, Answer(a)), Visible(Answer(a)));
      assert a in run && run[n] in run;
      HeldIsAnswer(hash, answers, a, run[n]);
    }
  }

  lemma FaithfulIsCoherent(hash: Hash, answers: seq<seq<Action>>, run: seq<seq<Action>>)
    requires run != [] && Faithful(hash, answers) && forall a | a in run :: a in answers
    ensures Coherent(hash, run)
  {
    var n := |run| - 1;
    var cache := CacheAfter(hash, run[..n]);
    NotModifiedOnlyIfHeld(hash, answers, run);
    ServeShows(hash, run[n], "");
    ServeShows(hash, run[n], if cache.Stored? then cache.tag else "");
  }

  lemma UnfaithfulIsNot(hash: Hash, a: seq<Action>, b: seq<Action>)
    requires Stores(a) && Reuses(hash, a, b) && Visible(Answer(a)) != Visible(Answer(b))
    ensures !Coherent(hash, [a, b])
  {
    assert [a, b][..1] == [a] && [a][..0] == [];
    assert CacheAfter(hash, [a]) == Exchange(hash, Nothing, a).0;
    ExchangeStores(hash, Nothing, a);
    ExchangeReusesOrReceives(hash, a, b);
    ServeShows(hash, b, "");
  }

  /** Whatever the handlers answer, in whatever order, the client that sends its tag back and reuses
      its body on 304 always ends up with the body that a full GET would have returned, if and only if
      the tags are faithful. */
  lemma ConditionalGetIsCoherent(hash: Hash, answers: seq<seq<Action>>)
    ensures (forall run | run != [] && (forall a | a in run :: a in answers) :: Coherent(hash, run))
            <==> Faithful(hash, answers)
  {
    if Faithful(hash, answers) {
      forall run | run != [] && (forall a | a in run :: a in answers) ensures Coherent(hash, run) {
        FaithfulIsCoherent(hash, answers, run);
      }
    } else {
      var a, b :| a in answers && b in answers && Stores(a) && Reuses(hash, a, b)
                  && Visible(Answer(a)) != Visible(Answer(b));
      UnfaithfulIsNot(hash, a, b);
      assert forall c | c in [a, b] :: c in answers;
    }
  }
}
