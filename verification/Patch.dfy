/** A PATCH derived from a GET and a PUT handler, over the profile store of the patch example. */
module Patch {
  import opened Strings
  import opened Responses
  import opened EntityTags
  import opened Precondition
  import opened ETag

  datatype Profile = Profile(name: string, bio: string, tags: seq<string>)

  /** A patch document and its Content-Type, or a request body that cannot be read. */
  datatype Document = Document(contentType: string, body: Bytes) | Unreadable

  datatype Applied = Merged(body: Bytes) | Unsupported | Inapplicable

  /** The libraries behind the handlers. `decode` binds, sanitizes and validates a PUT body. */
  datatype Library = Library(
    hash: Hash,
    encode: Profile -> Bytes,
    decode: Bytes -> Option<Profile>,
    apply: (Document, Bytes) -> Applied,
    parseTime: ParseTime)

  /** The profile's tag, as the ETag middleware and the store both compute it. */
  function ProfileTag(lib: Library, profile: Profile): string {
    ComputeETag(lib.hash, lib.encode(profile))
  }

  /** Two different profiles with one hash, and so with one tag. */
  predicate Collide(lib: Library, p: Profile, q: Profile) {
    p != q && lib.hash(lib.encode(p)) == lib.hash(lib.encode(q))
  }

  datatype PatchRequest = PatchRequest(
    id: string, ifMatch: string, ifUnmodifiedSince: string, ifNoneMatch: string, range: string, document: Document)

  datatype PutRequest = PutRequest(id: string, ifMatch: string, ifUnmodifiedSince: string, body: Bytes)

  const BAD_REQUEST := 400
  const NOT_FOUND := 404
  const PRECONDITION_FAILED := 412
  const UNSUPPORTED_MEDIA_TYPE := 415
  const PRECONDITION_REQUIRED := 428

  // -------------------------------------------------------------------- the store

  /** The answer of the wrapped GET handler: a Range request bypasses the ETag middleware. */
  function GetResponse(lib: Library, current: Option<Profile>, ifNoneMatch: string, range: string): Response {
    var plain := match current
      case None => Untouched.WithStatus(NOT_FOUND)
      case Some(profile) => Untouched.WithStatus(OK).WithData(lib.encode(profile));
    if range != "" then plain else Flushed(lib.hash, plain, Untouched, ifNoneMatch)
  }

  function Current(profiles: map<string, Profile>, id: string): Option<Profile> {
    if id in profiles then Some(profiles[id]) else None
  }

  function CurrentTag(lib: Library, profiles: map<string, Profile>, id: string): string {
    if id in profiles then ProfileTag(lib, profiles[id]) else ""
  }

  /** The PUT handler on the whole store: decode, check, replace. */
  function PutResult(lib: Library, profiles: map<string, Profile>, put: PutRequest): (map<string, Profile>, int) {
    match lib.decode(put.body)
    case None => (profiles, BAD_REQUEST)
    case Some(profile) =>
      var verdict := Check(lib.parseTime, Headers(put.ifMatch, ""), State(CurrentTag(lib, profiles, put.id), None),
                           Config(false));
      if verdict == Proceed then (profiles[put.id := profile], OK) else (profiles, PRECONDITION_FAILED)
  }

  /** The example's store; each method runs under its mutex. */
  class Store {
    var profiles: map<string, Profile>

    constructor (initial: map<string, Profile>)
      ensures profiles == initial
    {
      profiles := initial;
    }

    method Get(lib: Library, id: string, ifNoneMatch: string, range: string, writer: ResponseWriter)
      modifies writer
      ensures old(writer.Value()) == Untouched ==>
                writer.Value() == GetResponse(lib, Current(profiles, id), ifNoneMatch, range)
    {
      var inner := writer;
      if range == "" {
        inner := new ResponseWriter(Buffering);
      }
      if id !in profiles {
        inner.WriteHeader(NOT_FOUND);
      } else {
        inner.WriteHeader(OK);
        inner.Write(lib.encode(profiles[id]));
      }
      if range == "" {
        Flush(lib.hash, inner, writer, ifNoneMatch);
      }
    }

    method Put(lib: Library, put: PutRequest) returns (status: int)
      modifies this
      ensures (profiles, status) == PutResult(lib, old(profiles), put)
    {
      var decoded := lib.decode(put.body);
      if decoded.None? {
        return BAD_REQUEST;
      }
      var exists' := put.id in profiles;
      var currentETag := "";
      if exists' {
        currentETag := ComputeETag(lib.hash, lib.encode(profiles[put.id]));
      }
      var verdict := Check(lib.parseTime, Headers(put.ifMatch, ""), State(currentETag, None), Config(false));
      if verdict != Proceed {
        return PRECONDITION_FAILED;
      }
      profiles := profiles[put.id := decoded.value];
      return OK;
    }
  }

  // ------------------------------------------------------------ the derived PATCH

  /** apply, but for a request body that cannot be read. */
  function Merge(lib: Library, document: Document, body: Bytes): Applied {
    if document.Unreadable? then Inapplicable else lib.apply(document, body)
  }

  /** The profile that the document makes of another one, if it makes a valid profile at all. */
  function Patched(lib: Library, document: Document, profile: Profile): Option<Profile> {
    match Merge(lib, document, lib.encode(profile))
    case Merged(body) => lib.decode(body)
    case _ => None
  }

  /** parseLastModified: an absent header is not a date. */
  function ParseLastModified(parse: ParseTime, header: string): Option<int> {
    if header == "" then None else parse(header)
  }

  /** What From does between the internal GET and the internal PUT. */
  datatype Prepared = Reply(status: int) | Replay(put: PutRequest)

  function Prepare(lib: Library, request: PatchRequest, response: Response): Prepared {
    if !response.IsSuccess() then Reply(response.FinalStatus())
    else
      var etag, lastModified := Get(response.header, "ETag"), Get(response.header, "Last-Modified");
      match Check(lib.parseTime, Headers(request.ifMatch, request.ifUnmodifiedSince),
                  State(etag, ParseLastModified(lib.parseTime, lastModified)), Config(false))
      case PreconditionFailed => Reply(PRECONDITION_FAILED)
      case PreconditionRequired => Reply(PRECONDITION_REQUIRED)
      case Proceed =>
        match Merge(lib, request.document, response.body)
        case Unsupported => Reply(UNSUPPORTED_MEDIA_TYPE)
        case Inapplicable => Reply(BAD_REQUEST)
        case Merged(body) =>
          Replay(PutRequest(request.id,
                            if etag != "" then etag else request.ifMatch,
                            if lastModified != "" then lastModified else request.ifUnmodifiedSince,
                            body))
  }

  /** The whole PATCH with nobody else at the store. */
  function Alone(lib: Library, profiles: map<string, Profile>, request: PatchRequest): (map<string, Profile>, int) {
    var response := GetResponse(lib, Current(profiles, request.id), request.ifNoneMatch, request.range);
    match Prepare(lib, request, response)
    case Reply(status) => (profiles, status)
    case Replay(put) => PutResult(lib, profiles, put)
  }

  /** From, run to the end with nobody else at the store. */
  method From(lib: Library, store: Store, request: PatchRequest) returns (status: int)
    modifies store
    ensures (store.profiles, status) == Alone(lib, old(store.profiles), request)
  {
    var getResponse := new ResponseWriter(Buffering);
    store.Get(lib, request.id, request.ifNoneMatch, request.range, getResponse);
    if !getResponse.Value().IsSuccess() {
      return getResponse.Value().FinalStatus();
    }
    var etag := Get(getResponse.header, "ETag");
    var lastModified := Get(getResponse.header, "Last-Modified");
    var verdict := Check(lib.parseTime, Headers(request.ifMatch, request.ifUnmodifiedSince),
                         State(etag, ParseLastModified(lib.parseTime, lastModified)), Config(false));
    if verdict == PreconditionFailed {
      return PRECONDITION_FAILED;
    } else if verdict == PreconditionRequired {
      return PRECONDITION_REQUIRED;
    }
    if request.document.Unreadable? {
      return BAD_REQUEST;
    }
    var merged := lib.apply(request.document, getResponse.buffer);
    if merged.Unsupported? {
      return UNSUPPORTED_MEDIA_TYPE;
    } else if merged.Inapplicable? {
      return BAD_REQUEST;
    }
    var putRequest := PutRequest(request.id, request.ifMatch, request.ifUnmodifiedSince, merged.body);
    if etag != "" {
      putRequest := putRequest.(ifMatch := etag);
    }
    if lastModified != "" {
      putRequest := putRequest.(ifUnmodifiedSince := lastModified);
    }
    status := store.Put(lib, putRequest);
  }

  // ------------------------------------------------- what one replay carries along

  /** The header's first value is this text. */
  predicate Carries(header: Header, name: string, text: string) {
    text != "" && name in header && header[name] != [] && header[name][0] == text
  }

  /** The header is missing or empty. */
  predicate CarriesNone(header: Header, name: string) {
    name in header && header[name] != [] ==> header[name][0] == ""
  }

  /** A date condition with a Last-Modified to hold it against: between the internal GET and the
      internal PUT the PATCH is refused exactly when the resource is a whole second or more later. */
  lemma DateRefusesExactly(lib: Library, request: PatchRequest, response: Response, modified: string)
    requires 200 <= response.FinalStatus() < 300 && Carries(response.header, "Last-Modified", modified)
    requires Blank(request.ifMatch) && !Blank(request.ifUnmodifiedSince)
    ensures Prepare(lib, request, response) == Reply(412)
            <==> var m, s := lib.parseTime(modified), lib.parseTime(Trim(request.ifUnmodifiedSince));
                 m.Some? && s.Some? && m.value >= (s.value / 1_000_000_000 + 1) * 1_000_000_000
  {
    DateDecides(lib.parseTime, request.ifMatch, request.ifUnmodifiedSince,
                State(Get(response.header, "ETag"), lib.parseTime(modified)), Config(false));
  }

  /** Without a Last-Modified the date condition says nothing. */
  lemma NoDateNoRefusal(lib: Library, request: PatchRequest, response: Response)
    requires 200 <= response.FinalStatus() < 300 && CarriesNone(response.header, "Last-Modified")
    requires Blank(request.ifMatch)
    ensures Prepare(lib, request, response) != Reply(412)
  {
    TrimBlank(request.ifMatch);
  }

  /** With a list of tags in If-Match only the tag of the GET's answer counts: it has to be strong and
      named in the list. */
  lemma TagRefusesExactly(lib: Library, request: PatchRequest, response: Response, tags: seq<string>, tag: string)
    requires 200 <= response.FinalStatus() < 300
    requires if tag == "" then CarriesNone(response.header, "ETag") else Carries(response.header, "ETag", tag)
    requires forall t | t in tags :: Listable(t)
    requires Trim(Join(tags, ", ")) != "" && Trim(Join(tags, ", ")) != "*" && request.ifMatch == Join(tags, ", ")
    ensures Prepare(lib, request, response) == Reply(412) <==> tag == "" || HasPrefix(tag, WEAK) || tag !in tags
  {
    IfMatchDecides(lib.parseTime, tags, request.ifUnmodifiedSince,
                   State(Get(response.header, "ETag"),
                         ParseLastModified(lib.parseTime, Get(response.header, "Last-Modified"))), Config(false));
  }

  /** An answer to the internal GET that is no success is passed on. After a success that is not refused
      the document decides: the PATCH is answered 415 or 400, or its result is sent on to the PUT. */
  lemma PreparedExactly(lib: Library, request: PatchRequest, response: Response)
    ensures !(200 <= response.FinalStatus() < 300) ==> Prepare(lib, request, response) == Reply(response.FinalStatus())
    ensures 200 <= response.FinalStatus() < 300 && Prepare(lib, request, response) != Reply(412) ==>
              if request.document.Unreadable? then Prepare(lib, request, response) == Reply(400)
              else match lib.apply(request.document, response.body)
                   case Unsupported => Prepare(lib, request, response) == Reply(415)
                   case Inapplicable => Prepare(lib, request, response) == Reply(400)
                   case Merged(body) =>
                     && Prepare(lib, request, response).Replay?
                     && Prepare(lib, request, response).put.id == request.id
                     && Prepare(lib, request, response).put.body == body
  {}

  /** The replayed PUT is conditional on what the GET's answer says of itself: its tag and its date, each
      in place of the client's own condition when the answer carries one. */
  lemma ReplayCarries(lib: Library, request: PatchRequest, response: Response)
    requires Prepare(lib, request, response).Replay?
    ensures var put := Prepare(lib, request, response).put;
            && (forall tag | Carries(response.header, "ETag", tag) :: put.ifMatch == tag)
            && (CarriesNone(response.header, "ETag") ==> put.ifMatch == request.ifMatch)
            && (forall date | Carries(response.header, "Last-Modified", date) :: put.ifUnmodifiedSince == date)
            && (CarriesNone(response.header, "Last-Modified") ==> put.ifUnmodifiedSince == request.ifUnmodifiedSince)
  {}

  /** What a PUT does to the store, for every store: 400 for a body that is no profile; a PUT without
      If-Match always takes effect, be the profile new or not; one with a list of tags takes effect
      exactly over a stored profile whose tag is in the list, one with "*" over any stored profile; and
      nothing else in the store changes. */
  lemma PutExactly(lib: Library, profiles: map<string, Profile>, put: PutRequest, tags: seq<string>)
    requires || Blank(put.ifMatch)
             || (put.ifMatch == Join(tags, ", ") && Trim(put.ifMatch) != "*" && forall t | t in tags :: Listable(t))
    ensures PutResult(lib, profiles, put)
            == match lib.decode(put.body)
               case None => (profiles, 400)
               case Some(profile) =>
                 if Blank(put.ifMatch) || (put.id in profiles && ProfileTag(lib, profiles[put.id]) in tags)
                 then (profiles[put.id := profile], 200) else (profiles, 412)
    ensures PutResult(lib, profiles, put.(ifMatch := "*"))
            == match lib.decode(put.body)
               case None => (profiles, 400)
               case Some(profile) => if put.id in profiles then (profiles[put.id := profile], 200) else (profiles, 412)
  {
    StarMeansExists(lib.parseTime, "", State(CurrentTag(lib, profiles, put.id), None), Config(false));
    if put.id in profiles { ComputedTagIsListable(lib.hash, lib.encode(profiles[put.id])); }
    TrimBlank(put.ifMatch);
    if !Blank(put.ifMatch) {
      IfMatchDecides(lib.parseTime, tags, "", State(CurrentTag(lib, profiles, put.id), None), Config(false));
    } else {
      RequiredExactly(lib.parseTime, Headers(put.ifMatch, ""), State(CurrentTag(lib, profiles, put.id), None),
                      Config(false));
    }
  }

  /** A tagged GET of an existing profile that is not cut short by If-None-Match. */
  lemma TaggedGet(lib: Library, profile: Profile, ifNoneMatch: string)
    ensures var r := GetResponse(lib, Some(profile), ifNoneMatch, "");
            && Get(r.header, "ETag") == ProfileTag(lib, profile) != ""
            && Get(r.header, "Last-Modified") == ""
            && (r.IsSuccess() ==> r.body == lib.encode(profile))
  {
    ComputedTagIsListable(lib.hash, lib.encode(profile));
    var plain := Untouched.WithStatus(OK).WithData(lib.encode(profile));
    assert plain.body == lib.encode(profile);
    assert Added(map[], plain.header) == map[];
  }

  /** The replayed PUT of a tagged PATCH is conditional on exactly the profile that was read. */
  lemma ReplayIsConditional(lib: Library, request: PatchRequest, base: Option<Profile>)
    requires request.range == ""
    requires Prepare(lib, request, GetResponse(lib, base, request.ifNoneMatch, "")).Replay?
    ensures var put := Prepare(lib, request, GetResponse(lib, base, request.ifNoneMatch, "")).put;
            && base.Some?
            && put.id == request.id
            && put.ifMatch == ProfileTag(lib, base.value)
            && Merge(lib, request.document, lib.encode(base.value)) == Merged(put.body)
            && (Trim(request.ifMatch) != "" ==> IfMatchMatches(Trim(request.ifMatch), ProfileTag(lib, base.value)))
  {
    if base.Some? { TaggedGet(lib, base.value, request.ifNoneMatch); }
  }

  /** A PUT that carries a computed tag commits exactly over a profile with that tag. */
  lemma ConditionalPut(lib: Library, profiles: map<string, Profile>, put: PutRequest, base: Profile)
    requires put.ifMatch == ProfileTag(lib, base)
    ensures PutResult(lib, profiles, put).1 == OK
            <==> && lib.decode(put.body).Some?
                 && put.id in profiles && ProfileTag(lib, profiles[put.id]) == ProfileTag(lib, base)
    ensures PutResult(lib, profiles, put).1 == PRECONDITION_FAILED
            <==> && lib.decode(put.body).Some?
                 && (put.id !in profiles || ProfileTag(lib, profiles[put.id]) != ProfileTag(lib, base))
  {
    ComputedTagIsListable(lib.hash, lib.encode(base));
    TrimIsTrimmed(put.ifMatch);
    SingleTag(put.ifMatch, CurrentTag(lib, profiles, put.id));
  }

  /** A tag names its profile but for a collision. */
  lemma TagNamesProfile(lib: Library, p: Profile, q: Profile)
    ensures ProfileTag(lib, p) == ProfileTag(lib, q) <==> p == q || Collide(lib, p, q)
  {
    TagsDistinguishHashes(lib.hash, lib.encode(p), lib.encode(q));
  }

  lemma TaggedGetAnswers(lib: Library, p: Profile, ifNoneMatch: string)
    ensures var response := GetResponse(lib, Some(p), ifNoneMatch, "");
            && response.IsSuccess() == !IfNoneMatchMatches(ifNoneMatch, ProfileTag(lib, p))
            && (!response.IsSuccess() ==> response.FinalStatus() == NOT_MODIFIED)
  {
    var plain := Untouched.WithStatus(OK).WithData(lib.encode(p));
    assert plain.body == lib.encode(p) && TagOf(lib.hash, plain) == ProfileTag(lib, p);
  }

  lemma PrepareTagged(lib: Library, r: PatchRequest, p: Profile)
    ensures Prepare(lib, r, GetResponse(lib, Some(p), r.ifNoneMatch, ""))
            == if IfNoneMatchMatches(r.ifNoneMatch, ProfileTag(lib, p)) then Reply(NOT_MODIFIED)
               else if Trim(r.ifMatch) != "" && !IfMatchMatches(Trim(r.ifMatch), ProfileTag(lib, p)) then
                 Reply(PRECONDITION_FAILED)
               else
                 match Merge(lib, r.document, lib.encode(p))
                 case Unsupported => Reply(UNSUPPORTED_MEDIA_TYPE)
                 case Inapplicable => Reply(BAD_REQUEST)
                 case Merged(body) => Replay(PutRequest(r.id, ProfileTag(lib, p), r.ifUnmodifiedSince, body))
  {
    TaggedGet(lib, p, r.ifNoneMatch);
    TaggedGetAnswers(lib, p, r.ifNoneMatch);
  }

  lemma UntaggedGet(lib: Library, r: PatchRequest, p: Profile)
    requires r.range != ""
    ensures var response := GetResponse(lib, Some(p), r.ifNoneMatch, r.range);
            && response.FinalStatus() == 200 && response.body == lib.encode(p) && response.header == map[]
  {
    assert [] + lib.encode(p) == lib.encode(p);
  }

  /** The same for a PATCH with a Range header, which the ETag middleware lets pass: no If-Match is ever
      satisfied, and without one the patched profile is stored whatever the store holds by then. */
  lemma AloneUntagged(lib: Library, profiles: map<string, Profile>, r: PatchRequest)
    requires r.range != ""
    ensures Alone(lib, profiles, r)
            == if r.id !in profiles then (profiles, 404)
               else if !Blank(r.ifMatch) then (profiles, 412)
               else if r.document.Unreadable? then (profiles, 400)
               else
                 match lib.apply(r.document, lib.encode(profiles[r.id]))
                 case Unsupported => (profiles, 415)
                 case Inapplicable => (profiles, 400)
                 case Merged(body) =>
                   match lib.decode(body)
                   case None => (profiles, 400)
                   case Some(q) => (profiles[r.id := q], 200)
  {
    TrimBlank(r.ifMatch);
    if r.id in profiles {
      UntaggedGet(lib, r, profiles[r.id]);
      var prepared := Prepare(lib, r, GetResponse(lib, Some(profiles[r.id]), r.ifNoneMatch, r.range));
      if prepared.Replay? { PutExactly(lib, profiles, prepared.put, []); }
    }
  }

  /** A PATCH with nobody else at the store, answer by answer. One that also carries an
      If-None-Match naming the current tag is answered 304 and does nothing. */
  lemma AloneAnswers(lib: Library, profiles: map<string, Profile>, r: PatchRequest)
    requires r.range == ""
    ensures Alone(lib, profiles, r)
            == if r.id !in profiles then (profiles, 404)
               else
                 var p := profiles[r.id];
                 if IfNoneMatchMatches(r.ifNoneMatch, ProfileTag(lib, p)) then (profiles, 304)
                 else if !Blank(r.ifMatch) && !IfMatchMatches(Trim(r.ifMatch), ProfileTag(lib, p)) then (profiles, 412)
                 else if r.document.Unreadable? then (profiles, 400)
                 else
                   match lib.apply(r.document, lib.encode(p))
                   case Unsupported => (profiles, 415)
                   case Inapplicable => (profiles, 400)
                   case Merged(body) =>
                     match lib.decode(body)
                     case None => (profiles, 400)
                     case Some(q) => (profiles[r.id := q], 200)
  {
    TrimBlank(r.ifMatch);
    if r.id in profiles {
      var p := profiles[r.id];
      PrepareTagged(lib, r, p);
      var prepared := Prepare(lib, r, GetResponse(lib, Some(p), r.ifNoneMatch, ""));
      if prepared.Replay? { ConditionalPut(lib, profiles, prepared.put, p); }
    }
  }
}
