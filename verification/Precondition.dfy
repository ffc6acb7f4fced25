/** Write preconditions: If-Match and If-Unmodified-Since against a resource's current state
    (sections 13.1.1 and 13.1.4 of RFC 9110). */
module Precondition {
  import opened Strings
  import opened EntityTags

  /** Nanoseconds in a second: HTTP dates are whole seconds, stored times are not. */
  const SECOND := 1_000_000_000

  /** http.ParseTime, in nanoseconds; None for an unparseable date. */
  type ParseTime = string -> Option<int>

  datatype Headers = Headers(ifMatch: string, ifUnmodifiedSince: string)

  /** No last-modified time means "not tracked". */
  datatype State = State(etag: string, lastModified: Option<int>)

  datatype Config = Config(require: bool)

  /** Proceed is the nil problem; the others answer 428 and 412. */
  datatype Verdict = Proceed | PreconditionRequired | PreconditionFailed

  predicate UnmodifiedSince(parse: ParseTime, header: string, lastModified: Option<int>) {
    if lastModified.None? then true
    else
      match parse(header)
      case None => true
      case Some(since) => lastModified.value - lastModified.value % SECOND <= since
  }

  function Check(parse: ParseTime, client: Headers, current: State, config: Config): Verdict {
    var ifMatch := Trim(client.ifMatch);
    var ifUnmodifiedSince := Trim(client.ifUnmodifiedSince);
    if ifMatch == "" && ifUnmodifiedSince == "" then
      if config.require then PreconditionRequired else Proceed
    else if ifMatch != "" then
      if IfMatchMatches(ifMatch, current.etag) then Proceed else PreconditionFailed
    else if UnmodifiedSince(parse, ifUnmodifiedSince, current.lastModified) then Proceed
    else PreconditionFailed
  }

  /** 428 is the answer exactly when a condition is required and neither header says anything;
      a request without any is otherwise let through, whatever the resource is. */
  lemma RequiredExactly(parse: ParseTime, client: Headers, current: State, config: Config)
    ensures var silent := Blank(client.ifMatch) && Blank(client.ifUnmodifiedSince);
            && (Check(parse, client, current, config) == PreconditionRequired <==> config.require && silent)
            && (silent && !config.require ==> Check(parse, client, current, config) == Proceed)
  {
    TrimBlank(client.ifMatch);
    TrimBlank(client.ifUnmodifiedSince);
  }

  /** With a list of tags in If-Match nothing else the client or the resource says matters:
      the write proceeds exactly over a current tag that is strong and named in the list. */
  lemma IfMatchDecides(parse: ParseTime, tags: seq<string>, date: string, current: State, config: Config)
    requires forall t | t in tags :: Listable(t)
    requires Trim(Join(tags, ", ")) != "" && Trim(Join(tags, ", ")) != "*"
    ensures Check(parse, Headers(Join(tags, ", "), date), current, config)
            == if current.etag != "" && !HasPrefix(current.etag, WEAK) && current.etag in tags
               then Proceed else PreconditionFailed
  {
    var printed := Join(tags, ", ");
    assert tags != [];
    ListSplits(tags);
    SplitTrim(printed, ',');
    var parts := Split(Trim(printed), ',');
    assert TrimAll(parts) == tags;
    assert forall i | 0 <= i < |parts| :: Trim(parts[i]) == tags[i];
  }

  /** A resource without a tag satisfies no If-Match, "*" included; one with any tag satisfies "*". */
  lemma StarMeansExists(parse: ParseTime, date: string, current: State, config: Config)
    ensures Check(parse, Headers("*", date), current,
                config) == if current.etag != "" then Proceed else PreconditionFailed
  {
    TrimIsTrimmed("*");
  }

  /** Only If-Unmodified-Since: refused exactly when both dates are known and the resource,
      cut to whole seconds, is later; a write within the named second goes through. */
  lemma DateDecides(parse: ParseTime, blank: string, date: string, current: State, config: Config)
    requires Blank(blank) && !Blank(date)
    ensures Check(parse, Headers(blank, date), current, config) == PreconditionFailed
            <==> && current.lastModified.Some? && parse(Trim(date)).Some?
                 && current.lastModified.value >= (parse(Trim(date)).value / 1_000_000_000 + 1) * 1_000_000_000
    ensures Check(parse, Headers(blank, date), current, config) != PreconditionRequired
  {
    TrimBlank(blank);
    TrimBlank(date);
    if current.lastModified.Some? && parse(Trim(date)).Some? {
      var modified, since := current.lastModified.value, parse(Trim(date)).value;
      assert modified == modified / SECOND * SECOND + modified % SECOND;
    }
  }
}
