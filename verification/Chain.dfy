/** The recommended middleware chain as an ordering problem: fourteen anchors, a built-in at each
    when it is enabled, and custom entries before or after them. */
module Chain {

  type Anchor = string

  /** In chain order. */
  const ANCHORS: seq<Anchor> := [
    "recover", "timeout", "strip_slashes", "redirect_slashes", "real_ip", "request_id", "secure_headers",
    "rate_limit", "throttle", "etag", "compress", "cors", "service_desc", "logging"]

  datatype Middleware = BuiltIn(anchor: Anchor) | Custom(id: nat)

  /** An absent Before or After is "". */
  datatype Extra = Extra(middleware: Middleware, before: Anchor, after: Anchor) {
    function Anchor(): Anchor {
      if before != "" then before else after
    }
  }

  /** A field is true when the Go field is true, non-nil or non-empty. */
  datatype Config = Config(
    recover: bool, timeout: int, stripSlashes: bool, redirectSlashes: bool, realIP: bool, requestID: bool,
    secureHeaders: bool, rateLimit: bool, throttle: bool, etag: bool, compress: bool, cors: bool,
    serviceDescPath: string, logger: bool, extra: seq<Extra>)

  /** Whether the built-in of an anchor is switched on. */
  predicate Enabled(c: Config, anchor: nat) {
    match anchor
    case 0 => c.recover
    case 1 => c.timeout > 0
    case 2 => c.stripSlashes
    case 3 => c.redirectSlashes
    case 4 => c.realIP
    case 5 => c.requestID
    case 6 => c.secureHeaders
    case 7 => c.rateLimit
    case 8 => c.throttle
    case 9 => c.etag
    case 10 => c.compress
    case 11 => c.cors
    case 12 => c.serviceDescPath != ""
    case 13 => c.logger
    case _ => false
  }

  predicate ValidExtra(e: Extra) {
    (e.before == "") != (e.after == "") && e.Anchor() in ANCHORS
  }

  predicate Valid(c: Config) {
    !(c.stripSlashes && c.redirectSlashes) && forall i | 0 <= i < |c.extra| :: ValidExtra(c.extra[i])
  }

  // ------------------------------------------------------------ where everything goes

  datatype Phase = Before | Itself | After

  /** A place in the chain: at an anchor, before it, at it or after it, for an index of Extra. */
  datatype Place = Place(anchor: nat, phase: Phase, index: nat)

  function PhaseRank(p: Phase): nat {
    match p case Before => 0 case Itself => 1 case After => 2
  }

  predicate Precedes(p: Place, q: Place) {
    || p.anchor < q.anchor
    || (p.anchor == q.anchor && PhaseRank(p.phase) < PhaseRank(q.phase))
    || (p.anchor == q.anchor && p.phase == q.phase && p.index < q.index)
  }

  /** The places that a configuration asks for. */
  predicate Asked(c: Config, p: Place) {
    && p.anchor < |ANCHORS|
    && match p.phase
       case Itself => Enabled(c, p.anchor) && p.index == 0
       case Before => p.index < |c.extra| && c.extra[p.index].before == ANCHORS[p.anchor]
       case After => p.index < |c.extra| && c.extra[p.index].after == ANCHORS[p.anchor]
  }

  function At(c: Config, p: Place): Middleware
    requires Asked(c, p)
  {
    if p.phase.Itself? then BuiltIn(ANCHORS[p.anchor]) else c.extra[p.index].middleware
  }

  /** In order, each once. */
  ghost predicate Ordered(places: seq<Place>) {
    forall i, j | 0 <= i < j < |places| :: Precedes(places[i], places[j])
  }

  /** `places` are all the places asked for whose anchor is below `until`, each once and in order. */
  ghost predicate Arranged(c: Config, places: seq<Place>, until: nat) {
    && (forall p | p in places :: Asked(c, p) && p.anchor < until)
    && (forall p :: Asked(c, p) && p.anchor < until ==> p in places)
    && Ordered(places)
  }

  /** The chain puts at each place what the configuration asks for there. */
  ghost predicate Realizes(c: Config, chain: seq<Middleware>, places: seq<Place>) {
    && |chain| == |places|
    && forall i | 0 <= i < |places| :: Asked(c, places[i]) && chain[i] == At(c, places[i])
  }

  // ------------------------------------------------------------------------- the code

  function Side(e: Extra, phase: Phase): Anchor {
    if phase.Before? then e.before else e.after
  }

  /** The first entries of Extra that name this anchor on this side, in their own order. */
  function Attached(extra: seq<Extra>, anchor: Anchor, phase: Phase, until: nat): seq<Middleware>
    requires until <= |extra|
  {
    if until == 0 then []
    else
      Attached(extra, anchor, phase, until - 1)
      + if Side(extra[until - 1], phase) == anchor then [extra[until - 1].middleware] else []
  }

  function Stage(anchor: Anchor, enabled: bool, extra: seq<Extra>): seq<Middleware> {
    Attached(extra, anchor, Before, |extra|)
    + (if enabled then [BuiltIn(anchor)] else [])
    + Attached(extra, anchor, After, |extra|)
  }

  function Stages(c: Config, until: nat): seq<Middleware>
    requires until <= |ANCHORS|
  {
    if until == 0 then []
    else Stages(c, until - 1) + Stage(ANCHORS[until - 1], Enabled(c, until - 1), c.extra)
  }

  method AppendStage(before: seq<Middleware>, anchor: Anchor, enabled: bool, extra: seq<Extra>)
    returns (chain: seq<Middleware>)
    ensures chain == before + Stage(anchor, enabled, extra)
  {
    chain := before;
    for i := 0 to |extra|
      invariant chain == before + Attached(extra, anchor, Before, i)
    {
      if extra[i].before == anchor {
        chain := chain + [extra[i].middleware];
      }
    }
    if enabled {
      chain := chain + [BuiltIn(anchor)];
    }
    ghost var half := chain;
    for i := 0 to |extra|
      invariant chain == half + Attached(extra, anchor, After, i)
    {
      if extra[i].after == anchor {
        chain := chain + [extra[i].middleware];
      }
    }
  }

  /** False where the code panics. */
  method ValidateExtraMiddleware(extra: Extra) returns (ok: bool)
    ensures ok == ValidExtra(extra)
  {
    if extra.before == "" && extra.after == "" {
      return false;
    }
    if extra.before != "" && extra.after != "" {
      return false;
    }
    return extra.Anchor() in ANCHORS;
  }

  datatype Built = Panicked | Built(chain: seq<Middleware>)

  /** The next call of AppendStage for a configuration. */
  method NextStage(c: Config, before: seq<Middleware>, k: nat, enabled: bool) returns (chain: seq<Middleware>)
    requires k < |ANCHORS| && enabled == Enabled(c, k) && before == Stages(c, k)
    ensures chain == Stages(c, k + 1)
  {
    chain := AppendStage(before, ANCHORS[k], enabled, c.extra);
  }

  method BuildChain(c: Config) returns (result: Built)
    ensures result == if Valid(c) then Built(Stages(c, |ANCHORS|)) else Panicked
  {
    if c.stripSlashes && c.redirectSlashes {
      return Panicked;
    }
    for i := 0 to |c.extra|
      invariant forall k | 0 <= k < i :: ValidExtra(c.extra[k])
    {
      var ok := ValidateExtraMiddleware(c.extra[i]);
      if !ok {
        return Panicked;
      }
    }
    var chain := [];
    chain := NextStage(c, chain, 0, c.recover);
    chain := NextStage(c, chain, 1, c.timeout > 0);
    chain := NextStage(c, chain, 2, c.stripSlashes);
    chain := NextStage(c, chain, 3, c.redirectSlashes);
    chain := NextStage(c, chain, 4, c.realIP);
    chain := NextStage(c, chain, 5, c.requestID);
    chain := NextStage(c, chain, 6, c.secureHeaders);
    chain := NextStage(c, chain, 7, c.rateLimit);
    chain := NextStage(c, chain, 8, c.throttle);
    chain := NextStage(c, chain, 9, c.etag);
    chain := NextStage(c, chain, 10, c.compress);
    chain := NextStage(c, chain, 11, c.cors);
    chain := NextStage(c, chain, 12, c.serviceDescPath != "");
    chain := NextStage(c, chain, 13, c.logger);
    result := Built(chain);
  }

  // ------------------------------------------------------------------- name by name

  /** The built-ins by name in chain order, each with what switches it on. */
  function Switches(c: Config): (r: seq<(Anchor, bool)>)
    ensures |r| == 14
  {
    [("recover", c.recover), ("timeout", c.timeout > 0), ("strip_slashes", c.stripSlashes),
     ("redirect_slashes", c.redirectSlashes), ("real_ip", c.realIP), ("request_id", c.requestID),
     ("secure_headers", c.secureHeaders), ("rate_limit", c.rateLimit), ("throttle", c.throttle), ("etag", c.etag),
     ("compress", c.compress), ("cors", c.cors), ("service_desc", c.serviceDescPath != ""), ("logging", c.logger)]
  }

  /** The names of the built-ins that are on. */
  function SwitchedOn(switches: seq<(Anchor, bool)>): seq<Middleware> {
    if switches == [] then []
    else
      var last := |switches| - 1;
      SwitchedOn(switches[..last]) + if switches[last].1 then [BuiltIn(switches[last].0)] else []
  }

  lemma SwitchAt(c: Config, k: nat)
    requires k < 14
    ensures |ANCHORS| == 14 && Switches(c)[k] == (ANCHORS[k], Enabled(c, k))
  {
    if k < 7 { FirstSwitches(c, k); } else { LastSwitches(c, k); }
  }

  lemma FirstSwitches(c: Config, k: nat)
    requires k < 7
    ensures |ANCHORS| == 14 && Switches(c)[k] == (ANCHORS[k], Enabled(c, k))
  {}

  lemma LastSwitches(c: Config, k: nat)
    requires 7 <= k < 14
    ensures |ANCHORS| == 14 && Switches(c)[k] == (ANCHORS[k], Enabled(c, k))
  {}

  /** Without entries of Extra the chain is the built-ins that are on, by name and in this order. */
  lemma ChainByName(c: Config)
    requires c.extra == []
    ensures Stages(c, |ANCHORS|) == SwitchedOn(Switches(c))
  {
    SwitchAt(c, 0);
    StagesByName(c, 14);
    assert Switches(c)[..14] == Switches(c);
  }

  lemma {:induction false} StagesByName(c: Config, until: nat)
    requires until <= 14 == |ANCHORS| && c.extra == []
    ensures Stages(c, until) == SwitchedOn(Switches(c)[..until])
  {
    if until > 0 {
      var last := until - 1;
      StagesByName(c, last);
      SwitchAt(c, last);
      assert Switches(c)[..until][..last] == Switches(c)[..last] && Switches(c)[..until][last] == Switches(c)[last];
      PlainStage(ANCHORS[last], Enabled(c, last));
    }
  }

  lemma PlainStage(anchor: Anchor, on: bool)
    ensures Stage(anchor, on, []) == if on then [BuiltIn(anchor)] else []
  {}

  /** With a single switch on, the chain is that built-in alone. */
  lemma OneSwitch(c: Config, k: nat)
    requires c.extra == [] && k < 14 && forall j | 0 <= j < 14 :: Switches(c)[j].1 <==> j == k
    ensures Stages(c, |ANCHORS|) == [BuiltIn(Switches(c)[k].0)]
  {
    ChainByName(c);
    OneOn(Switches(c), k);
  }

  lemma {:induction false} OneOn(switches: seq<(Anchor, bool)>, k: nat)
    requires forall j | 0 <= j < |switches| :: switches[j].1 <==> j == k
    ensures SwitchedOn(switches) == if k < |switches| then [BuiltIn(switches[k].0)] else []
  {
    if switches != [] { OneOn(switches[..|switches| - 1], k); }
  }

  predicate IsName(name: string) {
    name in {
      "recover", "timeout", "strip_slashes", "redirect_slashes", "real_ip", "request_id", "secure_headers",
      "rate_limit", "throttle", "etag", "compress", "cors", "service_desc", "logging"}
  }

  lemma NamesAreAnchors()
    ensures forall name :: IsName(name) <==> name in ANCHORS
    ensures !IsName("")
  {}

  /** A configuration is refused exactly when both slash middlewares are on, or some entry of Extra does
      not set exactly one of Before and After, or the one that it sets is none of the fourteen names. */
  lemma RefusedExactly(c: Config)
    ensures !Valid(c)
            <==> || (c.stripSlashes && c.redirectSlashes)
                 || exists e | e in c.extra ::
                      !((e.before == "" && IsName(e.after)) || (e.after == "" && IsName(e.before)))
  {
    NamesAreAnchors();
    forall e: Extra
      ensures ValidExtra(e) <==> ((e.before == "" && IsName(e.after)) || (e.after == "" && IsName(e.before)))
    {}
  }

  // ---------------------------------------------------------------- what that means

  lemma OrderedConcat(a: seq<Place>, b: seq<Place>)
    requires Ordered(a) && Ordered(b) && forall p, q | p in a && q in b :: Precedes(p, q)
    ensures Ordered(a + b)
  {}

  /** The places before or after an anchor, for the first entries of Extra. */
  function Scan(c: Config, anchor: nat, phase: Phase, until: nat): seq<Place> {
    if until == 0 then []
    else
      var p := Place(anchor, phase, until - 1);
      Scan(c, anchor, phase, until - 1) + if Asked(c, p) then [p] else []
  }

  function Own(c: Config, anchor: nat): seq<Place> {
    if Asked(c, Place(anchor, Itself, 0)) then [Place(anchor, Itself, 0)] else []
  }

  function StagePlaces(c: Config, anchor: nat): seq<Place> {
    Scan(c, anchor, Before, |c.extra|) + Own(c, anchor) + Scan(c, anchor, After, |c.extra|)
  }

  function Places(c: Config, until: nat): seq<Place> {
    if until == 0 then [] else Places(c, until - 1) + StagePlaces(c, until - 1)
  }

  lemma RealizesConcat(c: Config, chain: seq<Middleware>, places: seq<Place>, more: seq<Middleware>,
                       morePlaces: seq<Place>)
    requires Realizes(c, chain, places) && Realizes(c, more, morePlaces)
    ensures Realizes(c, chain + more, places + morePlaces)
  {}

  lemma {:induction false} ScanRealizes(c: Config, anchor: nat, phase: Phase, until: nat)
    requires anchor < |ANCHORS| && until <= |c.extra| && !phase.Itself?
    ensures Realizes(c, Attached(c.extra, ANCHORS[anchor], phase, until), Scan(c, anchor, phase, until))
  {
    if until > 0 {
      ScanRealizes(c, anchor, phase, until - 1);
      var p := Place(anchor, phase, until - 1);
      if Asked(c, p) {
        RealizesConcat(c, Attached(c.extra, ANCHORS[anchor], phase, until - 1), Scan(c, anchor, phase, until - 1),
                       [At(c, p)], [p]);
      }
    }
  }

  lemma StageRealizes(c: Config, anchor: nat)
    requires anchor < |ANCHORS|
    ensures Realizes(c, Stage(ANCHORS[anchor], Enabled(c, anchor), c.extra), StagePlaces(c, anchor))
  {
    var n, a := |c.extra|, ANCHORS[anchor];
    var before, own := Attached(c.extra, a, Before, n), if Enabled(c, anchor) then [BuiltIn(a)] else [];
    ScanRealizes(c, anchor, Before, n);
    ScanRealizes(c, anchor, After, n);
    assert Realizes(c, own, Own(c, anchor));
    RealizesConcat(c, before, Scan(c, anchor, Before, n), own, Own(c, anchor));
    RealizesConcat(c, before + own, Scan(c, anchor, Before, n) + Own(c, anchor),
                   Attached(c.extra, a, After, n), Scan(c, anchor, After, n));
  }

  /** The places at one anchor and phase up to an index of Extra. */
  ghost predicate Scanned(c: Config, places: seq<Place>, anchor: nat, phase: Phase, until: nat) {
    && (forall p | p in places :: Asked(c, p) && p.anchor == anchor && p.phase == phase && p.index < until)
    && (forall p :: Asked(c, p) && p.anchor == anchor && p.phase == phase && p.index < until ==> p in places)
    && Ordered(places)
  }

  lemma {:induction false} ScanIsScanned(c: Config, anchor: nat, phase: Phase, until: nat)
    requires !phase.Itself?
    ensures Scanned(c, Scan(c, anchor, phase, until), anchor, phase, until)
  {
    if until > 0 {
      ScanIsScanned(c, anchor, phase, until - 1);
      var p := Place(anchor, phase, until - 1);
      var before, after := Scan(c, anchor, phase, until - 1), Scan(c, anchor, phase, until);
      OrderedConcat(before, if Asked(c, p) then [p] else []);
      forall q | Asked(c, q) && q.anchor == anchor && q.phase == phase && q.index < until ensures q in after {
        if q.index == until - 1 { assert q == p; } else { assert q in before; }
      }
    }
  }

  /** The places of one anchor, all of them and nothing else. */
  ghost predicate AtAnchor(c: Config, places: seq<Place>, anchor: nat) {
    && (forall p | p in places :: Asked(c, p) && p.anchor == anchor)
    && (forall p :: Asked(c, p) && p.anchor == anchor ==> p in places)
    && Ordered(places)
  }

  lemma StageIsAtAnchor(c: Config, anchor: nat)
    ensures AtAnchor(c, StagePlaces(c, anchor), anchor)
  {
    var first, own, last := Scan(c, anchor, Before, |c.extra|), Own(c, anchor), Scan(c, anchor, After, |c.extra|);
    ScanIsScanned(c, anchor, Before, |c.extra|);
    ScanIsScanned(c, anchor, After, |c.extra|);
    OrderedConcat(first, own);
    OrderedConcat(first + own, last);
    forall p | Asked(c, p) && p.anchor == anchor ensures p in first + own + last {
      match p.phase
      case Before => assert p in first;
      case Itself => assert p == Place(anchor, Itself, 0) && p in own;
      case After => assert p in last;
    }
  }

  lemma ArrangedNext(c: Config, places: seq<Place>, stage: seq<Place>, anchor: nat)
    requires Arranged(c, places, anchor) && AtAnchor(c, stage, anchor)
    ensures Arranged(c, places + stage, anchor + 1)
  {
    OrderedConcat(places, stage);
    forall p | Asked(c, p) && p.anchor < anchor + 1 ensures p in places + stage {
      if p.anchor == anchor { assert p in stage; } else { assert p in places; }
    }
  }

  lemma RealizesNext(c: Config, chain: seq<Middleware>, places: seq<Place>, k: nat)
    requires k < |ANCHORS| && Realizes(c, chain, places)
    ensures Realizes(c, chain + Stage(ANCHORS[k], Enabled(c, k), c.extra), places + StagePlaces(c, k))
  {
    StageRealizes(c, k);
    RealizesConcat(c, chain, places, Stage(ANCHORS[k], Enabled(c, k), c.extra), StagePlaces(c, k));
  }

  lemma OneMoreStage(c: Config, k: nat)
    requires k < |ANCHORS|
    ensures Stages(c, k + 1) == Stages(c, k) + Stage(ANCHORS[k], Enabled(c, k), c.extra)
    ensures Places(c, k + 1) == Places(c, k) + StagePlaces(c, k)
  {}

  lemma {:induction false} StagesRealize(c: Config, until: nat)
    requires until <= |ANCHORS|
    ensures Realizes(c, Stages(c, until), Places(c, until))
  {
    if until > 0 {
      var k := until - 1;
      StagesRealize(c, k);
      RealizesNext(c, Stages(c, k), Places(c, k), k);
      OneMoreStage(c, k);
    }
  }

  lemma {:induction false} PlacesArranged(c: Config, until: nat)
    ensures Arranged(c, Places(c, until), until)
  {
    if until > 0 {
      PlacesArranged(c, until - 1);
      StageIsAtAnchor(c, until - 1);
      ArrangedNext(c, Places(c, until - 1), StagePlaces(c, until - 1), until - 1);
    }
  }

  /** The chain is a stable ordering: it holds what the configuration asks for at all the places
      that it asks for, by anchor, then before, built-in, after, then index of Extra. */
  lemma ChainIsArranged(c: Config)
    ensures Realizes(c, Stages(c, |ANCHORS|), Places(c, |ANCHORS|))
    ensures Arranged(c, Places(c, |ANCHORS|), |ANCHORS|)
  {
    StagesRealize(c, |ANCHORS|);
    PlacesArranged(c, |ANCHORS|);
  }

  lemma AnchorsDiffer(i: nat, j: nat)
    requires i < j < |ANCHORS|
    ensures ANCHORS[i] != ANCHORS[j]
  {}

  ghost predicate HasExtra(places: seq<Place>, i: nat) {
    exists k :: 0 <= k < |places| && !places[k].phase.Itself? && places[k].index == i
  }

  lemma ExtraIsPlaced(c: Config, places: seq<Place>, i: nat)
    requires Valid(c) && Arranged(c, places, |ANCHORS|) && i < |c.extra|
    ensures HasExtra(places, i)
  {
    assert ValidExtra(c.extra[i]);
    var a :| 0 <= a < |ANCHORS| && ANCHORS[a] == c.extra[i].Anchor();
    var p := Place(a, if c.extra[i].before != "" then Before else After, i);
    assert Asked(c, p) && p in places;
  }

  lemma OnePlaceAnExtra(c: Config, p: Place, q: Place)
    requires Valid(c) && Asked(c, p) && Asked(c, q)
    requires !p.phase.Itself? && !q.phase.Itself? && p.index == q.index
    ensures p == q
  {
    assert ValidExtra(c.extra[p.index]);
    if p.anchor < q.anchor { AnchorsDiffer(p.anchor, q.anchor); }
    if q.anchor < p.anchor { AnchorsDiffer(q.anchor, p.anchor); }
  }

  /** Every entry of Extra stands in the chain exactly once, every enabled built-in exactly once,
      and nothing else does. */
  lemma EveryEntryOnce(c: Config, places: seq<Place>)
    requires Valid(c) && Arranged(c, places, |ANCHORS|)
    ensures forall i | 0 <= i < |c.extra| :: HasExtra(places, i)
    ensures forall k, m | 0 <= k < |places| && 0 <= m < |places| && !places[k].phase.Itself?
            && !places[m].phase.Itself? ::
              places[k].index == places[m].index ==> k == m
    ensures forall a | 0 <= a < |ANCHORS| ::
              Enabled(c, a) <==> exists k :: 0 <= k < |places| && places[k] == Place(a, Itself, 0)
    ensures forall k, m | 0 <= k < m < |places| :: places[k] != places[m]
  {
    forall i | 0 <= i < |c.extra| ensures HasExtra(places, i) { ExtraIsPlaced(c, places, i); }
    forall k, m | 0 <= k < m < |places| && !places[k].phase.Itself? && !places[m].phase.Itself?
      ensures places[k].index != places[m].index
    {
      assert Precedes(places[k], places[m]);
      if places[k].index == places[m].index { OnePlaceAnExtra(c, places[k], places[m]); }
    }
    forall a | 0 <= a < |ANCHORS| && Enabled(c, a)
      ensures exists k :: 0 <= k < |places| && places[k] == Place(a, Itself, 0)
    {
      assert Asked(c, Place(a, Itself, 0));
    }
    forall k, m | 0 <= k < m < |places| ensures places[k] != places[m] {
      assert Precedes(places[k], places[m]);
    }
  }

  lemma FirstIsIn(p: seq<Place>)
    ensures p != [] ==> p[0] in p
  {}

  /** There is only one such arrangement, so the configuration alone fixes the chain. */
  lemma {:induction false} ArrangementIsUnique(p: seq<Place>, q: seq<Place>)
    requires forall x :: x in p <==> x in q
    requires forall i, j | 0 <= i < j < |p| :: Precedes(p[i], p[j])
    requires forall i, j | 0 <= i < j < |q| :: Precedes(q[i], q[j])
    ensures p == q
  {
    FirstIsIn(p);
    FirstIsIn(q);
    if p != [] {
      var i :| 0 <= i < |q| && q[i] == p[0];
      var j :| 0 <= j < |p| && p[j] == q[0];
      assert p[0] == q[0];
      forall x ensures x in p[1..] <==> x in q[1..] {
        if x in p[1..] { assert x in p && Precedes(p[0], x); }
        if x in q[1..] { assert x in q && Precedes(q[0], x); }
      }
      ArrangementIsUnique(p[1..], q[1..]);
      assert p == [p[0]] + p[1..] && q == [q[0]] + q[1..];
    }
  }

  // ------------------------------------------------------------------ wrapping a handler

  /** The first middleware is the outermost. */
  function Wrapped<H>(handler: H, middlewares: seq<H -> H>): H {
    if middlewares == [] then handler else middlewares[0](Wrapped(handler, middlewares[1..]))
  }

  method Compose<H>(handler: H, middlewares: seq<H -> H>) returns (wrappedHandler: H)
    ensures wrappedHandler == Wrapped(handler, middlewares)
  {
    if |middlewares| == 0 {
      return handler;
    }
    wrappedHandler := handler;
    var i := |middlewares|;
    while i > 0
      invariant 0 <= i <= |middlewares|
      invariant wrappedHandler == Wrapped(handler, middlewares[i..])
    {
      i := i - 1;
      wrappedHandler := middlewares[i](wrappedHandler);
      assert middlewares[i..][1..] == middlewares[i + 1..];
    }
    assert middlewares[0..] == middlewares;
  }

  /** A middleware seen from outside: the request passes it, then the rest, then it again. */
  function Around(m: Middleware): seq<Middleware> -> seq<Middleware> {
    (inner: seq<Middleware>) => [m] + inner + [m]
  }

  function Reversed(chain: seq<Middleware>): seq<Middleware> {
    if chain == [] then [] else Reversed(chain[1..]) + [chain[0]]
  }

  function AroundAll(chain: seq<Middleware>): (r: seq<seq<Middleware> -> seq<Middleware>>)
    ensures |r| == |chain| && forall i | 0 <= i < |chain| :: r[i] == Around(chain[i])
  {
    seq(|chain|, i requires 0 <= i < |chain| => Around(chain[i]))
  }

  /** A request enters the middlewares in exactly slice order and leaves them in reverse. */
  lemma {:induction false} RunsInSliceOrder(core: seq<Middleware>, chain: seq<Middleware>)
    ensures Wrapped(core, AroundAll(chain)) == chain + core + Reversed(chain)
  {
    if chain != [] {
      assert AroundAll(chain)[1..] == AroundAll(chain[1..]);
      RunsInSliceOrder(core, chain[1..]);
      assert chain == [chain[0]] + chain[1..];
    }
  }
}
