/** Response writers: the buffered ones of the ETag middleware and of the derived PATCH, and the
    writer of net/http that they finally copy to. The first status wins, where net/http passes over
    the informational ones, and every byte is kept in order. */
module Responses {
  import opened Strings

  newtype byte = x: int | 0 <= x < 256
  type Bytes = seq<byte>

  /** http.Header: a name may carry several values. */
  type Header = map<string, seq<string>>

  function Values(h: Header, name: string): seq<string> {
    if name in h then h[name] else []
  }

  /** Header.Get: the first value, or the empty string. */
  function Get(h: Header, name: string): string {
    if Values(h, name) == [] then "" else h[name][0]
  }

  const OK := 200
  const MULTIPLE_CHOICES := 300
  const NOT_MODIFIED := 304
  const SWITCHING_PROTOCOLS := 101
  const NO_CONTENT := 204

  /** net/http sends such a status ahead and goes on waiting for a final one. */
  predicate Informational(code: int) {
    100 <= code < 200 && code != SWITCHING_PROTOCOLS
  }

  /** net/http drops the bytes written under any other status. */
  predicate BodyAllowed(code: int) {
    !(100 <= code < 200) && code != NO_CONTENT && code != NOT_MODIFIED
  }

  /** What becomes of a buffered status when it is sent with a body: net/http sends an informational
      one ahead, and then 200. */
  function Shown(code: int): int {
    if Informational(code) then OK else code
  }

  /** A buffering writer keeps everything; a serving one is net/http's own. */
  datatype Kind = Buffering | Serving

  /** What of the bytes a writer of this kind keeps under a status. */
  function Carried(kind: Kind, code: int, data: Bytes): Bytes {
    if kind.Buffering? || BodyAllowed(code) then data else []
  }

  /** What a writer holds. The headers of a serving one go out with its final status, and what is
      set afterwards stays behind. */
  datatype Response = Response(kind: Kind, header: Header, body: Bytes, status: int, wrote: bool, frozen: Header) {
    /** The status that net/http would send: 200 when the handler never chose one. */
    function FinalStatus(): int {
      if wrote then status else OK
    }

    /** The headers that go out. */
    function Sent(): Header {
      if kind.Serving? && wrote then frozen else header
    }

    predicate IsSuccess() {
      OK <= FinalStatus() < MULTIPLE_CHOICES
    }

    function WithStatus(code: int): Response {
      if wrote || (kind.Serving? && Informational(code)) then this
      else this.(status := code, wrote := true, frozen := if kind.Serving? then header else frozen)
    }

    function WithData(data: Bytes): Response {
      var r := WithStatus(OK);
      r.(body := body + Carried(kind, r.status, data))
    }
  }

  function Fresh(kind: Kind): Response {
    Response(kind, map[], [], 0, false, map[])
  }

  const Untouched := Fresh(Buffering)
  const Unsent := Fresh(Serving)

  // ------------------------------------------------------- what a handler does

  datatype Action = SetHeader(name: string, values: seq<string>) | WriteHeader(code: int) | Write(data: Bytes)

  function Perform(r: Response, action: Action): Response {
    match action
    case SetHeader(name, values) => r.(header := r.header[name := values])
    case WriteHeader(code) => r.WithStatus(code)
    case Write(data) => r.WithData(data)
  }

  function PerformAll(r: Response, actions: seq<Action>): Response {
    if actions == [] then r
    else Perform(PerformAll(r, actions[..|actions| - 1]), actions[|actions| - 1])
  }

  /** Does the action fix the status of such a writer? */
  predicate Settles(kind: Kind, action: Action) {
    action.Write? || (action.WriteHeader? && !(kind.Serving? && Informational(action.code)))
  }

  /** The status that the actions ask for, read from the front: the first one that counts, or 200
      for a body that comes first, or 200 for nothing at all. */
  function FirstStatus(kind: Kind, actions: seq<Action>): int {
    if actions == [] then OK
    else if !Settles(kind, actions[0]) then FirstStatus(kind, actions[1..])
    else if actions[0].Write? then OK
    else actions[0].code
  }

  /** All the bytes written, in order, read from the front. */
  function AllBytes(actions: seq<Action>): Bytes {
    if actions == [] then []
    else (if actions[0].Write? then actions[0].data else []) + AllBytes(actions[1..])
  }

  /** Have the actions fixed the status? */
  predicate Settled(kind: Kind, actions: seq<Action>) {
    exists a | a in actions :: Settles(kind, a)
  }

  lemma SettledCons(kind: Kind, actions: seq<Action>)
    requires actions != []
    ensures Settled(kind, actions) <==> Settles(kind, actions[0]) || Settled(kind, actions[1..])
  {
    assert forall a :: a in actions <==> a == actions[0] || a in actions[1..];
  }

  lemma SettledSnoc(kind: Kind, actions: seq<Action>, last: Action)
    ensures Settled(kind, actions + [last]) <==> Settled(kind, actions) || Settles(kind, last)
  {
    assert forall a :: a in actions + [last] <==> a in actions || a == last;
  }

  lemma {:induction false} FirstStatusSnoc(kind: Kind, actions: seq<Action>, last: Action)
    ensures FirstStatus(kind, actions + [last])
            == if Settled(kind, actions) then FirstStatus(kind, actions) else FirstStatus(kind, [last])
  {
    if actions != [] {
      assert (actions + [last])[1..] == actions[1..] + [last];
      FirstStatusSnoc(kind, actions[1..], last);
      SettledCons(kind, actions);
    } else {
      assert actions + [last] == [last];
    }
  }

  lemma {:induction false} AllBytesSnoc(actions: seq<Action>, last: Action)
    ensures AllBytes(actions + [last]) == AllBytes(actions) + if last.Write? then last.data else []
  {
    if actions != [] {
      assert (actions + [last])[1..] == actions[1..] + [last];
      AllBytesSnoc(actions[1..], last);
    } else {
      assert actions + [last] == [last];
    }
  }

  lemma {:induction false} UnsettledIsEmpty(kind: Kind, actions: seq<Action>)
    requires !Settled(kind, actions)
    ensures FirstStatus(kind, actions) == OK && AllBytes(actions) == []
  {
    if actions != [] {
      SettledCons(kind, actions);
      UnsettledIsEmpty(kind, actions[1..]);
    }
  }

  lemma {:induction false} StatusIsFirst(kind: Kind, actions: seq<Action>)
    ensures var r := PerformAll(Fresh(kind), actions);
            r.kind == kind && (r.wrote <==> Settled(kind, actions)) && r.FinalStatus() == FirstStatus(kind, actions)
  {
    if actions != [] {
      var n := |actions| - 1;
      StatusIsFirst(kind, actions[..n]);
      assert actions == actions[..n] + [actions[n]];
      SettledSnoc(kind, actions[..n], actions[n]);
      FirstStatusSnoc(kind, actions[..n], actions[n]);
      if !Settled(kind, actions[..n]) { UnsettledIsEmpty(kind, actions[..n]); }
    }
  }

  lemma {:induction false} BodyIsAllBytes(kind: Kind, actions: seq<Action>)
    ensures PerformAll(Fresh(kind), actions).body == Carried(kind, FirstStatus(kind, actions), AllBytes(actions))
  {
    if actions != [] {
      var n := |actions| - 1;
      BodyIsAllBytes(kind, actions[..n]);
      StatusIsFirst(kind, actions[..n]);
      StatusIsFirst(kind, actions);
      AllBytesSnoc(actions[..n], actions[n]);
      assert actions == actions[..n] + [actions[n]];
      if !Settled(kind, actions[..n]) { UnsettledIsEmpty(kind, actions[..n]); }
    }
  }

  /** After any actions a writer holds the first status that counts for its kind, and every byte
      in order unless that status carries none. */
  lemma WriterHoldsWholeOutput(kind: Kind, actions: seq<Action>)
    ensures var r := PerformAll(Fresh(kind), actions);
            && r.kind == kind
            && (r.wrote <==> Settled(kind, actions))
            && r.FinalStatus() == FirstStatus(kind, actions)
            && r.body == Carried(kind, FirstStatus(kind, actions), AllBytes(actions))
  {
    StatusIsFirst(kind, actions);
    BodyIsAllBytes(kind, actions);
  }

  /** Both kinds go by the same status unless the first one asked for is informational. */
  lemma {:induction false} KindsAgree(actions: seq<Action>)
    requires !Informational(FirstStatus(Buffering, actions))
    ensures FirstStatus(Serving, actions) == FirstStatus(Buffering, actions)
  {
    if actions != [] && actions[0].SetHeader? { KindsAgree(actions[1..]); }
  }

  // ---------------------------------------------------- headers with and without a buffer

  /** The last values that the actions give a header. */
  function LastSet(actions: seq<Action>, name: string): Option<seq<string>> {
    if actions == [] then None
    else
      var last := actions[|actions| - 1];
      if last.SetHeader? && last.name == name then Some(last.values) else LastSet(actions[..|actions| - 1], name)
  }

  function EarlyCount(actions: seq<Action>): (n: nat)
    ensures n <= |actions|
  {
    if actions == [] || Settles(Serving, actions[0]) then 0 else 1 + EarlyCount(actions[1..])
  }

  /** The actions before the first final status or byte, and everything from there on. */
  function Early(actions: seq<Action>): seq<Action> {
    actions[..EarlyCount(actions)]
  }

  function Late(actions: seq<Action>): seq<Action> {
    actions[EarlyCount(actions)..]
  }

  lemma {:induction false} EarlyCountSnoc(actions: seq<Action>, last: Action)
    ensures EarlyCount(actions + [last])
            == if Settled(Serving, actions) then EarlyCount(actions)
               else if Settles(Serving, last) then |actions| else |actions| + 1
    ensures !Settled(Serving, actions) ==> EarlyCount(actions) == |actions|
  {
    if actions == [] {
      assert actions + [last] == [last];
    } else {
      assert (actions + [last])[1..] == actions[1..] + [last];
      EarlyCountSnoc(actions[1..], last);
      SettledCons(Serving, actions);
    }
  }

  lemma EarlySnoc(actions: seq<Action>, last: Action)
    ensures Early(actions + [last])
            == if Settled(Serving, actions) then Early(actions)
               else if Settles(Serving, last) then actions else actions + [last]
    ensures !Settled(Serving, actions) ==> Early(actions) == actions
  {
    EarlyCountSnoc(actions, last);
  }

  lemma {:induction false} LastSetConcat(a: seq<Action>, b: seq<Action>, name: string)
    ensures LastSet(a + b, name) == if LastSet(b, name).Some? then LastSet(b, name) else LastSet(a, name)
  {
    if b == [] {
      assert a + b == a;
    } else {
      assert (a + b)[..|a + b| - 1] == a + b[..|b| - 1];
      LastSetConcat(a, b[..|b| - 1], name);
    }
  }

  lemma {:induction false} HeldHeader(kind: Kind, actions: seq<Action>, name: string)
    ensures Values(PerformAll(Fresh(kind), actions).header, name) == LastSet(actions, name).GetOr([])
  {
    if actions != [] { HeldHeader(kind, actions[..|actions| - 1], name); }
  }

  lemma FrozenNext(r: Response, action: Action)
    requires r.kind.Serving?
    ensures Perform(r, action).frozen == if !r.wrote && Settles(Serving, action) then r.header else r.frozen
  {}

  lemma {:induction false} FrozenHeader(actions: seq<Action>, name: string)
    requires Settled(Serving, actions)
    ensures Values(PerformAll(Unsent, actions).frozen, name) == LastSet(Early(actions), name).GetOr([])
  {
    var n := |actions| - 1;
    var front := actions[..n];
    assert actions == front + [actions[n]];
    SettledSnoc(Serving, front, actions[n]);
    EarlySnoc(front, actions[n]);
    StatusIsFirst(Serving, front);
    FrozenNext(PerformAll(Unsent, front), actions[n]);
    if Settled(Serving, front) { FrozenHeader(front, name); } else { HeldHeader(Serving, front, name); }
  }

  /** Buffered and direct writing send the same values under a name exactly when nothing sets it
      after the first final status or byte, or the last such setting repeats what was sent. */
  lemma HeaderAgreesExactly(actions: seq<Action>, name: string)
    ensures Values(PerformAll(Untouched, actions).header, name) == Values(PerformAll(Unsent, actions).Sent(), name)
            <==> var late := LastSet(Late(actions), name);
                 late.None? || late.value == LastSet(Early(actions), name).GetOr([])
  {
    var early, late := Early(actions), Late(actions);
    assert actions == early + late;
    LastSetConcat(early, late, name);
    HeldHeader(Buffering, actions, name);
    HeldHeader(Serving, actions, name);
    WriterHoldsWholeOutput(Serving, actions);
    if Settled(Serving, actions) {
      FrozenHeader(actions, name);
    } else if actions != [] {
      EarlySnoc(actions, actions[0]);
      assert late == [];
    }
  }

  // ------------------------------------------------------------------- the writer

  class ResponseWriter {
    const kind: Kind
    var header: Header
    var buffer: Bytes
    var statusCode: int
    var wroteHeader: bool
    var frozen: Header

    constructor (kind: Kind)
      ensures Value() == Fresh(kind)
    {
      this.kind := kind;
      header, buffer, statusCode, wroteHeader, frozen := map[], [], 0, false, map[];
    }

    function Value(): Response
      reads this
    {
      Response(kind, header, buffer, statusCode, wroteHeader, frozen)
    }

    method WriteHeader(code: int)
      modifies this`statusCode, this`wroteHeader, this`frozen
      ensures Value() == old(Value()).WithStatus(code)
    {
      if wroteHeader || (kind.Serving? && Informational(code)) {
        return;
      }
      wroteHeader := true;
      statusCode := code;
      if kind.Serving? {
        frozen := header;
      }
    }

    method Write(data: Bytes)
      modifies this`buffer, this`statusCode, this`wroteHeader, this`frozen
      ensures Value() == old(Value()).WithData(data)
    {
      if !wroteHeader {
        WriteHeader(OK);
      }
      if kind.Buffering? || BodyAllowed(statusCode) {
        buffer := buffer + data;
      }
    }

    method AddValues(name: string, values: seq<string>)
      modifies this`header
      ensures header == Appended(old(header), name, values)
    {
      var i := 0;
      while i < |values|
        invariant 0 <= i <= |values|
        invariant header == Appended(old(header), name, values[..i])
      {
        assert values[..i + 1] == values[..i] + [values[i]];
        assert Values(header, name) + [values[i]] == Values(old(header), name) + values[..i + 1];
        header := header[name := Values(header, name) + [values[i]]];
        i := i + 1;
      }
      assert values[..i] == values;
    }

    /** The header loop of copyHeader and of copyTo. Go visits the names in any order. */
    method AddAll(source: Header)
      modifies this`header
      ensures header == Added(old(header), source)
    {
      var pending := source.Keys;
      AddedNothing(header);
      assert source - pending == map[];
      while pending != {}
        invariant pending <= source.Keys
        invariant header == Added(old(header), source - pending)
        decreases |pending|
      {
        var name :| name in pending;
        OneLessPending(source, pending, name);
        AddedOne(old(header), source - pending, name, source[name]);
        AddValues(name, source[name]);
        pending := pending - {name};
      }
      assert source - {} == source;
    }

    /** copyTo: replays a buffered response onto its destination verbatim. */
    method CopyTo(destination: ResponseWriter)
      requires destination != this
      modifies destination
      ensures destination.Value() == Copied(old(destination.Value()), Value())
    {
      destination.AddAll(header);
      destination.WriteHeader(if wroteHeader then statusCode else OK);
      destination.Write(buffer);
    }
  }

  /** Every value of the source appended to what the destination already has under its name. */
  function Added(destination: Header, source: Header): (h: Header)
    ensures forall name :: Values(h, name) == Values(destination, name) + Values(source, name)
  {
    map name | name in destination.Keys + source.Keys && (name in destination || source[name] != []) ::
      Values(destination, name) + Values(source, name)
  }

  /** Header.Add, once for each value. */
  function Appended(h: Header, name: string, values: seq<string>): Header {
    if values == [] then h else h[name := Values(h, name) + values]
  }

  /** Headers are the same when they have the same names with the same values. */
  lemma SameHeader(a: Header, b: Header)
    requires a.Keys == b.Keys && forall name :: Values(a, name) == Values(b, name)
    ensures a == b
  {
    forall name | name in a ensures a[name] == b[name] {
      assert Values(a, name) == Values(b, name);
    }
  }

  lemma AppendedAdds(h: Header, name: string, values: seq<string>)
    ensures forall n :: Values(Appended(h, name, values), n) == Values(h, n) + if n == name then values else []
  {}

  lemma AddedKeys(h: Header, source: Header, name: string)
    ensures name in Added(h, source) <==> name in h || Values(source, name) != []
  {}

  lemma AddedOne(h: Header, source: Header, name: string, values: seq<string>)
    requires name !in source
    ensures Appended(Added(h, source), name, values) == Added(h, source[name := values])
  {
    var left, right := Appended(Added(h, source), name, values), Added(h, source[name := values]);
    AppendedAdds(Added(h, source), name, values);
    forall n ensures Values(left, n) == Values(right, n) && (n in left <==> n in right) {
      AddedKeys(h, source, n);
      AddedKeys(h, source[name := values], n);
      assert Values(h, n) + [] == Values(h, n);
    }
    SameHeader(left, right);
  }

  lemma OneLessPending(source: Header, pending: set<string>, name: string)
    requires name in pending && pending <= source.Keys
    ensures name !in source - pending && source - (pending - {name}) == (source - pending)[name := source[name]]
  {}

  lemma AddedNothing(h: Header)
    ensures Added(h, map[]) == h
  {
    forall name | name in h ensures Added(h, map[])[name] == h[name] {
      assert Values(Added(h, map[]), name) == Values(h, name) + [];
    }
  }

  function Copied(destination: Response, source: Response): Response {
    destination.(header := Added(destination.header, source.header))
      .WithStatus(source.FinalStatus()).WithData(source.body)
  }
}
