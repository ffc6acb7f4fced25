/** The JSON text of a Problem: printing it member by member, and reading it back. */
module ProblemJson {
  import opened Strings
  import opened Problem
  import opened Json

  // ---------------------------------------------------------------------------- printing

  /** One of the six standard members: its value's JSON text, unless the value is zero. */
  datatype Property = Property(key: string, isZero: bool, raw: string)

  function Properties(codec: Codec, d: Details): (r: seq<Property>)
    ensures |r| == 6
  {
    [Property("type", d.typeUri == "", codec.text(d.typeUri)),
     Property("title", d.title == "", codec.text(d.title)),
     Property("status", d.status == 0, codec.number(d.status)),
     Property("detail", d.detail == "", codec.text(d.detail)),
     Property("instance", d.instanceUri == "", codec.text(d.instanceUri)),
     Property("errors", d.errors.None?, if d.errors.Some? then codec.errors(d.errors.value) else "null")]
  }

  function NonZero(properties: seq<Property>): seq<Member> {
    if properties == [] then []
    else
      var n := |properties| - 1;
      NonZero(properties[..n]) + if properties[n].isZero then [] else [(properties[n].key, properties[n].raw)]
  }

  /** The values under these keys are there and can be printed. */
  predicate Printable(codec: Codec, d: Details, keys: seq<string>) {
    forall i | 0 <= i < |keys| :: keys[i] in d.extensions && codec.value(d.extensions[keys[i]]).Some?
  }

  function Extended(codec: Codec, d: Details, keys: seq<string>): (r: seq<Member>)
    requires Printable(codec, d, keys)
    ensures |r| == |keys| && forall i | 0 <= i < |keys| :: r[i] == (keys[i], codec.value(d.extensions[keys[i]]).value)
  {
    seq(|keys|, i requires 0 <= i < |keys| => (keys[i], codec.value(d.extensions[keys[i]]).value))
  }

  function MembersOf(codec: Codec, d: Details, keys: seq<string>): seq<Member>
    requires Printable(codec, d, keys)
  {
    NonZero(Properties(codec, d)) + Extended(codec, d, keys)
  }

  lemma NonZeroNext(properties: seq<Property>, i: nat)
    requires i < |properties|
    ensures NonZero(properties[..i + 1])
            == if properties[i].isZero then NonZero(properties[..i])
               else NonZero(properties[..i]) + [(properties[i].key, properties[i].raw)]
  {
    assert properties[..i + 1][..i] == properties[..i];
  }

  /** The text written so far. */
  function Begun(codec: Codec, members: seq<Member>): string {
    "{" + Join(PrintMembers(codec, members), ",")
  }

  lemma {:induction false} JoinSnoc(parts: seq<string>, last: string, sep: string)
    ensures Join(parts + [last], sep) == if parts == [] then last else Join(parts, sep) + sep + last
  {
    if parts == [] {
      assert parts + [last] == [last];
    } else {
      assert (parts + [last])[1..] == parts[1..] + [last];
      JoinSnoc(parts[1..], last, sep);
      if |parts| > 1 {
        assert parts[0] + sep + (Join(parts[1..], sep) + sep + last)
            == (parts[0] + sep + Join(parts[1..], sep)) + sep + last;
      }
    }
  }

  lemma BegunSnoc(codec: Codec, members: seq<Member>, m: Member)
    ensures Begun(codec, members + [m])
            == Begun(codec, members) + (if members == [] then "" else ",") + codec.text(m.0) + ":" + m.1
  {
    assert PrintMembers(codec, members + [m]) == PrintMembers(codec, members) + [PrintMember(codec, m)];
    JoinSnoc(PrintMembers(codec, members), PrintMember(codec, m), ",");
  }

  /** Writes one member after those already written. */
  method WriteMember(codec: Codec, buffer: string, isFirst: bool, ghost written: seq<Member>, m: Member)
    returns (r: string)
    requires buffer == Begun(codec, written) && (isFirst <==> written == [])
    ensures r == Begun(codec, written + [m])
  {
    BegunSnoc(codec, written, m);
    r := buffer;
    if !isFirst {
      r := r + ",";
    }
    r := r + codec.text(m.0);
    r := r + ":";
    r := r + m.1;
  }

  /** The loop over the standard members. */
  method WriteStandard(codec: Codec, properties: seq<Property>) returns (buffer: string, isFirst: bool)
    ensures buffer == Begun(codec, NonZero(properties)) && (isFirst <==> NonZero(properties) == [])
  {
    buffer, isFirst := "{", true;
    assert PrintMembers(codec, []) == [];
    for i := 0 to |properties|
      invariant isFirst <==> NonZero(properties[..i]) == []
      invariant buffer == Begun(codec, NonZero(properties[..i]))
    {
      NonZeroNext(properties, i);
      if properties[i].isZero {
        continue;
      }
      buffer := WriteMember(codec, buffer, isFirst, NonZero(properties[..i]), (properties[i].key, properties[i].raw));
      isFirst := false;
    }
    assert properties[..|properties|] == properties;
  }

  /** The loop over the sorted extensions, up to the first value that cannot be printed. */
  method WriteExtensions(codec: Codec, begun: string, first: bool, d: Details, sorted: seq<string>)
    returns (ok: bool, buffer: string)
    requires Keys(sorted) <= d.extensions.Keys
    requires begun == Begun(codec, NonZero(Properties(codec, d))) && (first <==> NonZero(Properties(codec, d)) == [])
    ensures ok <==> Printable(codec, d, sorted)
    ensures ok ==> buffer == Begun(codec, MembersOf(codec, d, sorted))
  {
    buffer := begun;
    var isFirst := first;
    assert MembersOf(codec, d, sorted[..0]) == NonZero(Properties(codec, d));
    for i := 0 to |sorted|
      invariant Printable(codec, d, sorted[..i])
      invariant isFirst <==> MembersOf(codec, d, sorted[..i]) == []
      invariant buffer == Begun(codec, MembersOf(codec, d, sorted[..i]))
    {
      assert sorted[i] in Keys(sorted);
      var raw := codec.value(d.extensions[sorted[i]]);
      if raw.None? {
        return false, "";
      }
      MembersNext(codec, d, sorted, i);
      buffer := WriteMember(codec, buffer, isFirst, MembersOf(codec, d, sorted[..i]), (sorted[i], raw.value));
      isFirst := false;
    }
    assert sorted[..|sorted|] == sorted;
    ok := true;
  }

  lemma MembersNext(codec: Codec, d: Details, sorted: seq<string>, i: nat)
    requires i < |sorted| && Printable(codec, d, sorted[..i])
    requires sorted[i] in d.extensions && codec.value(d.extensions[sorted[i]]).Some?
    ensures Printable(codec, d, sorted[..i + 1])
    ensures MembersOf(codec, d, sorted[..i + 1])
            == MembersOf(codec, d, sorted[..i]) + [(sorted[i], codec.value(d.extensions[sorted[i]]).value)]
  {
    assert sorted[..i + 1] == sorted[..i] + [sorted[i]];
    assert Extended(codec, d, sorted[..i + 1])
        == Extended(codec, d, sorted[..i]) + [(sorted[i], codec.value(d.extensions[sorted[i]]).value)];
  }

  /** MarshalJSON: fails exactly when some extension cannot be printed. */
  method MarshalJSON(codec: Codec, problem: Problem, visited: seq<string>)
    returns (ok: bool, buffer: string, ghost keys: seq<string>)
    requires Keys(visited) == problem.Says().extensions.Keys
    requires forall i, j | 0 <= i < j < |visited| :: visited[i] != visited[j]
    ensures Ascending(keys) && Keys(keys) == problem.Says().extensions.Keys
    ensures ok <==> Printable(codec, problem.Says(), keys)
    ensures ok ==> buffer == PrintObject(codec, MembersOf(codec, problem.Says(), keys))
  {
    var d := problem.Says();
    var isFirst;
    buffer, isFirst := WriteStandard(codec, Properties(codec, d));
    var sorted := Sorted(visited);
    keys := sorted;
    ok, buffer := WriteExtensions(codec, buffer, isFirst, d, sorted);
    if ok {
      buffer := buffer + "}";
    }
  }

  // ----------------------------------------------------------------------------- reading

  const Blank := Details("", "", 0, "", "", None, map[])

  predicate IsTextField(key: string) {
    key == "type" || key == "title" || key == "detail" || key == "instance"
  }

  function WithText(d: Details, key: string, s: string): Details
    requires IsTextField(key)
  {
    if key == "type" then d.(typeUri := s)
    else if key == "title" then d.(title := s)
    else if key == "detail" then d.(detail := s)
    else d.(instanceUri := s)
  }

  /** unmarshalMember: one member assigned, or None when its text cannot be read. */
  function Assigned(codec: Codec, d: Details, key: string, raw: string): Option<Details> {
    if IsReservedField(key) && raw == NULL then Some(if key == "errors" then d.(errors := None) else d)
    else if IsTextField(key) then
      match codec.readText(raw)
      case None => None
      case Some(s) => Some(WithText(d, key, s))
    else if key == "status" then
      match codec.readNumber(raw)
      case None => None
      case Some(n) => Some(d.(status := n))
    else if key == "errors" then
      match codec.readErrors(raw)
      case None => None
      case Some(e) => Some(d.(errors := Some(e)))
    else
      match codec.readValue(raw)
      case None => None
      case Some(v) => Some(d.(extensions := d.extensions[key := v]))
  }

  predicate ReadableMember(codec: Codec, key: string, raw: string) {
    Assigned(codec, Blank, key, raw).Some?
  }

  predicate Readable(codec: Codec, members: map<string, string>) {
    forall k | k in members :: ReadableMember(codec, k, members[k])
  }

  /** A member that is there and not null. */
  predicate Has(members: map<string, string>, key: string) {
    key in members && members[key] != NULL
  }

  function TextAt(codec: Codec, members: map<string, string>, key: string): string {
    if Has(members, key) then codec.readText(members[key]).GetOr("") else ""
  }

  /** What an object's members say, whatever the order they are visited in. */
  function Read(codec: Codec, members: map<string, string>): Details {
    Details(TextAt(codec, members, "type"), TextAt(codec, members, "title"),
            if Has(members, "status") then codec.readNumber(members["status"]).GetOr(0) else 0,
            TextAt(codec, members, "detail"), TextAt(codec, members, "instance"),
            if Has(members, "errors") then codec.readErrors(members["errors"]) else None,
            ReadExtensions(codec, members))
  }

  function ReadExtensions(codec: Codec, members: map<string, string>): map<string, Value> {
    map k | k in members && !IsReservedField(k) :: codec.readValue(members[k]).GetOr(Null)
  }

  /** Reading one more member agrees with assigning it. */
  ghost predicate AssignsOneMore(codec: Codec, members: map<string, string>, key: string, raw: string) {
    && (ReadableMember(codec, key, raw) <==> Assigned(codec, Read(codec, members), key, raw).Some?)
    && (ReadableMember(codec, key, raw) ==>
          Assigned(codec, Read(codec, members), key, raw) == Some(Read(codec, members[key := raw])))
  }

  lemma SameExtensions(codec: Codec, members: map<string, string>, key: string, raw: string)
    requires IsReservedField(key)
    ensures ReadExtensions(codec, members[key := raw]) == ReadExtensions(codec, members)
  {}

  lemma ExtensionsGrow(codec: Codec, members: map<string, string>, key: string, raw: string)
    requires key !in members && !IsReservedField(key)
    ensures ReadExtensions(codec, members[key := raw])
            == ReadExtensions(codec, members)[key := codec.readValue(raw).GetOr(Null)]
  {}

  lemma NullAssigns(codec: Codec, members: map<string, string>, key: string)
    requires key !in members && IsReservedField(key)
    ensures AssignsOneMore(codec, members, key, NULL)
  {
    SameExtensions(codec, members, key, NULL);
  }

  lemma TextAssigns(codec: Codec, members: map<string, string>, key: string, raw: string)
    requires key !in members && IsTextField(key) && raw != NULL
    ensures AssignsOneMore(codec, members, key, raw)
  {
    SameExtensions(codec, members, key, raw);
  }

  lemma StandardAssigns(codec: Codec, members: map<string, string>, key: string, raw: string)
    requires key !in members && IsReservedField(key)
    ensures AssignsOneMore(codec, members, key, raw)
  {
    SameExtensions(codec, members, key, raw);
    if raw == NULL {
      NullAssigns(codec, members, key);
    } else if IsTextField(key) {
      TextAssigns(codec, members, key, raw);
    }
  }

  lemma ReadOneMore(codec: Codec, members: map<string, string>, key: string, raw: string)
    requires key !in members
    ensures AssignsOneMore(codec, members, key, raw)
  {
    if IsReservedField(key) {
      StandardAssigns(codec, members, key, raw);
    } else {
      ExtensionsGrow(codec, members, key, raw);
    }
  }

  method UnmarshalMember(codec: Codec, problem: Problem, key: string, raw: string) returns (ok: bool)
    modifies problem, problem.extensions
    ensures ok <==> Assigned(codec, old(problem.Says()), key, raw).Some?
    ensures ok ==> problem.Says() == Assigned(codec, old(problem.Says()), key, raw).value
    ensures problem.cause == old(problem.cause)
    ensures problem.errors == old(problem.errors) || problem.errors == null || fresh(problem.errors)
    ensures problem.extensions == old(problem.extensions) || (problem.extensions != null && fresh(problem.extensions))
  {
    if IsReservedField(key) && raw == NULL {
      if key == "errors" {
        problem.errors := null;
      }
    } else if IsTextField(key) {
      var s := codec.readText(raw);
      if s.None? {
        return false;
      }
      if key == "type" {
        problem.typeUri := s.value;
      } else if key == "title" {
        problem.title := s.value;
      } else if key == "detail" {
        problem.detail := s.value;
      } else {
        problem.instanceUri := s.value;
      }
    } else if key == "status" {
      var n := codec.readNumber(raw);
      if n.None? {
        return false;
      }
      problem.status := n.value;
    } else if key == "errors" {
      var e := codec.readErrors(raw);
      if e.None? {
        return false;
      }
      problem.errors := new ErrorList(e.value);
    } else {
      var v := codec.readValue(raw);
      if v.None? {
        return false;
      }
      if problem.extensions == null {
        problem.extensions := new ExtensionMap(map[]);
      }
      problem.extensions.members := problem.extensions.members[key := v.value];
    }
    ok := true;
  }

  /** One more member of an object whose members so far say what the problem says. */
  method UnmarshalUnseen(codec: Codec, problem: Problem, ghost seen: map<string, string>, key: string, raw: string)
    returns (ok: bool)
    requires key !in seen && problem.Says() == Read(codec, seen)
    modifies problem, problem.extensions
    ensures ok <==> ReadableMember(codec, key, raw)
    ensures ok ==> problem.Says() == Read(codec, seen[key := raw])
    ensures problem.cause == old(problem.cause)
    ensures problem.errors == old(problem.errors) || problem.errors == null || fresh(problem.errors)
    ensures problem.extensions == old(problem.extensions) || (problem.extensions != null && fresh(problem.extensions))
  {
    ReadOneMore(codec, seen, key, raw);
    ok := UnmarshalMember(codec, problem, key, raw);
  }

  method UnmarshalMembers(codec: Codec, problem: Problem, members: map<string, string>) returns (ok: bool)
    requires problem.Says() == Blank && problem.errors == null && problem.extensions == null
    modifies problem
    ensures ok <==> Readable(codec, members)
    ensures ok ==> problem.Says() == Read(codec, members)
    ensures problem.cause == old(problem.cause)
  {
    var pending := members.Keys;
    ghost var seen: map<string, string> := map[];
    NothingRead(codec);
    while pending != {}
      invariant pending <= members.Keys && seen.Keys == members.Keys - pending
      invariant forall k | k in seen :: seen[k] == members[k]
      invariant problem.cause == old(problem.cause)
      invariant (problem.errors == null || fresh(problem.errors))
                && (problem.extensions == null || fresh(problem.extensions))
      invariant problem.Says() == Read(codec, seen) && Readable(codec, seen)
      decreases |pending|
    {
      var key :| key in pending;
      ok := UnmarshalUnseen(codec, problem, seen, key, members[key]);
      if !ok {
        return;
      }
      seen := seen[key := members[key]];
      pending := pending - {key};
    }
    assert seen == members;
    ok := true;
  }

  lemma NothingRead(codec: Codec)
    ensures Read(codec, map[]) == Blank
  {
    assert ReadExtensions(codec, map[]) == map[];
  }

  /** UnmarshalJSON: succeeds exactly when the object and each of its members can be read, and then
      says what they say, in whatever order the loop visits them. */
  method UnmarshalJSON(codec: Codec, problem: Problem, data: string) returns (ok: bool)
    modifies problem
    ensures ok <==> ReadObject(codec, data).Some? && Readable(codec, ReadObject(codec, data).value)
    ensures ok ==> problem.Says() == Read(codec, ReadObject(codec, data).value) && problem.cause == None
  {
    var parsed := ReadObject(codec, data);
    if parsed.None? {
      return false;
    }
    problem.cause, problem.typeUri, problem.title, problem.status := None, "", "", 0;
    problem.detail, problem.instanceUri, problem.errors, problem.extensions := "", "", null, null;
    ok := UnmarshalMembers(codec, problem, parsed.value);
  }

  // ------------------------------------------------------------ what can be read, exactly

  /** An object is read exactly when each of the six standard members that it has, null set aside, has a
      text of its own kind, and every other member has a text that can be read at all. */
  lemma ReadableExactly(codec: Codec, members: map<string, string>)
    ensures Readable(codec, members)
            <==> && (forall k | k in members && k in {"type", "title", "detail", "instance"} ::
                       members[k] == "null" || codec.readText(members[k]).Some?)
                 && ("status" in members ==> members["status"] == "null" || codec.readNumber(members["status"]).Some?)
                 && ("errors" in members ==> members["errors"] == "null" || codec.readErrors(members["errors"]).Some?)
                 && forall k | k in members && k !in {"type", "title", "status", "detail", "instance", "errors"} ::
                      codec.readValue(members[k]).Some?
  {
    forall k | k in members
      ensures ReadableMember(codec, k, members[k])
              <==> if k in {"type", "title", "detail", "instance"} then
                     members[k] == "null" || codec.readText(members[k]).Some?
                   else if k == "status" then members[k] == "null" || codec.readNumber(members[k]).Some?
                   else if k == "errors" then members[k] == "null" || codec.readErrors(members[k]).Some?
                   else codec.readValue(members[k]).Some?
    {}
  }

  lemma NullReads(codec: Codec, key: string)
    requires key in {"type", "title", "status", "detail", "instance", "errors"}
    ensures ReadableMember(codec, key, "null")
  {}

  /** A standard member that is null says no more than one that is not there. */
  lemma NullIsAbsent(codec: Codec, members: map<string, string>, key: string)
    requires key in {"type", "title", "status", "detail", "instance", "errors"} && key !in members
    ensures Readable(codec, members[key := "null"]) <==> Readable(codec, members)
    ensures Read(codec, members[key := "null"]) == Read(codec, members)
  {
    SameExtensions(codec, members, key, "null");
    NullReads(codec, key);
    assert forall k | k in members :: members[key := "null"][k] == members[k];
  }

  // ---------------------------------------------------------------------- the round trip

  lemma {:induction false} NonZeroHas(properties: seq<Property>)
    ensures forall i | 0 <= i < |properties|
            && !properties[i].isZero :: (properties[i].key, properties[i].raw) in NonZero(properties)
    ensures forall m | m in NonZero(properties) ::
              exists i :: 0 <= i < |properties| && !properties[i].isZero && m == (properties[i].key, properties[i].raw)
  {
    if properties != [] {
      var n := |properties| - 1;
      NonZeroHas(properties[..n]);
      forall m | m in NonZero(properties)
        ensures exists i :: 0 <= i < |properties| && !properties[i].isZero
                            && m == (properties[i].key, properties[i].raw)
      {
        if m in NonZero(properties[..n]) {
          var i :| 0 <= i < n && !properties[..n][i].isZero && m == (properties[..n][i].key, properties[..n][i].raw);
          assert m == (properties[i].key, properties[i].raw);
        }
      }
    }
  }

  lemma {:induction false} NonZeroDistinct(properties: seq<Property>)
    requires forall i, j | 0 <= i < j < |properties| :: properties[i].key != properties[j].key
    ensures DistinctKeys(NonZero(properties))
  {
    if properties != [] {
      var n := |properties| - 1;
      NonZeroDistinct(properties[..n]);
      NonZeroHas(properties[..n]);
      forall i | 0 <= i < |NonZero(properties[..n])| ensures NonZero(properties[..n])[i].0 != properties[n].key {
        assert NonZero(properties[..n])[i] in NonZero(properties[..n]);
      }
    }
  }

  lemma PropertyNamesDiffer(codec: Codec, d: Details)
    ensures forall i, j | 0 <= i < j < 6 :: Properties(codec, d)[i].key != Properties(codec, d)[j].key
    ensures forall i | 0 <= i < 6 :: IsReservedField(Properties(codec, d)[i].key)
  {}

  /** The keys of a map in ascending order. */
  predicate KeysOf(d: Details, keys: seq<string>) {
    Ascending(keys) && Keys(keys) == d.extensions.Keys
  }

  /** The keys of the text are pairwise distinct: no extension shadows a standard member. */
  lemma KeysAreDistinct(codec: Codec, d: Details, keys: seq<string>)
    requires ValidDetails(d) && KeysOf(d, keys) && Printable(codec, d, keys)
    ensures DistinctKeys(MembersOf(codec, d, keys))
  {
    var standard, extended := NonZero(Properties(codec, d)), Extended(codec, d, keys);
    PropertyNamesDiffer(codec, d);
    NonZeroDistinct(Properties(codec, d));
    NonZeroHas(Properties(codec, d));
    forall i | 0 <= i < |standard| ensures IsReservedField(standard[i].0) {
      assert standard[i] in standard;
    }
    forall i | 0 <= i < |keys| ensures !IsReservedField(keys[i]) {
      assert keys[i] in Keys(keys);
    }
    forall i, j | 0 <= i < j < |keys| ensures keys[i] != keys[j] {
      LessIsStrict(keys[i], keys[j]);
    }
  }

  /** A standard member is in the text exactly when it is not zero, with its own raw value. */
  lemma StandardMember(codec: Codec, d: Details, keys: seq<string>, i: nat)
    requires ValidDetails(d) && KeysOf(d, keys) && Printable(codec, d, keys) && i < 6
    ensures var p, m := Properties(codec, d)[i], AsMap(MembersOf(codec, d, keys));
            if p.isZero then p.key !in m else p.key in m && m[p.key] == p.raw
  {
    var properties, members := Properties(codec, d), MembersOf(codec, d, keys);
    var p := properties[i];
    KeysAreDistinct(codec, d, keys);
    AsMapHas(members);
    NonZeroHas(properties);
    if p.isZero {
      PropertyNamesDiffer(codec, d);
      forall j | 0 <= j < 6 && !properties[j].isZero ensures properties[j].key != p.key {}
      forall k | 0 <= k < |keys| ensures keys[k] != p.key { assert keys[k] in Keys(keys); }
      assert forall m | m in members :: m.0 != p.key;
    } else {
      assert (p.key, p.raw) in members;
    }
  }

  /** The six standard members by name: each is in the text exactly when it is not zero, as the library
      prints it. */
  lemma StandardByName(codec: Codec, d: Details, keys: seq<string>)
    requires ValidDetails(d) && KeysOf(d, keys) && Printable(codec, d, keys)
    ensures var m := AsMap(MembersOf(codec, d, keys));
            && (if d.typeUri != "" then "type" in m && m["type"] == codec.text(d.typeUri) else "type" !in m)
            && (if d.title != "" then "title" in m && m["title"] == codec.text(d.title) else "title" !in m)
            && (if d.status != 0 then "status" in m && m["status"] == codec.number(d.status) else "status" !in m)
            && (if d.detail != "" then "detail" in m && m["detail"] == codec.text(d.detail) else "detail" !in m)
            && (if d.instanceUri != "" then "instance" in m && m["instance"] == codec.text(d.instanceUri)
                else "instance" !in m)
            && (if d.errors.Some? then "errors" in m && m["errors"] == codec.errors(d.errors.value)
                else "errors" !in m)
  {
    StandardMember(codec, d, keys, 0);
    StandardMember(codec, d, keys, 1);
    StandardMember(codec, d, keys, 2);
    StandardMember(codec, d, keys, 3);
    StandardMember(codec, d, keys, 4);
    StandardMember(codec, d, keys, 5);
  }

  /** An extension is in the text with its own raw value, and nothing else is. */
  lemma ExtensionMember(codec: Codec, d: Details, keys: seq<string>)
    requires ValidDetails(d) && KeysOf(d, keys) && Printable(codec, d, keys)
    ensures var m := AsMap(MembersOf(codec, d, keys));
            && (forall k | k in d.extensions :: k in m && codec.value(d.extensions[k]) == Some(m[k]))
            && (forall k | k in m && !IsReservedField(k) :: k in d.extensions)
  {
    var members, extended := MembersOf(codec, d, keys), Extended(codec, d, keys);
    KeysAreDistinct(codec, d, keys);
    AsMapHas(members);
    NonZeroHas(Properties(codec, d));
    PropertyNamesDiffer(codec, d);
    forall k | k in d.extensions
      ensures codec.value(d.extensions[k]).Some? && (k, codec.value(d.extensions[k]).value) in members
    {
      var i :| 0 <= i < |keys| && keys[i] == k;
      assert extended[i] in extended;
    }
    forall m | m in members && !IsReservedField(m.0) ensures m.0 in d.extensions {
      assert m in extended;
    }
  }

  // ------------------------------------------------------------ what the library must do

  /** The library reads back the standard members of this problem. */
  predicate ReadsStandard(codec: Codec, d: Details) {
    && (forall s | s in [d.typeUri, d.title, d.detail, d.instanceUri] && s != "" ::
          codec.text(s) != NULL && codec.readText(codec.text(s)) == Some(s))
    && (d.status != 0 ==>
          codec.number(d.status) != NULL && codec.readNumber(codec.number(d.status)) == Some(d.status))
    && (d.errors.Some? ==>
          codec.errors(d.errors.value) != NULL && codec.readErrors(codec.errors(d.errors.value)) == d.errors)
  }

  /** And the text of this problem as an object with the members that were printed. Nothing is said
      of the extensions' values. */
  ghost predicate Faithful(codec: Codec, d: Details) {
    && ReadsStandard(codec, d)
    && forall keys | KeysOf(d, keys) && Printable(codec, d, keys) ::
         var members := MembersOf(codec, d, keys);
         codec.readMembers(PrintObject(codec, members)) == Some(members)
  }

  /** Every extension can be printed, and its text read. */
  predicate Rereadable(codec: Codec, d: Details) {
    forall k | k in d.extensions ::
      codec.value(d.extensions[k]).Some? && codec.readValue(codec.value(d.extensions[k]).value).Some?
  }

  function Reread(codec: Codec, d: Details): Details
    requires Rereadable(codec, d)
  {
    d.(extensions := map k | k in d.extensions :: codec.readValue(codec.value(d.extensions[k]).value).value)
  }

  lemma TextReads(codec: Codec, d: Details, keys: seq<string>, i: nat, value: string)
    requires ReadsStandard(codec, d) && ValidDetails(d) && KeysOf(d, keys) && Printable(codec, d, keys)
    requires i < 6 && Properties(codec, d)[i].isZero == (value == "")
             && Properties(codec, d)[i].raw == codec.text(value)
    requires value in [d.typeUri, d.title, d.detail, d.instanceUri]
    ensures var m, key := AsMap(MembersOf(codec, d, keys)), Properties(codec, d)[i].key;
            TextAt(codec, m, key) == value && (key in m ==> codec.readText(m[key]).Some?)
  {
    StandardMember(codec, d, keys, i);
  }

  lemma StatusReads(codec: Codec, d: Details, keys: seq<string>)
    requires ReadsStandard(codec, d) && ValidDetails(d) && KeysOf(d, keys) && Printable(codec, d, keys)
    ensures var m := AsMap(MembersOf(codec, d, keys));
            if "status" in m then m["status"] != NULL && codec.readNumber(m["status"]) == Some(d.status)
                else d.status == 0
  {
    StandardMember(codec, d, keys, 2);
  }

  lemma ErrorsRead(codec: Codec, d: Details, keys: seq<string>)
    requires ReadsStandard(codec, d) && ValidDetails(d) && KeysOf(d, keys) && Printable(codec, d, keys)
    ensures var m := AsMap(MembersOf(codec, d, keys));
            if "errors" in m then m["errors"] != NULL && d.errors.Some? && codec.readErrors(m["errors"]) == d.errors
            else d.errors.None?
  {
    StandardMember(codec, d, keys, 5);
  }

  lemma TextsRead(codec: Codec, d: Details, keys: seq<string>)
    requires ReadsStandard(codec, d) && ValidDetails(d) && KeysOf(d, keys) && Printable(codec, d, keys)
    ensures var m := AsMap(MembersOf(codec, d, keys));
            && TextAt(codec, m, "type") == d.typeUri && TextAt(codec, m, "title") == d.title
            && TextAt(codec, m, "detail") == d.detail && TextAt(codec, m, "instance") == d.instanceUri
            && forall k | k in m && IsTextField(k) :: codec.readText(m[k]).Some?
  {
    TextReads(codec, d, keys, 0, d.typeUri);
    TextReads(codec, d, keys, 1, d.title);
    TextReads(codec, d, keys, 3, d.detail);
    TextReads(codec, d, keys, 4, d.instanceUri);
  }

  lemma ReservedReadable(codec: Codec, key: string, raw: string)
    requires IsReservedField(key)
    requires IsTextField(key) ==> codec.readText(raw).Some?
    requires key == "status" ==> codec.readNumber(raw).Some?
    requires key == "errors" ==> codec.readErrors(raw).Some?
    ensures ReadableMember(codec, key, raw)
  {}

  lemma ExtensionReads(codec: Codec, d: Details, keys: seq<string>)
    requires ValidDetails(d) && KeysOf(d, keys) && Printable(codec, d, keys)
    ensures var m := AsMap(MembersOf(codec, d, keys));
            && (Rereadable(codec, d) <==> forall k | k in m && !IsReservedField(k) :: ReadableMember(codec, k, m[k]))
            && (Rereadable(codec, d) ==> ReadExtensions(codec, m) == Reread(codec, d).extensions)
  {
    ExtensionMember(codec, d, keys);
    var m := AsMap(MembersOf(codec, d, keys));
    forall k | k in d.extensions
      ensures k in m && !IsReservedField(k)
      ensures ReadableMember(codec, k, m[k]) <==> codec.readValue(m[k]).Some?
    {}
  }

  /** What a printed problem is read as: every standard member as it was, every extension as the
      library reads its text; and it is read at all exactly when the library reads each of these. */
  lemma ReadPrinted(codec: Codec, d: Details, keys: seq<string>)
    requires ReadsStandard(codec, d) && ValidDetails(d) && KeysOf(d, keys) && Printable(codec, d, keys)
    ensures var m := AsMap(MembersOf(codec, d, keys));
            && (Readable(codec, m) <==> Rereadable(codec, d))
            && (Rereadable(codec, d) ==> Read(codec, m) == Reread(codec, d))
  {
    var m := AsMap(MembersOf(codec, d, keys));
    TextsRead(codec, d, keys);
    StatusReads(codec, d, keys);
    ErrorsRead(codec, d, keys);
    ExtensionReads(codec, d, keys);
    forall k | k in m && IsReservedField(k) ensures ReadableMember(codec, k, m[k]) {
      ReservedReadable(codec, k, m[k]);
    }
  }

  lemma PrintableExactly(codec: Codec, d: Details, keys: seq<string>)
    requires KeysOf(d, keys)
    ensures Printable(codec, d, keys) <==> AllPrintable(codec, d)
    ensures Rereadable(codec, d) ==> AllPrintable(codec, d)
  {
    forall k | k in d.extensions ensures k in keys {
      var i :| 0 <= i < |keys| && keys[i] == k;
    }
    forall i | 0 <= i < |keys| ensures keys[i] in d.extensions { assert keys[i] in Keys(keys); }
  }

  predicate AllPrintable(codec: Codec, d: Details) {
    forall k | k in d.extensions :: codec.value(d.extensions[k]).Some?
  }

  predicate AllSurvive(codec: Codec, d: Details) {
    forall k | k in d.extensions :: Survives(codec, d.extensions[k])
  }

  predicate AllStable(codec: Codec, d: Details) {
    forall k | k in d.extensions :: Stable(codec, d.extensions[k])
  }

  /** The problem is itself again exactly when each of its extensions survives. */
  lemma SurvivesExactly(codec: Codec, d: Details)
    requires Rereadable(codec, d)
    ensures Reread(codec, d) == d <==> AllSurvive(codec, d)
  {
    if AllSurvive(codec, d) {
      assert Reread(codec, d).extensions == d.extensions;
    } else {
      var k :| k in d.extensions && !Survives(codec, d.extensions[k]);
      assert Reread(codec, d).extensions[k] != d.extensions[k];
    }
  }

  lemma StableIsSameText(codec: Codec, d: Details, keys: seq<string>)
    requires KeysOf(d, keys) && Rereadable(codec, d) && AllStable(codec, d) && Printable(codec, d, keys)
    ensures Printable(codec, Reread(codec, d), keys)
    ensures MembersOf(codec, Reread(codec, d), keys) == MembersOf(codec, d, keys)
  {
    var e := Reread(codec, d);
    forall i | 0 <= i < |keys| ensures keys[i] in e.extensions && codec.value(e.extensions[keys[i]])
        == codec.value(d.extensions[keys[i]]) {
      assert Stable(codec, d.extensions[keys[i]]);
    }
    assert Extended(codec, e, keys) == Extended(codec, d, keys);
  }

  lemma SameTextSameMembers(codec: Codec, d: Details, e: Details, keys: seq<string>)
    requires KeysOf(d, keys) && KeysOf(e, keys) && Printable(codec, d, keys) && Printable(codec, e, keys)
    requires Faithful(codec, d) && Faithful(codec, e)
    requires PrintObject(codec, MembersOf(codec, e, keys)) == PrintObject(codec, MembersOf(codec, d, keys))
    ensures AsMap(MembersOf(codec, e, keys)) == AsMap(MembersOf(codec, d, keys))
  {
    assert codec.readMembers(PrintObject(codec, MembersOf(codec, d, keys))) == Some(MembersOf(codec, d, keys));
    assert codec.readMembers(PrintObject(codec, MembersOf(codec, e, keys))) == Some(MembersOf(codec, e, keys));
  }

  lemma SameMembersStable(codec: Codec, d: Details, keys: seq<string>)
    requires ValidDetails(d) && KeysOf(d, keys) && Printable(codec, d, keys) && Rereadable(codec, d)
    requires KeysOf(Reread(codec, d), keys) && Printable(codec, Reread(codec, d), keys)
    requires AsMap(MembersOf(codec, Reread(codec, d), keys)) == AsMap(MembersOf(codec, d, keys))
    ensures AllStable(codec, d)
  {
    ExtensionMember(codec, d, keys);
    ExtensionMember(codec, Reread(codec, d), keys);
    forall k | k in d.extensions ensures Stable(codec, d.extensions[k]) {
      assert codec.value(Reread(codec, d).extensions[k]) == codec.value(d.extensions[k]);
    }
  }

  lemma SameTextIsStable(codec: Codec, d: Details, e: Details, keys: seq<string>)
    requires ValidDetails(d) && KeysOf(d, keys) && Printable(codec, d, keys) && Rereadable(codec, d)
    requires e == Reread(codec, d) && KeysOf(e, keys) && Printable(codec, e, keys)
    requires Faithful(codec, d) && Faithful(codec, e)
    requires PrintObject(codec, MembersOf(codec, e, keys)) == PrintObject(codec, MembersOf(codec, d, keys))
    ensures AllStable(codec, d)
  {
    SameTextSameMembers(codec, d, e, keys);
    SameMembersStable(codec, d, keys);
  }

  lemma RereadKeys(codec: Codec, d: Details, keys: seq<string>)
    requires Rereadable(codec, d) && KeysOf(d, keys)
    ensures KeysOf(Reread(codec, d), keys)
  {
    assert Reread(codec, d).extensions.Keys == d.extensions.Keys;
  }

  /** The problem that was read can be printed, and gives this very text. */
  predicate SameText(codec: Codec, d: Details, keys: seq<string>)
    requires Rereadable(codec, d) && Printable(codec, d, keys)
  {
    && Printable(codec, Reread(codec, d), keys)
    && PrintObject(codec, MembersOf(codec, Reread(codec, d), keys)) == PrintObject(codec, MembersOf(codec, d, keys))
  }

  /** The text is the same again exactly when each extension is stable. */
  lemma StableExactly(codec: Codec, d: Details, keys: seq<string>)
    requires ValidDetails(d) && KeysOf(d, keys) && Printable(codec, d, keys) && Rereadable(codec, d)
    requires Faithful(codec, d) && Faithful(codec, Reread(codec, d))
    ensures SameText(codec, d, keys) <==> AllStable(codec, d)
  {
    if AllStable(codec, d) {
      StableIsSameText(codec, d, keys);
    } else if SameText(codec, d, keys) {
      RereadKeys(codec, d, keys);
      SameTextIsStable(codec, d, Reread(codec, d), keys);
    }
  }

  lemma SameKeys(codec: Codec, d: Details, keys: seq<string>, keysAgain: seq<string>)
    requires Rereadable(codec, d) && KeysOf(d, keys) && KeysOf(Reread(codec, d), keysAgain)
    ensures keys == keysAgain
  {
    AscendingIsUnique(keys, keysAgain);
  }

  /** Marshalling what was read, in any visiting order of the map. */
  method MarshalAgain(codec: Codec, copy: Problem, again: seq<string>, ghost d: Details, ghost keys: seq<string>,
                      text: string)
    returns (ok: bool, textAgain: string)
    requires Rereadable(codec, d) && copy.Says() == Reread(codec, d) && Keys(again) == d.extensions.Keys
    requires forall i, j | 0 <= i < j < |again| :: again[i] != again[j]
    requires KeysOf(d, keys) && Printable(codec, d, keys) && text == PrintObject(codec, MembersOf(codec, d, keys))
    ensures ok && textAgain == text <==> SameText(codec, d, keys)
  {
    ghost var keysAgain;
    ok, textAgain, keysAgain := MarshalJSON(codec, copy, again);
    SameKeys(codec, d, keys, keysAgain);
  }

  lemma PrintedReads(codec: Codec, d: Details, keys: seq<string>)
    requires ValidDetails(d) && KeysOf(d, keys) && Printable(codec, d, keys) && Faithful(codec, d)
    ensures var read := ReadObject(codec, PrintObject(codec, MembersOf(codec, d, keys)));
            && read.Some? && (Readable(codec, read.value) <==> Rereadable(codec, d))
            && (Rereadable(codec, d) ==> Read(codec, read.value) == Reread(codec, d))
  {
    ReadPrinted(codec, d, keys);
  }

  /** Unmarshalling the text of a problem that said d. */
  method UnmarshalPrinted(codec: Codec, copy: Problem, text: string, ghost d: Details, ghost keys: seq<string>)
    returns (ok: bool)
    requires ValidDetails(d) && KeysOf(d, keys) && Printable(codec, d, keys) && Faithful(codec, d)
    requires text == PrintObject(codec, MembersOf(codec, d, keys))
    modifies copy
    ensures ok <==> Rereadable(codec, d)
    ensures ok ==> copy.Says() == Reread(codec, d) && copy.cause == None
  {
    PrintedReads(codec, d, keys);
    ok := UnmarshalJSON(codec, copy, text);
  }

  /** Marshalling into a text and unmarshalling it into the copy. */
  method MarshalAndRead(codec: Codec, original: Problem, copy: Problem, visited: seq<string>)
    returns (printed: bool, ok: bool, text: string, ghost keys: seq<string>)
    requires ValidDetails(original.Says()) && copy != original && Faithful(codec, original.Says())
    requires Keys(visited) == original.Says().extensions.Keys
    requires forall i, j | 0 <= i < j < |visited| :: visited[i] != visited[j]
    modifies copy
    ensures original.Says() == old(original.Says()) && KeysOf(original.Says(), keys)
    ensures printed <==> AllPrintable(codec, original.Says())
    ensures ok <==> Rereadable(codec, original.Says())
    ensures ok ==> copy.Says() == Reread(codec, original.Says()) && copy.cause == None
    ensures printed ==> Printable(codec, original.Says(), keys)
                        && text == PrintObject(codec, MembersOf(codec, original.Says(), keys))
  {
    ghost var d := original.Says();
    printed, text, keys := MarshalJSON(codec, original, visited);
    PrintableExactly(codec, d, keys);
    if !printed {
      return printed, false, text, keys;
    }
    ok := UnmarshalPrinted(codec, copy, text, d, keys);
    assert original.Says() == d;
  }

  /** The library treats the compound values in the extensions, and in what they are read as, by the
      law of encoding/json. */
  ghost predicate LawfulExtensions(codec: Codec, d: Details) {
    forall k | k in d.extensions ::
      && Lawful(codec, d.extensions[k])
      && (Back(codec, d.extensions[k]).Some? ==> Lawful(codec, Back(codec, d.extensions[k]).value))
  }

  /** No struct in any extension, at any depth, and each leaf is itself again. */
  predicate AllPlain(codec: Codec, d: Details) {
    forall k | k in d.extensions :: Plain(codec, d.extensions[k])
  }

  /** The fields of each struct in any extension in ascending order, and each leaf is printed alike. */
  predicate AllCalm(codec: Codec, d: Details) {
    forall k | k in d.extensions :: Calm(codec, d.extensions[k])
  }

  lemma ExtensionsExactly(codec: Codec, d: Details)
    requires LawfulExtensions(codec, d)
    ensures AllSurvive(codec, d) <==> AllPlain(codec, d)
    ensures AllStable(codec, d) <==> AllCalm(codec, d)
  {
    forall k | k in d.extensions
      ensures Survives(codec, d.extensions[k]) <==> Plain(codec, d.extensions[k])
      ensures Stable(codec, d.extensions[k]) <==> Calm(codec, d.extensions[k])
    {
      SurvivesIsPlain(codec, d.extensions[k]);
      StableIsCalm(codec, d.extensions[k]);
    }
  }

  /** Marshalling, in any visiting order of the map, and unmarshalling, in any other: it works exactly
      when every extension can be printed and its text read; the copy then says the same, all but the
      internal cause, exactly when every extension survives; and marshalling it again gives the same
      text exactly when every extension is stable. By the law of compound values the first means that
      there is no struct in it, and the second that each struct in it lists its fields in ascending
      order, and that its leaves survive or are stable. */
  method RoundTrip(codec: Codec, original: Problem, copy: Problem, visited: seq<string>, again: seq<string>)
    returns (printed: bool, ok: bool, printedAgain: bool, text: string, textAgain: string)
    requires ValidDetails(original.Says()) && copy != original
    requires Faithful(codec, original.Says())
    requires Rereadable(codec, original.Says()) ==> Faithful(codec, Reread(codec, original.Says()))
    requires Keys(visited) == Keys(again) == original.Says().extensions.Keys
    requires forall i, j | 0 <= i < j < |visited| :: visited[i] != visited[j]
    requires forall i, j | 0 <= i < j < |again| :: again[i] != again[j]
    modifies copy
    ensures original.Says() == old(original.Says())
    ensures printed <==> AllPrintable(codec, original.Says())
    ensures ok <==> Rereadable(codec, original.Says())
    ensures ok ==> copy.Says() == Reread(codec, original.Says()) && copy.cause == None
    ensures ok ==> (copy.Says() == original.Says() <==> AllSurvive(codec, original.Says()))
    ensures ok ==> (printedAgain && textAgain == text <==> AllStable(codec, original.Says()))
    ensures ok && LawfulExtensions(codec, original.Says()) ==>
              && (copy.Says() == original.Says() <==> AllPlain(codec, original.Says()))
              && (printedAgain && textAgain == text <==> AllCalm(codec, original.Says()))
  {
    ghost var d, keys := original.Says(), [];
    printed, ok, text, keys := MarshalAndRead(codec, original, copy, visited);
    printedAgain, textAgain := false, "";
    if ok {
      SurvivesExactly(codec, d);
      StableExactly(codec, d, keys);
      if LawfulExtensions(codec, d) { ExtensionsExactly(codec, d); }
      printedAgain, textAgain := MarshalAgain(codec, copy, again, d, keys, text);
    }
  }

  // --------------------------------- a library and a problem that meet all the hypotheses

  const ORIGINAL := Struct([("b", Scalar("1")), ("a", Scalar("2"))])
  const REREAD := Object(map["a" := Scalar("2"), "b" := Scalar("1")])
  const ORIGINAL_TEXT := "{" + ("\"b\":1" + "," + "\"a\":2") + "}"
  const REREAD_TEXT := "{" + ("\"a\":2" + "," + "\"b\":1") + "}"

  function Document(text: string): string {
    "{\"s\":" + text + "}"
  }

  function QuoteText(s: string): string {
    "\"" + s + "\""
  }

  function SmallValue(v: Value): Option<string> {
    if v == ORIGINAL then Some(ORIGINAL_TEXT)
    else if v == REREAD then Some(REREAD_TEXT)
    else if v.Scalar? then Some(v.text)
    else None
  }

  function SmallRead(s: string): Option<Value> {
    if s == ORIGINAL_TEXT || s == REREAD_TEXT then Some(REREAD)
    else if s == "1" || s == "2" then Some(Scalar(s))
    else None
  }

  function SmallMembers(s: string): Option<seq<Member>> {
    if s == ORIGINAL_TEXT then Some([("b", "1"), ("a", "2")])
    else if s == REREAD_TEXT then Some([("a", "2"), ("b", "1")])
    else if s == Document(ORIGINAL_TEXT) then Some([("s", ORIGINAL_TEXT)])
    else if s == Document(REREAD_TEXT) then Some([("s", REREAD_TEXT)])
    else None
  }

  /** encoding/json on these values and their texts. */
  function SmallLibrary(): Codec {
    Codec(QuoteText, (s: string) => None, (n: int) => "0", (s: string) => None,
          (e: seq<ValidationError>) => "[]", (s: string) => None,
          SmallValue, SmallRead, SmallMembers, (s: string) => None)
  }

  lemma DocumentAt(text: string)
    requires |text| == 13
    ensures |Document(text)| == 19 && Document(text)[7] == text[2]
  {}

  lemma TextsDiffer()
    ensures |ORIGINAL_TEXT| == |REREAD_TEXT| == 13 && ORIGINAL_TEXT != REREAD_TEXT
    ensures |Document(ORIGINAL_TEXT)| == |Document(REREAD_TEXT)| == 19
    ensures Document(ORIGINAL_TEXT) != Document(REREAD_TEXT)
  {
    assert ORIGINAL_TEXT[2] == 'b' && REREAD_TEXT[2] == 'a';
    DocumentAt(ORIGINAL_TEXT);
    DocumentAt(REREAD_TEXT);
  }

  lemma PrintOne(codec: Codec, p: Member)
    ensures PrintObject(codec, [p]) == "{" + PrintMember(codec, p) + "}"
    ensures AsMap([p]) == map[p.0 := p.1]
  {
    assert PrintMembers(codec, [p]) == [PrintMember(codec, p)];
    assert [p][..0] == [] && AsMap([]) == map[];
  }

  lemma PrintTwo(codec: Codec, p: Member, q: Member)
    ensures PrintObject(codec, [p, q]) == "{" + (PrintMember(codec, p) + "," + PrintMember(codec, q)) + "}"
    ensures AsMap([p, q]) == map[p.0 := p.1, q.0 := q.1]
  {
    var texts := [PrintMember(codec, p), PrintMember(codec, q)];
    assert PrintMembers(codec, [p, q]) == texts;
    assert texts[1..] == [PrintMember(codec, q)];
    assert Join(texts[1..], ",") == PrintMember(codec, q);
    assert [p, q][..1] == [p];
    PrintOne(codec, p);
  }

  lemma SmallTexts()
    ensures PrintObject(SmallLibrary(), [("b", "1"), ("a", "2")]) == ORIGINAL_TEXT
    ensures PrintObject(SmallLibrary(), [("a", "2"), ("b", "1")]) == REREAD_TEXT
  {
    var codec := SmallLibrary();
    assert PrintMember(codec, ("b", "1")) == "\"b\":1";
    assert PrintMember(codec, ("a", "2")) == "\"a\":2";
    PrintTwo(codec, ("b", "1"), ("a", "2"));
    PrintTwo(codec, ("a", "2"), ("b", "1"));
  }

  /** The law for one text of the two. */
  lemma SmallReads(p: Member, q: Member)
    requires (p == ("b", "1") && q == ("a", "2")) || (p == ("a", "2") && q == ("b", "1"))
    ensures ReadsObject(SmallLibrary(), [p, q])
  {
    SmallTexts();
    TextsDiffer();
    PrintTwo(SmallLibrary(), p, q);
    SmallObject();
    assert AsMap([p, q]) == map["a" := "2", "b" := "1"];
    var text := PrintObject(SmallLibrary(), [p, q]);
    assert SmallMembers(text) == Some([p, q]) && SmallRead(text) == Some(REREAD);
  }

  lemma SmallObject()
    ensures ObjectOf(SmallLibrary(), map["a" := "2", "b" := "1"]) == Some(REREAD)
  {
    TextsDiffer();
    var texts := map["a" := "2", "b" := "1"];
    assert SmallRead("1") == Some(Scalar("1")) && SmallRead("2") == Some(Scalar("2"));
    assert (map k | k in texts :: SmallLibrary().readValue(texts[k]).value) == REREAD.members;
  }

  lemma SmallPrints(v: Value, parts: seq<Part>, members: seq<Member>)
    requires v in {ORIGINAL, REREAD} && Some(PrintObject(SmallLibrary(), members)) == SmallValue(v)
    requires ReadsObject(SmallLibrary(), members) && |parts| == |members|
    requires forall i | 0 <= i < |parts| ::
               parts[i].0 == members[i].0 && SmallLibrary().value(parts[i].1) == Some(members[i].1)
    ensures PrintsAs(SmallLibrary(), v, parts)
  {
    assert PrintedParts(SmallLibrary(), parts) == members;
  }

  lemma OriginalIsLawful()
    ensures Lawful(SmallLibrary(), ORIGINAL)
  {
    SmallTexts();
    SmallReads(("b", "1"), ("a", "2"));
    SmallPrints(ORIGINAL, ORIGINAL.fields, [("b", "1"), ("a", "2")]);
  }

  lemma RereadIsListed()
    ensures Listed(REREAD.members) == [("a", Scalar("2")), ("b", Scalar("1"))]
  {
    var keys := ["a", "b"];
    assert Ascending(keys);
    assert keys[0] in Keys(keys) && keys[1] in Keys(keys);
    assert REREAD.members.Keys == {"a", "b"} == Keys(keys);
    SortedIsUnique(keys);
    var listed := Listed(REREAD.members);
    assert Names(listed) == keys;
    assert listed[0].0 == Names(listed)[0] && listed[1].0 == Names(listed)[1];
  }

  lemma RereadIsLawful()
    ensures Lawful(SmallLibrary(), REREAD)
  {
    RereadIsListed();
    SmallTexts();
    SmallReads(("a", "2"), ("b", "1"));
    SmallPrints(REREAD, Listed(REREAD.members), [("a", "2"), ("b", "1")]);
  }

  lemma {:induction false} AllZero(properties: seq<Property>)
    requires forall i | 0 <= i < |properties| :: properties[i].isZero
    ensures NonZero(properties) == []
  {
    if properties != [] { AllZero(properties[..|properties| - 1]); }
  }

  lemma OneKey(keys: seq<string>)
    requires Ascending(keys) && Keys(keys) == {"s"}
    ensures keys == ["s"]
  {
    assert ["s"][0] in Keys(["s"]);
    AscendingIsUnique(keys, ["s"]);
  }

  /** A problem with one extension. */
  function Extending(v: Value): Details {
    Blank.(extensions := map["s" := v])
  }

  lemma OneMember(v: Value, raw: string)
    requires SmallValue(v) == Some(raw)
    ensures Printable(SmallLibrary(), Extending(v), ["s"])
    ensures MembersOf(SmallLibrary(), Extending(v), ["s"]) == [("s", raw)]
  {
    AllZero(Properties(SmallLibrary(), Extending(v)));
    assert Extended(SmallLibrary(), Extending(v), ["s"]) == [("s", raw)];
  }

  lemma DocumentIsPrinted(raw: string)
    ensures PrintObject(SmallLibrary(), [("s", raw)]) == Document(raw)
  {
    assert PrintMember(SmallLibrary(), ("s", raw)) == "\"s\":" + raw;
    PrintOne(SmallLibrary(), ("s", raw));
  }

  lemma OneExtension(v: Value, raw: string)
    requires SmallValue(v) == Some(raw) && SmallMembers(Document(raw)) == Some([("s", raw)])
    ensures Faithful(SmallLibrary(), Extending(v))
  {
    var codec, d := SmallLibrary(), Extending(v);
    OneMember(v, raw);
    DocumentIsPrinted(raw);
    forall keys | KeysOf(d, keys) && Printable(codec, d, keys)
      ensures codec.readMembers(PrintObject(codec, MembersOf(codec, d, keys))) == Some(MembersOf(codec, d, keys))
    {
      OneKey(keys);
    }
  }

  lemma SmallIsFaithful()
    ensures Faithful(SmallLibrary(), Extending(ORIGINAL)) && Faithful(SmallLibrary(), Extending(REREAD))
  {
    TextsDiffer();
    OneExtension(ORIGINAL, ORIGINAL_TEXT);
    OneExtension(REREAD, REREAD_TEXT);
  }

  lemma SmallIsReread()
    ensures Back(SmallLibrary(), ORIGINAL) == Some(REREAD)
    ensures Rereadable(SmallLibrary(), Extending(ORIGINAL))
    ensures Reread(SmallLibrary(), Extending(ORIGINAL)) == Extending(REREAD)
  {
    assert SmallValue(ORIGINAL) == Some(ORIGINAL_TEXT) && SmallRead(ORIGINAL_TEXT) == Some(REREAD);
  }

  lemma OriginalIsDisordered()
    ensures !Calm(SmallLibrary(), ORIGINAL)
  {
    assert Names(ORIGINAL.fields)[0] == "b" && Names(ORIGINAL.fields)[1] == "a";
    assert !Less("b", "a");
  }

  lemma SmallIsLawful()
    ensures LawfulExtensions(SmallLibrary(), Extending(ORIGINAL))
  {
    OriginalIsLawful();
    RereadIsLawful();
    SmallIsReread();
  }

  lemma SmallChanges()
    ensures !AllSurvive(SmallLibrary(), Extending(ORIGINAL)) && !AllStable(SmallLibrary(), Extending(ORIGINAL))
  {
    var d := Extending(ORIGINAL);
    SmallIsLawful();
    OriginalIsDisordered();
    assert !Calm(SmallLibrary(), d.extensions["s"]) && !Plain(SmallLibrary(), d.extensions["s"]);
    ExtensionsExactly(SmallLibrary(), d);
  }

  /** The hypotheses of the round trip and of its conditions are met, by a problem whose text changes:
      a struct with the fields b and a is printed as {"b":1,"a":2}, and then as {"a":2,"b":1}. */
  lemma SmallLibraryMeetsAll()
    ensures var codec, d := SmallLibrary(), Extending(ORIGINAL);
            && ValidDetails(d) && Rereadable(codec, d) && Faithful(codec, d) && Faithful(codec, Reread(codec, d))
            && LawfulExtensions(codec, d) && !AllSurvive(codec, d) && !AllStable(codec, d)
  {
    SmallIsFaithful();
    SmallIsLawful();
    SmallIsReread();
    SmallChanges();
  }
}
