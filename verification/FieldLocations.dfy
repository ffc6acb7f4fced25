/** What the field map is for: every pointer it records names the right place in the JSON body,
    and it records exactly the places that the depth limit lets the walk reach. */
module FieldLocations {
  import opened Strings
  import opened JsonPointer
  import opened FieldMap

  // --------------------------------------------------------------------- locations

  datatype Spot = Spot(namespace: string, source: Source, value: Value)

  /** Child i of a value: its i-th field, element or entry. */
  function Hop(v: Value, i: nat, namespace: string, pointer: string): Option<Spot> {
    match Deref(v)
    case Struct(fields) =>
      if i < |fields| then
        var f := fields[i];
        Some(Spot(Qualified(namespace, f.name), ResolveValidationSource(f.tags, pointer), f.value))
      else None
    case List(items) =>
      if i < |items| then
        Some(Spot(Bracketed(namespace, Digits(i)), Source(Body, pointer + "/" + Digits(i)), items[i]))
      else None
    case Mapping(entries) =>
      if i < |entries| then
        var e := entries[i];
        Some(Spot(Bracketed(namespace, e.key), Source(Body, pointer + "/" + Escape(e.key)), e.value))
      else None
    case _ => None
  }

  /** Follows a path of child numbers; only body locations have anything below them. */
  function Locate(v: Value, path: seq<nat>, namespace: string, pointer: string): Option<Spot>
    requires path != []
    decreases |path|
  {
    match Hop(v, path[0], namespace, pointer)
    case None => None
    case Some(spot) =>
      if |path| == 1 then Some(spot)
      else if spot.source.location.Body? then Locate(spot.value, path[1..], spot.namespace, spot.source.field)
      else None
  }

  /** The depth limit: no struct on the way has MAX_DEPTH or more levels around it. */
  predicate Reached(v: Value, path: seq<nat>, depth: nat)
    requires path != []
    decreases |path|
  {
    && (Deref(v).Struct? ==> depth < MAX_DEPTH)
    && (|path| > 1 ==>
          match Hop(v, path[0], "", "")
          case None => true
          case Some(spot) => Reached(spot.value, path[1..], depth + 1))
  }

  lemma HopIgnoresNames(v: Value, i: nat, namespace: string, pointer: string)
    ensures Hop(v, i, namespace, pointer).Some? <==> Hop(v, i, "", "").Some?
    ensures Hop(v, i, namespace, pointer).Some? ==>
              var a, b := Hop(v, i, namespace, pointer).value, Hop(v, i, "", "").value;
              a.value == b.value && a.source.location == b.source.location
  {}

  lemma {:induction false} ShortPathsAreReached(v: Value, path: seq<nat>, depth: nat)
    requires path != [] && depth + |path| <= MAX_DEPTH
    ensures Reached(v, path, depth)
    decreases |path|
  {
    if |path| > 1 && Hop(v, path[0], "", "").Some? {
      ShortPathsAreReached(Hop(v, path[0], "", "").value.value, path[1..], depth + 1);
    }
  }

  /** Is a struct entered on the way, after k hops? */
  predicate StructAt(v: Value, path: seq<nat>, k: nat)
    requires k < |path|
    decreases k
  {
    if k == 0 then Deref(v).Struct?
    else
      match Hop(v, path[0], "", "")
      case None => false
      case Some(s) => StructAt(s.value, path[1..], k - 1)
  }

  predicate EntersStruct(v: Value, path: seq<nat>, k: nat) {
    k < |path| && StructAt(v, path, k)
  }

  /** The depth limit, hop by hop: the walk reaches a location exactly when no struct is entered after
      sixteen hops or more. */
  lemma ReachedExactly(v: Value, path: seq<nat>)
    requires path != []
    ensures Reached(v, path, 0) <==> forall k: nat | k >= 16 :: !EntersStruct(v, path, k)
  {
    if Reached(v, path, 0) {
      forall k: nat | k >= 16 ensures !EntersStruct(v, path, k) {
        if EntersStruct(v, path, k) { ReachedIsShallow(v, path, 0, k); }
      }
    } else {
      var k := UnreachedIsDeep(v, path, 0);
      assert k >= 16 && EntersStruct(v, path, k);
    }
  }

  lemma {:induction false} ReachedIsShallow(v: Value, path: seq<nat>, depth: nat, k: nat)
    requires k < |path| && Reached(v, path, depth) && StructAt(v, path, k)
    ensures depth + k < 16
    decreases k
  {
    if k > 0 { ReachedIsShallow(Hop(v, path[0], "", "").value.value, path[1..], depth + 1, k - 1); }
  }

  lemma {:induction false} UnreachedIsDeep(v: Value, path: seq<nat>, depth: nat) returns (k: nat)
    requires path != [] && !Reached(v, path, depth)
    ensures k < |path| && StructAt(v, path, k) && depth + k >= 16
    decreases |path|
  {
    if Deref(v).Struct? && depth >= 16 {
      k := 0;
    } else {
      var below := UnreachedIsDeep(Hop(v, path[0], "", "").value.value, path[1..], depth + 1);
      k := below + 1;
    }
  }

  /** A value behind so many pointers. */
  function Behind(v: Value, pointers: nat): Value {
    if pointers == 0 then v else Ptr(Behind(v, pointers - 1))
  }

  lemma {:induction false} DerefBehind(v: Value, pointers: nat)
    ensures !v.Ptr? ==> Deref(Behind(v, pointers)) == v
  {
    if pointers > 0 { DerefBehind(v, pointers - 1); }
  }

  // --------------------------------------------------- the walk records all of them

  function FieldWrites(f: Field, namespace: string, pointer: string, depth: nat): seq<Write> {
    var name, source := Qualified(namespace, f.name), ResolveValidationSource(f.tags, pointer);
    [(name, source)] + if source.location.Body? then WalkNested(f.value, name, source.field, depth) else []
  }

  function ItemWrites(item: Value, i: nat, namespace: string, pointer: string, depth: nat): seq<Write> {
    var name, at := Bracketed(namespace, Digits(i)), pointer + "/" + Digits(i);
    [(name, Source(Body, at))] + WalkNested(item, name, at, depth + 1)
  }

  function EntryWrites(e: Entry, namespace: string, pointer: string, depth: nat): seq<Write> {
    var name, at := Bracketed(namespace, e.key), pointer + "/" + Escape(e.key);
    [(name, Source(Body, at))] + WalkNested(e.value, name, at, depth + 1)
  }

  lemma {:induction false} FieldsWrite(fields: seq<Field>, i: nat, w: Write, namespace: string, pointer: string,
                                       depth: nat)
    requires i < |fields| && w in FieldWrites(fields[i], namespace, pointer, depth)
    ensures w in WalkFields(fields, namespace, pointer, depth)
  {
    if i > 0 { FieldsWrite(fields[1..], i - 1, w, namespace, pointer, depth); }
  }

  lemma {:induction false} ItemsWrite(items: seq<Value>, start: nat, i: nat, w: Write, namespace: string,
                                      pointer: string, depth: nat)
    requires i < |items| && w in ItemWrites(items[i], start + i, namespace, pointer, depth)
    ensures w in WalkItems(items, start, namespace, pointer, depth)
  {
    if i > 0 { ItemsWrite(items[1..], start + 1, i - 1, w, namespace, pointer, depth); }
  }

  lemma {:induction false} EntriesWrite(entries: seq<Entry>, i: nat, w: Write, namespace: string, pointer: string,
                                        depth: nat)
    requires i < |entries| && w in EntryWrites(entries[i], namespace, pointer, depth)
    ensures w in WalkEntries(entries, namespace, pointer, depth)
  {
    if i > 0 { EntriesWrite(entries[1..], i - 1, w, namespace, pointer, depth); }
  }

  /** `WalkNested` below a field at depth - 1 is the walk of what sits at depth. */
  lemma {:induction false} NestedRecords(v: Value, path: seq<nat>, namespace: string, pointer: string, depth: nat)
    requires path != [] && Locate(v, path, namespace, pointer).Some? && Reached(v, path, depth + 1)
    ensures var s := Locate(v, path, namespace, pointer).value;
            (s.namespace, s.source) in WalkNested(v, namespace, pointer, depth)
    decreases |path|, 1
  {
    var s, i := Locate(v, path, namespace, pointer).value, path[0];
    var w := (s.namespace, s.source);
    HopIgnoresNames(v, i, namespace, pointer);
    var hop := Hop(v, i, namespace, pointer).value;
    match Deref(v)
    case Struct(fields) =>
      StructRecords(Deref(v), path, namespace, pointer, depth + 1);
    case List(items) =>
      if |path| > 1 { NestedRecords(items[i], path[1..], hop.namespace, hop.source.field, depth + 1); }
      ItemsWrite(items, 0, i, w, namespace, pointer, depth);
    case Mapping(entries) =>
      if |path| > 1 { NestedRecords(entries[i].value, path[1..], hop.namespace, hop.source.field, depth + 1); }
      EntriesWrite(entries, i, w, namespace, pointer, depth);
    case _ =>
  }

  lemma {:induction false} StructRecords(v: Value, path: seq<nat>, namespace: string, pointer: string, depth: nat)
    requires Deref(v).Struct?
    requires path != [] && Locate(v, path, namespace, pointer).Some? && Reached(v, path, depth)
    ensures var s := Locate(v, path, namespace, pointer).value;
            (s.namespace, s.source) in WalkStruct(v, namespace, pointer, depth)
    decreases |path|, 0
  {
    var s, i := Locate(v, path, namespace, pointer).value, path[0];
    var hop := Hop(v, i, namespace, pointer).value;
    HopIgnoresNames(v, i, namespace, pointer);
    if |path| > 1 { NestedRecords(hop.value, path[1..], hop.namespace, hop.source.field, depth); }
    FieldsWrite(Deref(v).fields, i, (s.namespace, s.source), namespace, pointer, depth);
  }

  // ------------------------------------------------------ and it records nothing else

  /** Some reached path below `v` leads to the write. */
  ghost predicate Justified(v: Value, w: Write, namespace: string, pointer: string, depth: nat) {
    exists path: seq<nat> :: path != [] && Leads(v, path, w, namespace, pointer, depth)
  }

  ghost predicate Leads(v: Value, path: seq<nat>, w: Write, namespace: string, pointer: string, depth: nat)
    requires path != []
  {
    && Reached(v, path, depth)
    && Locate(v, path, namespace, pointer).Some?
    && var s := Locate(v, path, namespace, pointer).value;
       (s.namespace, s.source) == w
  }

  lemma JustifiedHere(v: Value, i: nat, w: Write, namespace: string, pointer: string, depth: nat)
    requires Hop(v, i, namespace, pointer).Some? && (Deref(v).Struct? ==> depth < MAX_DEPTH)
    requires var s := Hop(v, i, namespace, pointer).value; w == (s.namespace, s.source)
    ensures Justified(v, w, namespace, pointer, depth)
  {
    assert Leads(v, [i], w, namespace, pointer, depth);
  }

  lemma JustifiedBelow(v: Value, i: nat, w: Write, namespace: string, pointer: string, depth: nat)
    requires Hop(v, i, namespace, pointer).Some? && (Deref(v).Struct? ==> depth < MAX_DEPTH)
    requires var s := Hop(v, i, namespace, pointer).value;
             s.source.location.Body? && Justified(s.value, w, s.namespace, s.source.field, depth + 1)
    ensures Justified(v, w, namespace, pointer, depth)
  {
    var s := Hop(v, i, namespace, pointer).value;
    var rest: seq<nat> :| rest != [] && Leads(s.value, rest, w, s.namespace, s.source.field, depth + 1);
    HopIgnoresNames(v, i, namespace, pointer);
    assert ([i] + rest)[1..] == rest;
    assert Leads(v, [i] + rest, w, namespace, pointer, depth);
  }

  lemma {:induction false} FieldsFrom(fields: seq<Field>, w: Write, namespace: string, pointer: string, depth: nat)
    returns (i: nat)
    requires w in WalkFields(fields, namespace, pointer, depth)
    ensures i < |fields| && w in FieldWrites(fields[i], namespace, pointer, depth)
  {
    if w in FieldWrites(fields[0], namespace, pointer, depth) {
      i := 0;
    } else {
      var j := FieldsFrom(fields[1..], w, namespace, pointer, depth);
      i := j + 1;
    }
  }

  lemma {:induction false} ItemsFrom(items: seq<Value>, start: nat, w: Write, namespace: string, pointer: string,
                                     depth: nat)
    returns (i: nat)
    requires w in WalkItems(items, start, namespace, pointer, depth)
    ensures i < |items| && w in ItemWrites(items[i], start + i, namespace, pointer, depth)
  {
    if w in ItemWrites(items[0], start, namespace, pointer, depth) {
      i := 0;
    } else {
      var j := ItemsFrom(items[1..], start + 1, w, namespace, pointer, depth);
      i := j + 1;
    }
  }

  lemma {:induction false} EntriesFrom(entries: seq<Entry>, w: Write, namespace: string, pointer: string, depth: nat)
    returns (i: nat)
    requires w in WalkEntries(entries, namespace, pointer, depth)
    ensures i < |entries| && w in EntryWrites(entries[i], namespace, pointer, depth)
  {
    if w in EntryWrites(entries[0], namespace, pointer, depth) {
      i := 0;
    } else {
      var j := EntriesFrom(entries[1..], w, namespace, pointer, depth);
      i := j + 1;
    }
  }

  lemma {:induction false} NestedIsJustified(v: Value, w: Write, namespace: string, pointer: string, depth: nat)
    requires w in WalkNested(v, namespace, pointer, depth)
    ensures Justified(v, w, namespace, pointer, depth + 1)
    decreases v, 2
  {
    var d := Deref(v);
    if d.Struct? {
      StructIsJustified(d, w, namespace, pointer, depth + 1);
    } else if d.List? {
      ListIsJustified(d, w, namespace, pointer, depth);
    } else {
      MappingIsJustified(d, w, namespace, pointer, depth);
    }
    var path: seq<nat> :| path != [] && Leads(d, path, w, namespace, pointer, depth + 1);
    DerefLeads(v, path, w, namespace, pointer, depth + 1);
  }

  lemma {:induction false} ListIsJustified(v: Value, w: Write, namespace: string, pointer: string, depth: nat)
    requires v.List? && w in WalkItems(v.items, 0, namespace, pointer, depth)
    ensures Justified(v, w, namespace, pointer, depth + 1)
    decreases v, 1
  {
    var i := ItemsFrom(v.items, 0, w, namespace, pointer, depth);
    var name, at := Bracketed(namespace, Digits(i)), pointer + "/" + Digits(i);
    if w != (name, Source(Body, at)) { NestedIsJustified(v.items[i], w, name, at, depth + 1); }
    ElementIsJustified(v, i, w, namespace, pointer, depth + 1);
  }

  lemma {:induction false} MappingIsJustified(v: Value, w: Write, namespace: string, pointer: string, depth: nat)
    requires v.Mapping? && w in WalkEntries(v.entries, namespace, pointer, depth)
    ensures Justified(v, w, namespace, pointer, depth + 1)
    decreases v, 1
  {
    var i := EntriesFrom(v.entries, w, namespace, pointer, depth);
    var key := v.entries[i].key;
    var name, at := Bracketed(namespace, key), pointer + "/" + Escape(key);
    if w != (name, Source(Body, at)) { NestedIsJustified(v.entries[i].value, w, name, at, depth + 1); }
    ElementIsJustified(v, i, w, namespace, pointer, depth + 1);
  }

  lemma DerefLeads(v: Value, path: seq<nat>, w: Write, namespace: string, pointer: string, depth: nat)
    requires path != [] && Leads(Deref(v), path, w, namespace, pointer, depth)
    ensures Justified(v, w, namespace, pointer, depth)
  {
    assert Deref(Deref(v)) == Deref(v);
    assert Leads(v, path, w, namespace, pointer, depth);
  }

  /** The element itself, or something justified below it. */
  lemma ElementIsJustified(v: Value, i: nat, w: Write, namespace: string, pointer: string, depth: nat)
    requires (Deref(v).List? || Deref(v).Mapping?) && Hop(v, i, namespace, pointer).Some?
    requires var s := Hop(v, i, namespace, pointer).value;
             w == (s.namespace, s.source)
             || (s.source.location.Body? && Justified(s.value, w, s.namespace, s.source.field, depth + 1))
    ensures Justified(v, w, namespace, pointer, depth)
  {
    var s := Hop(v, i, namespace, pointer).value;
    if w == (s.namespace, s.source) {
      JustifiedHere(v, i, w, namespace, pointer, depth);
    } else {
      JustifiedBelow(v, i, w, namespace, pointer, depth);
    }
  }

  lemma {:induction false} StructIsJustified(v: Value, w: Write, namespace: string, pointer: string, depth: nat)
    requires w in WalkStruct(v, namespace, pointer, depth)
    ensures Justified(v, w, namespace, pointer, depth)
    decreases v, 0
  {
    var fields := Deref(v).fields;
    var i := FieldsFrom(fields, w, namespace, pointer, depth);
    var s := Hop(v, i, namespace, pointer).value;
    if w == (s.namespace, s.source) {
      JustifiedHere(v, i, w, namespace, pointer, depth);
    } else {
      NestedIsJustified(fields[i].value, w, s.namespace, s.source.field, depth);
      JustifiedBelow(v, i, w, namespace, pointer, depth);
    }
  }

  // ------------------------------------------------------------ the JSON they point into

  /** encoding/json reads a tag up to its first comma. */
  function TagName(tag: string): string {
    if tag == "" || tag[0] == ',' then "" else [tag[0]] + TagName(tag[1..])
  }

  /** The tag names the member: it is neither absent, nor options only, nor the "-" that leaves a field
      out of the document. */
  predicate Told(tags: Tags) {
    TagName(tags.json) != "" && TagName(tags.json) != "-"
  }

  predicate Rendered(tags: Tags) {
    InBody(tags) && tags.json != "-"
  }

  /** The member that a field is rendered as: by the name in its tag, or by its own. */
  function MemberName(f: Field): string {
    if TagName(f.tags.json) != "" then TagName(f.tags.json) else f.name
  }

  lemma ToldIsRendered(tags: Tags)
    requires InBody(tags) && Told(tags)
    ensures Rendered(tags)
  {
    TagNameConcat("-", "");
    assert "-" + "" == "-";
  }

  lemma {:induction false} TagNameConcat(name: string, options: string)
    requires ',' !in name && (options == "" || options[0] == ',')
    ensures TagName(name + options) == name
  {
    if name == "" {
      assert name + options == options;
    } else {
      assert name[0] in name && (name + options)[1..] == name[1..] + options;
      TagNameConcat(name[1..], options);
    }
  }

  lemma {:induction false} TagNameIsFirst(tag: string)
    ensures Split(tag, ',')[0] == TagName(tag)
  {
    if tag != "" { TagNameIsFirst(tag[1..]); }
  }

  lemma NormalizedName(tag: string)
    ensures NormalizeJSONField(tag) == if TagName(tag) == "-" then "" else TagName(tag)
  {
    TagNameIsFirst(tag);
  }

  /** Where a field comes from, tag by tag: path before query before header before the body; and in the
      body the pointer goes on with the escaped name, whatever options follow it. */
  lemma SourceOfField(tags: Tags, prefix: string, name: string, options: string)
    requires tags.json == name + options && ',' !in name && (options == "" || options[0] == ',')
    ensures ResolveValidationSource(tags, prefix)
            == if tags.path != "" then Source(Path, tags.path)
               else if tags.query != "" then Source(Query, tags.query)
               else if tags.header != "" then Source(Header, tags.header)
               else Source(Body, prefix + "/" + if name == "-" then "" else Escape(name))
  {
    TagNameConcat(name, options);
    NormalizedName(tags.json);
  }

  function Render(v: Value): Json
    decreases v, 1
  {
    match v
    case Scalar(text) => JScalar(text)
    case Nil => JNull
    case Ptr(target) => Render(target)
    case Struct(fields) => JObject(RenderFields(fields))
    case List(items) => JArray(RenderItems(items))
    case Mapping(entries) => JObject(RenderEntries(entries))
  }

  /** Only body fields are part of the JSON document. */
  function RenderFields(fields: seq<Field>): seq<Member>
    decreases fields, 0
  {
    if fields == [] then []
    else
      (if Rendered(fields[0].tags) then [Member(MemberName(fields[0]), Render(fields[0].value))] else [])
      + RenderFields(fields[1..])
  }

  function RenderItems(items: seq<Value>): (r: seq<Json>)
    ensures |r| == |items| && forall i | 0 <= i < |items| :: r[i] == Render(items[i])
    decreases items, 0
  {
    if items == [] then [] else [Render(items[0])] + RenderItems(items[1..])
  }

  function RenderEntries(entries: seq<Entry>): seq<Member>
    decreases entries, 0
  {
    if entries == [] then [] else [Member(entries[0].key, Render(entries[0].value))] + RenderEntries(entries[1..])
  }

  /** Fields have names, those that are rendered are so under distinct ones, and map keys are distinct,
      all the way down. */
  predicate WellTagged(v: Value)
    decreases v
  {
    match v
    case Ptr(target) => WellTagged(target)
    case Struct(fields) =>
      && (forall i | 0 <= i < |fields| && InBody(fields[i].tags) ::
            fields[i].name != "" && WellTagged(fields[i].value))
      && (forall i, j | 0 <= i < j < |fields| && Rendered(fields[i].tags) && Rendered(fields[j].tags) ::
            MemberName(fields[i]) != MemberName(fields[j]))
    case List(items) => forall i | 0 <= i < |items| :: WellTagged(items[i])
    case Mapping(entries) =>
      && (forall i | 0 <= i < |entries| :: WellTagged(entries[i].value))
      && (forall i, j | 0 <= i < j < |entries| :: entries[i].key != entries[j].key)
    case _ => true
  }

  lemma {:induction false} DerefRenders(v: Value)
    ensures Render(Deref(v)) == Render(v)
    ensures WellTagged(v) ==> WellTagged(Deref(v))
  {
    if v.Ptr? { DerefRenders(v.target); }
  }

  lemma {:induction false} LookupField(fields: seq<Field>, i: nat)
    requires i < |fields| && Rendered(fields[i].tags)
    requires forall j | 0 <= j < i && Rendered(fields[j].tags) :: MemberName(fields[j]) != MemberName(fields[i])
    ensures Lookup(RenderFields(fields), MemberName(fields[i])) == Some(Render(fields[i].value))
  {
    if i > 0 {
      LookupField(fields[1..], i - 1);
      var rest := RenderFields(fields[1..]);
      if Rendered(fields[0].tags) {
        assert MemberName(fields[0]) != MemberName(fields[i]);
        assert RenderFields(fields)[1..] == rest;
      } else {
        assert [] + rest == rest;
      }
    }
  }

  lemma {:induction false} LookupNothing(fields: seq<Field>)
    requires forall j | 0 <= j < |fields| && InBody(fields[j].tags) :: fields[j].name != ""
    ensures Lookup(RenderFields(fields), "") == None
  {
    if fields != [] {
      LookupNothing(fields[1..]);
      var rest := RenderFields(fields[1..]);
      if Rendered(fields[0].tags) {
        assert RenderFields(fields)[1..] == rest;
      } else {
        assert [] + rest == rest;
      }
    }
  }

  lemma {:induction false} LookupEntry(entries: seq<Entry>, i: nat)
    requires i < |entries| && forall j | 0 <= j < i :: entries[j].key != entries[i].key
    ensures Lookup(RenderEntries(entries), entries[i].key) == Some(Render(entries[i].value))
  {
    if i > 0 {
      LookupEntry(entries[1..], i - 1);
      assert RenderEntries(entries)[1..] == RenderEntries(entries[1..]);
    }
  }

  /** The reference token of child i. */
  function Token(v: Value, i: nat): string {
    match Deref(v)
    case Struct(fields) => if i < |fields| && Told(fields[i].tags) then TagName(fields[i].tags.json) else ""
    case Mapping(entries) => if i < |entries| then entries[i].key else ""
    case _ => Digits(i)
  }

  /** Is child i a field without a name in its tag? */
  predicate Untold(v: Value, i: nat) {
    Deref(v).Struct? && i < |Deref(v).fields| && !Told(Deref(v).fields[i].tags)
  }

  /** Every field on the path has a name in its tag. */
  predicate AllTold(v: Value, path: seq<nat>)
    decreases |path|
  {
    path == [] || (!Untold(v, path[0])
      && match Hop(v, path[0], "", "")
         case None => true
         case Some(s) => AllTold(s.value, path[1..]))
  }

  function Tokens(v: Value, path: seq<nat>): seq<string>
    decreases |path|
  {
    if path == [] then []
    else
      var below := match Hop(v, path[0], "", "")
        case None => []
        case Some(s) => Tokens(s.value, path[1..]);
      [Token(v, path[0])] + below
  }

  lemma HopPoints(v: Value, i: nat, namespace: string, pointer: string)
    requires Hop(v, i, namespace, pointer).Some? && Hop(v, i, namespace, pointer).value.source.location.Body?
    ensures Hop(v, i, namespace, pointer).value.source.field == pointer + Pointer([Token(v, i)])
  {
    OneToken(Token(v, i));
    match Deref(v)
    case Struct(fields) => TagPoints(fields[i].tags, pointer);
    case List(_) => EscapeDigits(i);
    case _ =>
  }

  lemma TagPoints(tags: Tags, pointer: string)
    ensures var source := ResolveValidationSource(tags, pointer);
            source.location.Body? ==>
              source.field == pointer + ("/" + Escape(if Told(tags) then TagName(tags.json) else ""))
  {
    NormalizedName(tags.json);
    var token := if Told(tags) then TagName(tags.json) else "";
    Regroup(pointer, "/", Escape(token));
  }

  lemma ChildResolves(v: Value, i: nat)
    requires WellTagged(v) && !v.Ptr? && Hop(v, i, "", "").Some? && Hop(v, i, "", "").value.source.location.Body?
    ensures var s := Hop(v, i, "", "").value;
            && WellTagged(s.value)
            && Child(Render(v), Token(v, i)) == if Untold(v, i) then None else Some(Render(s.value))
  {
    match v
    case Struct(fields) =>
      if Untold(v, i) {
        LookupNothing(fields);
      } else {
        ToldIsRendered(fields[i].tags);
        LookupField(fields, i);
      }
    case List(items) => IndexOfDigits(i);
    case Mapping(entries) => LookupEntry(entries, i);
    case _ =>
  }

  lemma HopOfDeref(v: Value, i: nat)
    ensures Hop(Deref(v), i, "", "") == Hop(v, i, "", "") && Token(Deref(v), i) == Token(v, i)
  {}

  lemma HopResolves(v: Value, i: nat, namespace: string, pointer: string)
    requires WellTagged(v) && Hop(v, i, namespace, pointer).Some?
    requires Hop(v, i, namespace, pointer).value.source.location.Body?
    ensures var s := Hop(v, i, namespace, pointer).value;
            && s.source.field == pointer + Pointer([Token(v, i)])
            && WellTagged(s.value)
            && Child(Render(v), Token(v, i)) == if Untold(v, i) then None else Some(Render(s.value))
  {
    HopPoints(v, i, namespace, pointer);
    HopIgnoresNames(v, i, namespace, pointer);
    DerefRenders(v);
    HopOfDeref(v, i);
    ChildResolves(Deref(v), i);
  }

  lemma OneToken(token: string)
    ensures Pointer([token]) == "/" + Escape(token)
  {
    assert [token][1..] == [] && "/" + Escape(token) + "" == "/" + Escape(token);
  }

  /** A hop to a body location, followed by what its tokens lead to below it. */
  lemma HopThenRest(v: Value, i: nat, namespace: string, pointer: string, rest: seq<string>, field: string)
    requires WellTagged(v) && Hop(v, i, namespace, pointer).Some?
    requires Hop(v, i, namespace, pointer).value.source.location.Body?
    requires field == Hop(v, i, namespace, pointer).value.source.field + Pointer(rest)
    ensures field == pointer + Pointer([Token(v, i)] + rest)
    ensures Walk(Render(v), [Token(v, i)] + rest)
            == if Untold(v, i) then None else Walk(Render(Hop(v, i, namespace, pointer).value.value), rest)
  {
    HopResolves(v, i, namespace, pointer);
    WalkStep(Render(v), Token(v, i), rest);
    PointerConcat([Token(v, i)], rest);
    Regroup(pointer, Pointer([Token(v, i)]), Pointer(rest));
  }

  /** Below a place that has anything below it, the way went through a body location. */
  lemma LocateBelow(v: Value, path: seq<nat>, namespace: string, pointer: string)
    requires |path| > 1 && Locate(v, path, namespace, pointer).Some?
    ensures Hop(v, path[0], namespace, pointer).Some? && Hop(v, path[0], namespace, pointer).value.source.location.Body?
    ensures var hop := Hop(v, path[0], namespace, pointer).value;
            Locate(v, path, namespace, pointer) == Locate(hop.value, path[1..], hop.namespace, hop.source.field)
  {}

  lemma LocateHere(v: Value, path: seq<nat>, namespace: string, pointer: string)
    requires |path| == 1
    ensures Locate(v, path, namespace, pointer) == Hop(v, path[0], namespace, pointer)
  {}

  lemma TokensStep(v: Value, path: seq<nat>, namespace: string, pointer: string)
    requires path != [] && Hop(v, path[0], namespace, pointer).Some?
    ensures Tokens(v, path) == [Token(v, path[0])] + Tokens(Hop(v, path[0], namespace, pointer).value.value, path[1..])
  {
    HopIgnoresNames(v, path[0], namespace, pointer);
  }

  lemma {:induction false} BodyLocationResolves(v: Value, path: seq<nat>, namespace: string, pointer: string)
    requires path != [] && WellTagged(v)
    requires Locate(v, path, namespace, pointer).Some?
    requires Locate(v, path, namespace, pointer).value.source.location.Body?
    ensures var s := Locate(v, path, namespace, pointer).value;
            && s.source.field == pointer + Pointer(Tokens(v, path))
            && Walk(Render(v), Tokens(v, path)) == if AllTold(v, path) then Some(Render(s.value)) else None
    decreases |path|
  {
    var i, s := path[0], Locate(v, path, namespace, pointer).value;
    TokensStep(v, path, namespace, pointer);
    HopIgnoresNames(v, i, namespace, pointer);
    if |path| == 1 {
      assert s.source.field == s.source.field + Pointer([]);
      HopThenRest(v, i, namespace, pointer, [], s.source.field);
    } else {
      LocateBelow(v, path, namespace, pointer);
      HopResolves(v, i, namespace, pointer);
      var hop := Hop(v, i, namespace, pointer).value;
      BodyLocationResolves(hop.value, path[1..], hop.namespace, hop.source.field);
      HopThenRest(v, i, namespace, pointer, Tokens(hop.value, path[1..]), s.source.field);
    }
  }

  lemma WalkStep(json: Json, token: string, rest: seq<string>)
    ensures Walk(json, [token] + rest)
            == match Child(json, token) case None => None case Some(child) => Walk(child, rest)
  {
    assert ([token] + rest)[1..] == rest;
  }

  // ----------------------------------------------------------------- the main results

  lemma {:induction false} WrittenFrom(m: map<string, Source>, writes: seq<Write>, namespace: string)
    requires namespace in Written(m, writes)
    ensures || (namespace, Written(m, writes)[namespace]) in writes
            || (namespace in m && m[namespace] == Written(m, writes)[namespace])
    decreases |writes|
  {
    if writes != [] { WrittenFrom(m[writes[0].0 := writes[0].1], writes[1..], namespace); }
  }

  lemma {:induction false} WrittenKeys(m: map<string, Source>, writes: seq<Write>, namespace: string)
    requires namespace in m || exists w | w in writes :: w.0 == namespace
    ensures namespace in Written(m, writes)
    decreases |writes|
  {
    if writes != [] {
      if !(namespace in m[writes[0].0 := writes[0].1]) {
        var w :| w in writes && w.0 == namespace;
        assert w in writes[1..];
      }
      WrittenKeys(m[writes[0].0 := writes[0].1], writes[1..], namespace);
    }
  }

  /** Every entry belongs to a reached location of that very namespace, whatever the map keys
      look like; and every reached location has its namespace in the map. */
  lemma EntriesAreLocations(root: Value)
    requires Deref(root).Struct?
    ensures forall namespace | namespace in FieldMapOf(root) ::
              Justified(root, (namespace, FieldMapOf(root)[namespace]), "", "", 0)
    ensures forall path: seq<nat> | path != [] && Locate(root, path, "", "").Some? && Reached(root, path, 0) ::
              Locate(root, path, "", "").value.namespace in FieldMapOf(root)
  {
    var writes := WalkStruct(root, "", "", 0);
    forall namespace | namespace in FieldMapOf(root)
      ensures Justified(root, (namespace, FieldMapOf(root)[namespace]), "", "", 0)
    {
      WrittenFrom(map[], writes, namespace);
      StructIsJustified(root, (namespace, FieldMapOf(root)[namespace]), "", "", 0);
    }
    forall path: seq<nat> | path != [] && Locate(root, path, "", "").Some? && Reached(root, path, 0)
      ensures Locate(root, path, "", "").value.namespace in FieldMapOf(root)
    {
      StructRecords(root, path, "", "", 0);
      var s := Locate(root, path, "", "").value;
      assert (s.namespace, s.source).0 == s.namespace;
      WrittenKeys(map[], writes, s.namespace);
    }
  }

  /** Pointer soundness: every body pointer of the map belongs to a location, and evaluates, by the rules
      of RFC 6901, to that location's value in the JSON document, if and only if every field on the way
      has a name in its tag; otherwise it evaluates to nothing. */
  lemma PointersResolve(root: Value, namespace: string)
    requires Deref(root).Struct? && WellTagged(root)
    requires namespace in FieldMapOf(root) && FieldMapOf(root)[namespace].location.Body?
    ensures exists path: seq<nat> :: path != []
              && Leads(root, path, (namespace, FieldMapOf(root)[namespace]), "", "", 0)
              && Evaluate(Render(root), FieldMapOf(root)[namespace].field)
                   == if AllTold(root, path) then Some(Render(Locate(root, path, "", "").value.value)) else None
  {
    EntriesAreLocations(root);
    var w := (namespace, FieldMapOf(root)[namespace]);
    assert Justified(root, w, "", "", 0);
    var path: seq<nat> :| path != [] && Leads(root, path, w, "", "", 0);
    RootLocationResolves(root, path);
  }

  lemma RootLocationResolves(root: Value, path: seq<nat>)
    requires WellTagged(root) && path != [] && Locate(root, path, "", "").Some?
    requires Locate(root, path, "", "").value.source.location.Body?
    ensures var s := Locate(root, path, "", "").value;
            Evaluate(Render(root), s.source.field) == if AllTold(root, path) then Some(Render(s.value)) else None
  {
    BodyLocationResolves(root, path, "", "");
    assert "" + Pointer(Tokens(root, path)) == Pointer(Tokens(root, path));
    EvaluateWalks(Render(root), Tokens(root, path));
  }

  /** A body location whose fields all have names in their tags shares its pointer with no other. */
  lemma PointersDiffer(root: Value, p: seq<nat>, q: seq<nat>)
    requires WellTagged(root) && p != [] && q != [] && p != q && AllTold(root, p)
    requires Locate(root, p, "", "").Some? && Locate(root, p, "", "").value.source.location.Body?
    requires Locate(root, q, "", "").Some? && Locate(root, q, "", "").value.source.location.Body?
    ensures Locate(root, p, "", "").value.source.field != Locate(root, q, "", "").value.source.field
  {
    BodyLocationResolves(root, p, "", "");
    BodyLocationResolves(root, q, "", "");
    assert "" + Pointer(Tokens(root, p)) == Pointer(Tokens(root, p));
    assert "" + Pointer(Tokens(root, q)) == Pointer(Tokens(root, q));
    if Pointer(Tokens(root, p)) == Pointer(Tokens(root, q)) {
      PointerInjective(Tokens(root, p), Tokens(root, q));
      TokensTellPaths(root, p, q, "", "");
    }
  }

  lemma {:induction false} TokensTellPaths(v: Value, p: seq<nat>, q: seq<nat>, namespace: string, pointer: string)
    requires WellTagged(v) && p != [] && q != [] && AllTold(v, p)
    requires Locate(v, p, namespace, pointer).Some? && Locate(v, p, namespace, pointer).value.source.location.Body?
    requires Locate(v, q, namespace, pointer).Some? && Locate(v, q, namespace, pointer).value.source.location.Body?
    requires Tokens(v, p) == Tokens(v, q)
    ensures p == q
    decreases |p|
  {
    var i, j := p[0], q[0];
    HopIgnoresNames(v, i, namespace, pointer);
    HopIgnoresNames(v, j, namespace, pointer);
    assert Token(v, i) == Tokens(v, p)[0] == Tokens(v, q)[0] == Token(v, j);
    TokenTellsChild(v, i, j, namespace, pointer);
    HopResolves(v, i, namespace, pointer);
    var hop := Hop(v, i, namespace, pointer).value;
    assert Tokens(v, p)[1..] == Tokens(hop.value, p[1..]) && Tokens(v, q)[1..] == Tokens(hop.value, q[1..]);
    assert p == [i] + p[1..] && q == [i] + q[1..];
    if |p| > 1 && |q| > 1 {
      TokensTellPaths(hop.value, p[1..], q[1..], hop.namespace, hop.source.field);
    } else {
      TokensLength(hop.value, p[1..]);
      TokensLength(hop.value, q[1..]);
    }
  }

  lemma TokensLength(v: Value, path: seq<nat>)
    ensures Tokens(v, path) == [] <==> path == []
  {}

  lemma TokenTellsChild(v: Value, i: nat, j: nat, namespace: string, pointer: string)
    requires WellTagged(v) && Token(v, i) == Token(v, j) && !Untold(v, i)
    requires Hop(v, i, namespace, pointer).Some? && Hop(v, i, namespace, pointer).value.source.location.Body?
    requires Hop(v, j, namespace, pointer).Some? && Hop(v, j, namespace, pointer).value.source.location.Body?
    ensures i == j
  {
    DerefRenders(v);
    match Deref(v)
    case Struct(fields) =>
      ToldIsRendered(fields[i].tags);
      ToldIsRendered(fields[j].tags);
    case List(_) =>
      DigitsAreIndex(i);
      DigitsAreIndex(j);
    case _ =>
  }

  lemma Regroup(a: string, b: string, c: string)
    ensures (a + b) + c == a + (b + c)
  {}
}
