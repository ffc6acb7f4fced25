/** Sanitizing request values in place: the registry of transforms, the check of the tags on a
    type, made once, and the walk over a value, made on every request. */
module Sanitize {
  import opened Strings

  const MAX_DEPTH := 16

  type Transform = string -> string

  // ------------------------------------------------------------------ types and values

  /** Named struct types live in an environment, so a type may contain itself. */
  datatype Type =
    | StringType
    | OtherType
    | PointerType(elem: Type)
    | StructType(name: string)
    | SequenceType(elem: Type)     // slices and arrays
    | MapType(elem: Type)

  datatype FieldType = FieldType(name: string, exported: bool, tag: string, fieldType: Type)

  type Env = map<string, seq<FieldType>>

  /** The storage of one string. */
  class StringCell {
    var text: string

    constructor (text: string)
      ensures this.text == text
    {
      this.text := text;
    }
  }

  datatype Value =
    | StringValue(cell: StringCell)
    | OtherValue
    | NilValue
    | PointerValue(target: Value)
    | StructValue(name: string, fields: seq<Value>)
    | SequenceValue(items: seq<Value>)
    | MapValue(entries: seq<Entry>)

  datatype Entry = Entry(key: string, value: Value)

  predicate HasType(env: Env, v: Value, t: Type)
    decreases v
  {
    match t
    case StringType => v.StringValue?
    case OtherType => v.OtherValue?
    case PointerType(elem) => v.NilValue? || (v.PointerValue? && HasType(env, v.target, elem))
    case StructType(name) =>
      && name in env && v.StructValue? && v.name == name && |v.fields| == |env[name]|
      && forall i | 0 <= i < |v.fields| :: HasType(env, v.fields[i], env[name][i].fieldType)
    case SequenceType(elem) => v.SequenceValue? && forall i | 0 <= i < |v.items| :: HasType(env, v.items[i], elem)
    case MapType(elem) => v.MapValue? && forall i | 0 <= i < |v.entries| :: HasType(env, v.entries[i].value, elem)
  }

  // --------------------------------------------------------------------------- tags

  /** The tokens, and whether they are for the elements. */
  function ParseTag(tag: string): (seq<string>, bool) {
    if tag == "" then ([], false)
    else
      var tokens := Split(tag, ',');
      if tokens[0] == "dive" then (tokens[1..], true) else (tokens, false)
  }

  function ElemType(t: Type): (r: Type)
    ensures !r.PointerType?
  {
    if t.PointerType? then ElemType(t.elem) else t
  }

  function Deref(v: Value): (r: Value)
    ensures !r.PointerValue? && (r == v || r < v)
  {
    if v.PointerValue? then Deref(v.target) else v
  }

  // ----------------------------------------------------------------------- the registry

  datatype RegisterResult = Registered | TagEmpty | FuncNil

  class Registry {
    var funcs: map<string, Transform>
    var seeded: bool
    const trim: Transform
    const email: Transform

    constructor (trim: Transform, email: Transform)
      ensures Value() == map["trim" := trim, "email" := email]
    {
      funcs, seeded := map[], false;
      this.trim, this.email := trim, email;
    }

    /** What a lookup sees: the built-ins are there from the start, though they are stored late. */
    function Value(): map<string, Transform>
      reads this
    {
      if seeded then funcs else funcs["trim" := trim]["email" := email]
    }

    method SeedBuiltins()
      modifies this
      ensures seeded && funcs == Value() == old(Value())
    {
      if !seeded {
        seeded := true;
        funcs := funcs["trim" := trim];
        funcs := funcs["email" := email];
      }
    }

    /** Registering adds or replaces one tag; no tag is ever taken away. */
    method RegisterFunc(tag: string, fn: Option<Transform>) returns (result: RegisterResult)
      modifies this
      ensures result == if tag == "" then TagEmpty else if fn.None? then FuncNil else Registered
      ensures Value() == if result.Registered? then old(Value())[tag := fn.value] else old(Value())
      ensures old(Value()).Keys <= Value().Keys
    {
      if tag == "" {
        return TagEmpty;
      }
      if fn.None? {
        return FuncNil;
      }
      SeedBuiltins();
      funcs := funcs[tag := fn.value];
      return Registered;
    }

    method LookupFunc(tag: string) returns (fn: Option<Transform>)
      modifies this
      ensures Value() == old(Value())
      ensures fn == if tag in Value() then Some(Value()[tag]) else None
    {
      SeedBuiltins();
      fn := if tag in funcs then Some(funcs[tag]) else None;
    }
  }

  // ------------------------------------------------------- the check of a type, as a value

  /** ErrUnknownSanitizer for a token at a path. */
  datatype Unknown = Unknown(path: string, token: string)

  function TokenErrors(known: set<string>, path: string, tokens: seq<string>): seq<Unknown> {
    if tokens == [] then []
    else (if tokens[0] in known then [] else [Unknown(path, tokens[0])]) + TokenErrors(known, path, tokens[1..])
  }

  function TypeErrors(env: Env, known: set<string>, t: Type, path: string, depth: nat): seq<Unknown>
    requires depth <= MAX_DEPTH + 1
    decreases MAX_DEPTH + 1 - depth, 2, 0
  {
    var s := ElemType(t);
    if !s.StructType? || depth >= MAX_DEPTH || s.name !in env then []
    else FieldsErrors(env, known, env[s.name], path, depth)
  }

  function FieldPath(path: string, name: string): string {
    if path != "" then path + "." + name else name
  }

  function FieldsErrors(env: Env, known: set<string>, fields: seq<FieldType>, path: string, depth: nat): seq<Unknown>
    requires depth < MAX_DEPTH
    decreases MAX_DEPTH + 1 - depth, 1, |fields|
  {
    if fields == [] then []
    else
      var (tokens, dive) := ParseTag(fields[0].tag);
      FieldErrors(env, known, fields[0].fieldType, FieldPath(path, fields[0].name), tokens, dive, depth)
      + FieldsErrors(env, known, fields[1..], path, depth)
  }

  function FieldErrors(env: Env, known: set<string>, t: Type, path: string, tokens: seq<string>, dive: bool, depth: nat)
    : seq<Unknown>
    requires depth <= MAX_DEPTH
    decreases MAX_DEPTH + 1 - depth, 0, 0
  {
    match ElemType(t)
    case StringType => TokenErrors(known, path, tokens)
    case StructType(name) => TypeErrors(env, known, StructType(name), path, depth + 1)
    case SequenceType(elem) =>
      if !dive || depth >= MAX_DEPTH then [] else FieldErrors(env, known, elem, path + "[]", tokens, false, depth + 1)
    case MapType(elem) =>
      if !dive || depth >= MAX_DEPTH then [] else FieldErrors(env, known, elem, path + "[]", tokens, false, depth + 1)
    case _ => []
  }

  // ------------------------------------------------------- the walk over a value, as a value

  /** The walk hands a string to the transforms of some tokens. */
  datatype Visit = Visit(cell: StringCell, tokens: seq<string>)

  function ValueVisits(env: Env, v: Value, depth: nat): seq<Visit>
    decreases v, 2
  {
    var s := Deref(v);
    if !s.StructValue? || depth >= MAX_DEPTH || s.name !in env then []
    else FieldsVisits(env, env[s.name], s.fields, depth)
  }

  function FieldsVisits(env: Env, types: seq<FieldType>, fields: seq<Value>, depth: nat): seq<Visit>
    decreases fields, 0
  {
    if types == [] || fields == [] then []
    else StructFieldVisits(env, types[0], fields[0], depth) + FieldsVisits(env, types[1..], fields[1..], depth)
  }

  function StructFieldVisits(env: Env, t: FieldType, v: Value, depth: nat): seq<Visit>
    decreases v, 4
  {
    var (tokens, dive) := ParseTag(t.tag);
    if t.exported then FieldVisits(env, v, tokens, dive, depth) else []
  }

  function FieldVisits(env: Env, v: Value, tokens: seq<string>, dive: bool, depth: nat): seq<Visit>
    decreases v, 3
  {
    var d := Deref(v);
    match d
    case StringValue(cell) => if tokens == [] then [] else [Visit(cell, tokens)]
    case StructValue(_, _) => ValueVisits(env, d, depth + 1)
    case SequenceValue(items) => if !dive || depth >= MAX_DEPTH then [] else ItemsVisits(env, items, tokens, depth)
    case MapValue(entries) => if !dive || depth >= MAX_DEPTH then [] else EntriesVisits(env, entries, tokens, depth)
    case _ => []
  }

  function ItemsVisits(env: Env, items: seq<Value>, tokens: seq<string>, depth: nat): seq<Visit>
    decreases items, 0
  {
    if items == [] then []
    else FieldVisits(env, items[0], tokens, false, depth + 1) + ItemsVisits(env, items[1..], tokens, depth)
  }

  function EntriesVisits(env: Env, entries: seq<Entry>, tokens: seq<string>, depth: nat): seq<Visit>
    decreases entries, 0
  {
    if entries == [] then []
    else FieldVisits(env, entries[0].value, tokens, false, depth + 1) + EntriesVisits(env, entries[1..], tokens, depth)
  }

  /** Apply on a target: nothing below a struct passed by value can be set. */
  function Visits(env: Env, target: Value): seq<Visit> {
    if target.PointerValue? then ValueVisits(env, target, 0) else []
  }

  /** The composed transform of a list of tokens; an unregistered one is skipped. */
  function Composed(funcs: map<string, Transform>, tokens: seq<string>, text: string): string {
    if tokens == [] then text
    else Composed(funcs, tokens[1..], if tokens[0] in funcs then funcs[tokens[0]](text) else text)
  }

  /** What a run of visits makes of the text of one cell. */
  function Effect(funcs: map<string, Transform>, visits: seq<Visit>, cell: StringCell, text: string): string {
    if visits == [] then text
    else Effect(funcs, visits[1..], cell,
                if visits[0].cell == cell then Composed(funcs, visits[0].tokens, text) else text)
  }

  lemma {:induction false} EffectConcat(funcs: map<string, Transform>, a: seq<Visit>, b: seq<Visit>, cell: StringCell,
                                        text: string)
    ensures Effect(funcs, a + b, cell, text) == Effect(funcs, b, cell, Effect(funcs, a, cell, text))
  {
    if a == [] {
      assert a + b == b;
    } else {
      assert (a + b)[1..] == a[1..] + b;
      EffectConcat(funcs, a[1..], b, cell, if a[0].cell == cell then Composed(funcs, a[0].tokens, text) else text);
    }
  }

  // ----------------------------------------------------------- the check covers the walk

  /** Every token of every visit is one of these. */
  predicate AllKnown(visits: seq<Visit>, known: set<string>) {
    forall i, j | 0 <= i < |visits| && 0 <= j < |visits[i].tokens| :: visits[i].tokens[j] in known
  }

  lemma {:induction false} NoErrorsAllKnown(known: set<string>, path: string, tokens: seq<string>)
    requires TokenErrors(known, path, tokens) == []
    ensures forall j | 0 <= j < |tokens| :: tokens[j] in known
  {
    if tokens != [] { NoErrorsAllKnown(known, path, tokens[1..]); }
  }

  lemma {:induction false} DerefHasElemType(env: Env, v: Value, t: Type)
    requires HasType(env, v, t)
    ensures Deref(v).NilValue? || HasType(env, Deref(v), ElemType(t))
    decreases t
  {
    if t.PointerType? && v.PointerValue? { DerefHasElemType(env, v.target, t.elem); }
  }

  lemma {:induction false} FieldCovered(env: Env, known: set<string>, v: Value, t: Type, path: string,
                                        tokens: seq<string>, dive: bool, depth: nat)
    requires depth <= MAX_DEPTH && HasType(env, v, t)
    requires FieldErrors(env, known, t, path, tokens, dive, depth) == []
    ensures AllKnown(FieldVisits(env, v, tokens, dive, depth), known)
    decreases v, 3
  {
    DerefHasElemType(env, v, t);
    var d, e := Deref(v), ElemType(t);
    if d.StringValue? {
      NoErrorsAllKnown(known, path, tokens);
    } else if d.StructValue? {
      TypeCovered(env, known, d, e, path, depth + 1);
    } else if d.SequenceValue? && dive && depth < MAX_DEPTH {
      ItemsCovered(env, known, d.items, e.elem, path + "[]", tokens, depth);
    } else if d.MapValue? && dive && depth < MAX_DEPTH {
      EntriesCovered(env, known, d.entries, e.elem, path + "[]", tokens, depth);
    }
  }

  lemma {:induction false} ItemsCovered(env: Env, known: set<string>, items: seq<Value>, t: Type, path: string,
                                        tokens: seq<string>, depth: nat)
    requires depth < MAX_DEPTH && forall i | 0 <= i < |items| :: HasType(env, items[i], t)
    requires FieldErrors(env, known, t, path, tokens, false, depth + 1) == []
    ensures AllKnown(ItemsVisits(env, items, tokens, depth), known)
    decreases items, 0
  {
    if items != [] {
      FieldCovered(env, known, items[0], t, path, tokens, false, depth + 1);
      ItemsCovered(env, known, items[1..], t, path, tokens, depth);
    }
  }

  lemma {:induction false} EntriesCovered(env: Env, known: set<string>, entries: seq<Entry>, t: Type, path: string,
                                          tokens: seq<string>, depth: nat)
    requires depth < MAX_DEPTH && forall i | 0 <= i < |entries| :: HasType(env, entries[i].value, t)
    requires FieldErrors(env, known, t, path, tokens, false, depth + 1) == []
    ensures AllKnown(EntriesVisits(env, entries, tokens, depth), known)
    decreases entries, 0
  {
    if entries != [] {
      FieldCovered(env, known, entries[0].value, t, path, tokens, false, depth + 1);
      EntriesCovered(env, known, entries[1..], t, path, tokens, depth);
    }
  }

  lemma {:induction false} FieldsCovered(env: Env, known: set<string>, types: seq<FieldType>, fields: seq<Value>,
                                         path: string, depth: nat)
    requires depth < MAX_DEPTH && |types| == |fields|
    requires forall i | 0 <= i < |fields| :: HasType(env, fields[i], types[i].fieldType)
    requires FieldsErrors(env, known, types, path, depth) == []
    ensures AllKnown(FieldsVisits(env, types, fields, depth), known)
    decreases fields, 0
  {
    if fields != [] {
      var (tokens, dive) := ParseTag(types[0].tag);
      FieldCovered(env, known, fields[0], types[0].fieldType, FieldPath(path, types[0].name), tokens, dive, depth);
      FieldsCovered(env, known, types[1..], fields[1..], path, depth);
    }
  }

  lemma {:induction false} TypeCovered(env: Env, known: set<string>, v: Value, t: Type, path: string, depth: nat)
    requires depth <= MAX_DEPTH + 1 && HasType(env, v, t)
    requires TypeErrors(env, known, t, path, depth) == []
    ensures AllKnown(ValueVisits(env, v, depth), known)
    decreases v, 2
  {
    DerefHasElemType(env, v, t);
    var d := Deref(v);
    if d.StructValue? && depth < MAX_DEPTH {
      FieldsCovered(env, known, env[d.name], d.fields, path, depth);
    }
  }

  /** A type that Prepare accepts, recursive or not, has no value on which Apply, at any later
      time, meets a token that is not registered: tags are only ever added or replaced. */
  lemma AcceptedTypeHasNoUnknownToken(env: Env, known: set<string>, later: set<string>, v: Value, t: Type)
    requires TypeErrors(env, known, t, "", 0) == [] && known <= later
    requires HasType(env, v, t)
    ensures AllKnown(Visits(env, PointerValue(v)), later)
  {
    TypeCovered(env, known, v, t, "", 0);
  }
}
