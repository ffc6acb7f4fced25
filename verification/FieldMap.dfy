/** The validation field map: a walk over a request value that records, for the namespace of every
    field, element and entry, where in the request it comes from. */
module FieldMap {
  import opened Strings
  import opened JsonPointer

  // -------------------------------------------------------------------- the values

  /** The tags of a struct field; "" is an absent tag. */
  datatype Tags = Tags(path: string, query: string, header: string, json: string)

  datatype Value =
    | Scalar(text: string)
    | Nil
    | Ptr(target: Value)
    | Struct(fields: seq<Field>)
    | List(items: seq<Value>)
    | Mapping(entries: seq<Entry>)       // in the order MapKeys happens to give

  datatype Field = Field(name: string, tags: Tags, value: Value)
  datatype Entry = Entry(key: string, value: Value)

  datatype Location = Body | Path | Query | Header
  datatype Source = Source(location: Location, field: string)

  const MAX_DEPTH := 16

  // -------------------------------------------------------- where a field comes from

  function NormalizeJSONField(tag: string): string {
    var name := Split(tag, ',')[0];
    if name == "" || name == "-" then "" else name
  }

  function ResolveValidationSource(tags: Tags, pointerPrefix: string): Source {
    if tags.path != "" then Source(Path, tags.path)
    else if tags.query != "" then Source(Query, tags.query)
    else if tags.header != "" then Source(Header, tags.header)
    else Source(Body, pointerPrefix + "/" + Escape(NormalizeJSONField(tags.json)))
  }

  predicate InBody(tags: Tags) {
    tags.path == "" && tags.query == "" && tags.header == ""
  }

  function Qualified(prefix: string, name: string): string {
    if prefix != "" then prefix + "." + name else name
  }

  function Bracketed(prefix: string, key: string): string {
    prefix + "[" + key + "]"
  }

  function Deref(v: Value): (r: Value)
    ensures !r.Ptr? && (r == v || r < v)
  {
    if v.Ptr? then Deref(v.target) else v
  }

  // ------------------------------------------------------ everything the walk records

  type Write = (string, Source)

  function WalkStruct(v: Value, namespace: string, pointer: string, depth: nat): seq<Write>
    decreases v, 1
  {
    var s := Deref(v);
    if s.Struct? && depth < MAX_DEPTH then WalkFields(s.fields, namespace, pointer, depth) else []
  }

  function WalkFields(fields: seq<Field>, namespace: string, pointer: string, depth: nat): seq<Write>
    decreases fields, 0
  {
    if fields == [] then []
    else
      var f := fields[0];
      var name, source := Qualified(namespace, f.name), ResolveValidationSource(f.tags, pointer);
      [(name, source)]
      + (if source.location.Body? then WalkNested(f.value, name, source.field, depth) else [])
      + WalkFields(fields[1..], namespace, pointer, depth)
  }

  function WalkNested(v: Value, namespace: string, pointer: string, depth: nat): seq<Write>
    decreases v, 2
  {
    var d := Deref(v);
    match d
    case Struct(_) => WalkStruct(d, namespace, pointer, depth + 1)
    case List(items) => WalkItems(items, 0, namespace, pointer, depth)
    case Mapping(entries) => WalkEntries(entries, namespace, pointer, depth)
    case _ => []
  }

  function WalkItems(items: seq<Value>, start: nat, namespace: string, pointer: string, depth: nat): seq<Write>
    decreases items, 0
  {
    if items == [] then []
    else
      var name, at := Bracketed(namespace, Digits(start)), pointer + "/" + Digits(start);
      [(name, Source(Body, at))] + WalkNested(items[0], name, at, depth + 1)
      + WalkItems(items[1..], start + 1, namespace, pointer, depth)
  }

  function WalkEntries(entries: seq<Entry>, namespace: string, pointer: string, depth: nat): seq<Write>
    decreases entries, 0
  {
    if entries == [] then []
    else
      var name, at := Bracketed(namespace, entries[0].key), pointer + "/" + Escape(entries[0].key);
      [(name, Source(Body, at))] + WalkNested(entries[0].value, name, at, depth + 1)
      + WalkEntries(entries[1..], namespace, pointer, depth)
  }

  /** A later write to the same namespace wins. */
  function Written(m: map<string, Source>, writes: seq<Write>): map<string, Source>
    decreases |writes|
  {
    if writes == [] then m else Written(m[writes[0].0 := writes[0].1], writes[1..])
  }

  lemma {:induction false} WrittenConcat(m: map<string, Source>, a: seq<Write>, b: seq<Write>)
    ensures Written(m, a + b) == Written(Written(m, a), b)
    decreases |a|
  {
    if a == [] {
      assert a + b == b;
    } else {
      assert (a + b)[1..] == a[1..] + b;
      WrittenConcat(m[a[0].0 := a[0].1], a[1..], b);
    }
  }

  lemma WrittenFirst(m: map<string, Source>, w: Write, a: seq<Write>, b: seq<Write>)
    ensures Written(m, [w] + a + b) == Written(Written(m[w.0 := w.1], a), b)
  {
    assert ([w] + a + b)[1..] == a + b;
    WrittenConcat(m[w.0 := w.1], a, b);
  }

  // ------------------------------------------------------------------------ the code

  method Dereference(value: Value) returns (r: Value)
    ensures r == Deref(value)
  {
    r := value;
    while r.Ptr?
      invariant Deref(r) == Deref(value)
      decreases r
    {
      r := r.target;
    }
  }

  class FieldMapBuilder {
    var entries: map<string, Source>

    constructor ()
      ensures entries == map[]
    {
      entries := map[];
    }

    method PopulateFieldMap(value: Value, namespacePrefix: string, pointerPrefix: string, depth: nat)
      modifies this
      ensures entries == Written(old(entries), WalkStruct(value, namespacePrefix, pointerPrefix, depth))
      decreases value, 1
    {
      var structValue := Dereference(value);
      if !structValue.Struct? || depth >= MAX_DEPTH {
        return;
      }
      var fields := structValue.fields;
      ghost var all := Written(entries, WalkFields(fields, namespacePrefix, pointerPrefix, depth));
      for index := 0 to |fields|
        invariant Written(entries, WalkFields(fields[index..], namespacePrefix, pointerPrefix, depth)) == all
      {
        var field := fields[index];
        ghost var before := entries;
        var namespace := field.name;
        if namespacePrefix != "" {
          namespace := namespacePrefix + "." + field.name;
        }
        var source := ResolveValidationSource(field.tags, pointerPrefix);
        entries := entries[namespace := source];
        if source.location.Body? {
          PopulateNestedFieldMap(field.value, namespace, source.field, depth);
        }
        assert fields[index..][1..] == fields[index + 1..];
        WrittenFirst(before, (namespace, source),
                     if source.location.Body? then WalkNested(field.value, namespace, source.field, depth) else [],
                     WalkFields(fields[index + 1..], namespacePrefix, pointerPrefix, depth));
      }
      assert fields[|fields|..] == [];
    }

    method PopulateNestedFieldMap(value: Value, namespace: string, pointerPrefix: string, depth: nat)
      modifies this
      ensures entries == Written(old(entries), WalkNested(value, namespace, pointerPrefix, depth))
      decreases value, 2
    {
      var fieldValue := Dereference(value);
      match fieldValue {
        case Struct(_) =>
          PopulateFieldMap(fieldValue, namespace, pointerPrefix, depth + 1);
        case List(items) =>
          ghost var all := Written(entries, WalkItems(items, 0, namespace, pointerPrefix, depth));
          for elementIndex := 0 to |items|
            invariant Written(entries, WalkItems(items[elementIndex..], elementIndex, namespace, pointerPrefix,
                        depth)) == all
          {
            ghost var before := entries;
            var elementNamespace := Bracketed(namespace, Digits(elementIndex));
            var elementPointer := pointerPrefix + "/" + Digits(elementIndex);
            entries := entries[elementNamespace := Source(Body, elementPointer)];
            PopulateNestedFieldMap(items[elementIndex], elementNamespace, elementPointer, depth + 1);
            assert items[elementIndex..][1..] == items[elementIndex + 1..];
            WrittenFirst(before, (elementNamespace, Source(Body, elementPointer)),
                         WalkNested(items[elementIndex], elementNamespace, elementPointer, depth + 1),
                         WalkItems(items[elementIndex + 1..], elementIndex + 1, namespace, pointerPrefix, depth));
          }
          assert items[|items|..] == [];
        case Mapping(pairs) =>
          ghost var all := Written(entries, WalkEntries(pairs, namespace, pointerPrefix, depth));
          for i := 0 to |pairs|
            invariant Written(entries, WalkEntries(pairs[i..], namespace, pointerPrefix, depth)) == all
          {
            ghost var before := entries;
            var elementNamespace := Bracketed(namespace, pairs[i].key);
            var elementPointer := pointerPrefix + "/" + Escape(pairs[i].key);
            entries := entries[elementNamespace := Source(Body, elementPointer)];
            PopulateNestedFieldMap(pairs[i].value, elementNamespace, elementPointer, depth + 1);
            assert pairs[i..][1..] == pairs[i + 1..];
            WrittenFirst(before, (elementNamespace, Source(Body, elementPointer)),
                         WalkNested(pairs[i].value, elementNamespace, elementPointer, depth + 1),
                         WalkEntries(pairs[i + 1..], namespace, pointerPrefix, depth));
          }
          assert pairs[|pairs|..] == [];
        case _ =>
      }
    }
  }

  /** What buildFieldMap returns for a value. */
  function FieldMapOf(value: Value): map<string, Source> {
    Written(map[], WalkStruct(value, "", "", 0))
  }

  method BuildFieldMap(value: Value) returns (fieldMap: map<string, Source>)
    ensures fieldMap == FieldMapOf(value)
  {
    var builder := new FieldMapBuilder();
    builder.PopulateFieldMap(value, "", "", 0);
    fieldMap := builder.entries;
  }
}
