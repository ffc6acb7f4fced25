/** The sanitizer's code: `Prepare` collects the unknown tags of a type, `Apply` rewrites the
    strings of a value where they are stored. */
module SanitizeCode {
  import opened Strings
  import opened Sanitize

  // ------------------------------------------------------------------------ Prepare

  /** The errors of the field at i, appended to those before it. */
  lemma NextFieldErrors(env: Env, known: set<string>, fields: seq<FieldType>, i: nat, path: string, depth: nat,
                        before: seq<Unknown>)
    requires i < |fields| && depth < MAX_DEPTH
    ensures var (tokens, dive) := ParseTag(fields[i].tag);
            before + FieldsErrors(env, known, fields[i..], path, depth)
            == before + FieldErrors(env, known, fields[i].fieldType, FieldPath(path, fields[i].name), tokens, dive,
                depth)
               + FieldsErrors(env, known, fields[i + 1..], path, depth)
  {
    assert fields[i..][1..] == fields[i + 1..];
  }

  class Preparer {
    const env: Env
    const registry: Registry
    var errs: seq<Unknown>

    constructor (env: Env, registry: Registry)
      ensures this.env == env && this.registry == registry && errs == []
    {
      this.env, this.registry, errs := env, registry, [];
    }

    method ElemTypeOf(t: Type) returns (r: Type)
      ensures r == ElemType(t)
    {
      r := t;
      while r.PointerType?
        invariant ElemType(r) == ElemType(t)
        decreases r
      {
        r := r.elem;
      }
    }

    method CheckTokens(path: string, tokens: seq<string>)
      modifies this`errs, registry
      ensures registry.Value() == old(registry.Value())
      ensures errs == old(errs) + TokenErrors(registry.Value().Keys, path, tokens)
    {
      ghost var known := registry.Value().Keys;
      ghost var all := errs + TokenErrors(known, path, tokens);
      for i := 0 to |tokens|
        invariant registry.Value() == old(registry.Value())
        invariant errs + TokenErrors(known, path, tokens[i..]) == all
      {
        assert tokens[i..][1..] == tokens[i + 1..];
        var fn := registry.LookupFunc(tokens[i]);
        ghost var rest := TokenErrors(known, path, tokens[i + 1..]);
        if fn.None? {
          assert errs + ([Unknown(path, tokens[i])] + rest) == (errs + [Unknown(path, tokens[i])]) + rest;
          errs := errs + [Unknown(path, tokens[i])];
        } else {
          assert [] + rest == rest;
        }
      }
      assert tokens[|tokens|..] == [];
    }

    method PrepareType(t: Type, path: string, depth: nat)
      requires depth <= MAX_DEPTH + 1
      modifies this`errs, registry
      ensures registry.Value() == old(registry.Value())
      ensures errs == old(errs) + TypeErrors(env, registry.Value().Keys, t, path, depth)
      decreases MAX_DEPTH + 1 - depth, 1
    {
      var structType := ElemTypeOf(t);
      if !structType.StructType? || depth >= MAX_DEPTH || structType.name !in env {
        return;
      }
      var fields := env[structType.name];
      ghost var known := registry.Value().Keys;
      ghost var all := errs + FieldsErrors(env, known, fields, path, depth);
      for i := 0 to |fields|
        invariant registry.Value() == old(registry.Value())
        invariant errs + FieldsErrors(env, known, fields[i..], path, depth) == all
      {
        var field := fields[i];
        var fieldPath := field.name;
        if path != "" {
          fieldPath := path + "." + field.name;
        }
        var (tokens, dive) := ParseTag(field.tag);
        ghost var before := errs;
        PrepareField(field.fieldType, fieldPath, tokens, dive, depth);
        NextFieldErrors(env, known, fields, i, path, depth, before);
      }
      assert fields[|fields|..] == [];
    }

    method PrepareField(t: Type, path: string, tokens: seq<string>, dive: bool, depth: nat)
      requires depth <= MAX_DEPTH
      modifies this`errs, registry
      ensures registry.Value() == old(registry.Value())
      ensures errs == old(errs) + FieldErrors(env, registry.Value().Keys, t, path, tokens, dive, depth)
      decreases MAX_DEPTH + 1 - depth, 0
    {
      var fieldType := ElemTypeOf(t);
      match fieldType {
        case StringType =>
          CheckTokens(path, tokens);
        case StructType(name) =>
          PrepareType(fieldType, path, depth + 1);
        case SequenceType(elem) =>
          if !dive || depth >= MAX_DEPTH {
            return;
          }
          PrepareField(elem, path + "[]", tokens, false, depth + 1);
        case MapType(elem) =>
          if !dive || depth >= MAX_DEPTH {
            return;
          }
          PrepareField(elem, path + "[]", tokens, false, depth + 1);
        case _ =>
      }
    }
  }

  method Prepare(env: Env, registry: Registry, t: Type) returns (errs: seq<Unknown>)
    modifies registry
    ensures registry.Value() == old(registry.Value())
    ensures errs == TypeErrors(env, registry.Value().Keys, t, "", 0)
  {
    var preparer := new Preparer(env, registry);
    preparer.PrepareType(t, "", 0);
    errs := preparer.errs;
  }

  // -------------------------------------------------------------------------- Apply

  /** All the strings stored below a value. */
  ghost function Cells(v: Value): set<StringCell>
    decreases v, 1
  {
    match v
    case StringValue(cell) => {cell}
    case PointerValue(target) => Cells(target)
    case StructValue(_, fields) => AllCells(fields)
    case SequenceValue(items) => AllCells(items)
    case MapValue(entries) => EntryCells(entries)
    case _ => {}
  }

  ghost function AllCells(values: seq<Value>): set<StringCell>
    decreases values, 0
  {
    if values == [] then {} else Cells(values[0]) + AllCells(values[1..])
  }

  ghost function EntryCells(entries: seq<Entry>): set<StringCell>
    decreases entries, 0
  {
    if entries == [] then {} else Cells(entries[0].value) + EntryCells(entries[1..])
  }

  lemma {:induction false} CellsOf(values: seq<Value>, i: nat)
    requires i < |values|
    ensures Cells(values[i]) <= AllCells(values)
  {
    if i > 0 { CellsOf(values[1..], i - 1); }
  }

  lemma {:induction false} CellsOfEntry(entries: seq<Entry>, i: nat)
    requires i < |entries|
    ensures Cells(entries[i].value) <= EntryCells(entries)
  {
    if i > 0 { CellsOfEntry(entries[1..], i - 1); }
  }

  lemma {:induction false} DerefCells(v: Value)
    ensures Cells(Deref(v)) == Cells(v)
  {
    if v.PointerValue? { DerefCells(v.target); }
  }

  /** Every cell now holds what the visits make of the text it held. */
  twostate predicate Applied(funcs: map<string, Transform>, visits: seq<Visit>, cells: set<StringCell>)
    reads cells
  {
    forall c | c in cells :: c.text == Effect(funcs, visits, c, old(c.text))
  }

  method Dereference(v: Value) returns (r: Value)
    ensures r == Deref(v)
  {
    r := v;
    while r.PointerValue?
      invariant Deref(r) == Deref(v)
      decreases r
    {
      r := r.target;
    }
  }

  method ApplyTokens(registry: Registry, cell: StringCell, tokens: seq<string>)
    modifies registry, cell
    ensures registry.Value() == old(registry.Value())
    ensures cell.text == Composed(registry.Value(), tokens, old(cell.text))
  {
    if |tokens| == 0 {
      return;
    }
    var result := cell.text;
    ghost var funcs := registry.Value();
    for i := 0 to |tokens|
      invariant registry.Value() == funcs && cell.text == old(cell.text)
      invariant Composed(funcs, tokens[i..], result) == Composed(funcs, tokens, old(cell.text))
    {
      assert tokens[i..][1..] == tokens[i + 1..];
      var fn := registry.LookupFunc(tokens[i]);
      if fn.None? {
        continue;
      }
      result := fn.value(result);
    }
    assert tokens[|tokens|..] == [];
    cell.text := result;
  }

  /** The effect so far followed by the effect of the visits still to come is the whole effect. */
  twostate predicate Underway(funcs: map<string, Transform>, all: seq<Visit>, rest: seq<Visit>, cells: set<StringCell>)
    reads cells
  {
    forall c | c in cells :: Effect(funcs, rest, c, c.text) == Effect(funcs, all, c, old(c.text))
  }

  lemma EffectConcatAll(funcs: map<string, Transform>, a: seq<Visit>, b: seq<Visit>)
    ensures forall c: StringCell, text :: Effect(funcs, a + b, c, text) == Effect(funcs, b, c, Effect(funcs, a, c,
                text))
  {
    forall c: StringCell, text
      ensures Effect(funcs, a + b, c, text) == Effect(funcs, b, c, Effect(funcs, a, c, text))
    {
      EffectConcat(funcs, a, b, c, text);
    }
  }

  lemma NextFieldVisits(env: Env, types: seq<FieldType>, fields: seq<Value>, i: nat, depth: nat)
    requires i < |types| && i < |fields|
    ensures FieldsVisits(env, types[i..], fields[i..], depth)
            == StructFieldVisits(env, types[i], fields[i], depth) + FieldsVisits(env, types[i + 1..], fields[i
                + 1..], depth)
  {
    assert types[i..][1..] == types[i + 1..] && fields[i..][1..] == fields[i + 1..];
  }

  lemma NoFieldVisits(env: Env, types: seq<FieldType>, fields: seq<Value>, i: nat, depth: nat)
    requires i <= |types| && i <= |fields| && (i == |types| || i == |fields|)
    ensures FieldsVisits(env, types[i..], fields[i..], depth) == []
  {}

  method ApplyValue(env: Env, registry: Registry, value: Value, depth: nat, ghost cells: set<StringCell>)
    requires Cells(value) <= cells
    modifies registry, cells
    ensures registry.Value() == old(registry.Value())
    ensures Applied(registry.Value(), ValueVisits(env, value, depth), cells)
    decreases value, 2
  {
    var v := Dereference(value);
    DerefCells(value);
    if !v.StructValue? || depth >= MAX_DEPTH || v.name !in env {
      return;
    }
    ApplyFields(env, registry, env[v.name], v.fields, depth, cells);
  }

  /** The loop of applyValue over the fields of a struct. */
  method ApplyFields(env: Env, registry: Registry, types: seq<FieldType>, fields: seq<Value>, depth: nat,
                     ghost cells: set<StringCell>)
    requires AllCells(fields) <= cells
    modifies registry, cells
    ensures registry.Value() == old(registry.Value())
    ensures Applied(registry.Value(), FieldsVisits(env, types, fields, depth), cells)
    decreases fields, 0
  {
    ghost var funcs, all := registry.Value(), FieldsVisits(env, types, fields, depth);
    var i := 0;
    while i < |types| && i < |fields|
      invariant 0 <= i <= |types| && i <= |fields|
      invariant registry.Value() == funcs
      invariant Underway(funcs, all, FieldsVisits(env, types[i..], fields[i..], depth), cells)
    {
      CellsOf(fields, i);
      if types[i].exported {
        var (tokens, dive) := ParseTag(types[i].tag);
        ApplyField(env, registry, fields[i], tokens, dive, depth, cells);
      }
      NextFieldVisits(env, types, fields, i, depth);
      EffectConcatAll(funcs, StructFieldVisits(env, types[i], fields[i], depth),
                      FieldsVisits(env, types[i + 1..], fields[i + 1..], depth));
      i := i + 1;
    }
    NoFieldVisits(env, types, fields, i, depth);
  }

  method ApplyField(env: Env, registry: Registry, value: Value, tokens: seq<string>, dive: bool, depth: nat,
                    ghost cells: set<StringCell>)
    requires Cells(value) <= cells
    modifies registry, cells
    ensures registry.Value() == old(registry.Value())
    ensures Applied(registry.Value(), FieldVisits(env, value, tokens, dive, depth), cells)
    decreases value, 3
  {
    var dereferenced := Dereference(value);
    DerefCells(value);
    match dereferenced {
      case StringValue(cell) =>
        ApplyTokens(registry, cell, tokens);
      case StructValue(_, _) =>
        ApplyValue(env, registry, dereferenced, depth + 1, cells);
      case SequenceValue(items) =>
        if dive && depth < MAX_DEPTH {
          ApplyItems(env, registry, items, tokens, depth, cells);
        }
      case MapValue(entries) =>
        if dive && depth < MAX_DEPTH {
          ApplyEntries(env, registry, entries, tokens, depth, cells);
        }
      case _ =>
    }
  }

  /** The loop of applyField over the elements of a slice. */
  method ApplyItems(env: Env, registry: Registry, items: seq<Value>, tokens: seq<string>, depth: nat,
                    ghost cells: set<StringCell>)
    requires AllCells(items) <= cells
    modifies registry, cells
    ensures registry.Value() == old(registry.Value())
    ensures Applied(registry.Value(), ItemsVisits(env, items, tokens, depth), cells)
    decreases items, 0
  {
    ghost var funcs, all := registry.Value(), ItemsVisits(env, items, tokens, depth);
    for i := 0 to |items|
      invariant registry.Value() == funcs
      invariant Underway(funcs, all, ItemsVisits(env, items[i..], tokens, depth), cells)
    {
      CellsOf(items, i);
      ApplyField(env, registry, items[i], tokens, false, depth + 1, cells);
      assert items[i..][1..] == items[i + 1..];
      EffectConcatAll(funcs, FieldVisits(env, items[i], tokens, false, depth + 1),
                      ItemsVisits(env, items[i + 1..], tokens, depth));
    }
    assert items[|items|..] == [];
  }

  /** The loop of applyField over the entries of a map. */
  method ApplyEntries(env: Env, registry: Registry, entries: seq<Entry>, tokens: seq<string>, depth: nat,
                      ghost cells: set<StringCell>)
    requires EntryCells(entries) <= cells
    modifies registry, cells
    ensures registry.Value() == old(registry.Value())
    ensures Applied(registry.Value(), EntriesVisits(env, entries, tokens, depth), cells)
    decreases entries, 0
  {
    ghost var funcs, all := registry.Value(), EntriesVisits(env, entries, tokens, depth);
    for i := 0 to |entries|
      invariant registry.Value() == funcs
      invariant Underway(funcs, all, EntriesVisits(env, entries[i..], tokens, depth), cells)
    {
      CellsOfEntry(entries, i);
      ApplyField(env, registry, entries[i].value, tokens, false, depth + 1, cells);
      assert entries[i..][1..] == entries[i + 1..];
      EffectConcatAll(funcs, FieldVisits(env, entries[i].value, tokens, false, depth + 1),
                      EntriesVisits(env, entries[i + 1..], tokens, depth));
    }
    assert entries[|entries|..] == [];
  }

  /** What Apply makes of all the strings below a target. */
  ghost function Sanitized(env: Env, funcs: map<string, Transform>, target: Value, texts: map<StringCell, string>)
    : map<StringCell, string>
  {
    map c | c in texts :: Effect(funcs, Visits(env, target), c, texts[c])
  }

  /** The texts that are stored now. */
  ghost function Texts(cells: set<StringCell>): map<StringCell, string>
    reads cells
  {
    map c | c in cells :: c.text
  }

  /** Every stored string ends up as what the visits make of it; nothing else is written. */
  method Apply(env: Env, registry: Registry, target: Value)
    modifies registry, Cells(target)
    ensures registry.Value() == old(registry.Value())
    ensures Texts(Cells(target)) == Sanitized(env, registry.Value(), target, old(Texts(Cells(target))))
  {
    if target.PointerValue? {
      ApplyValue(env, registry, target, 0, Cells(target));
    }
  }

  // --------------------------------------------------- what Apply leaves alone, and twice

  /** Tree-shaped: no string is stored in two places. */
  ghost predicate Tree(v: Value)
    decreases v, 1
  {
    match v
    case PointerValue(target) => Tree(target)
    case StructValue(_, fields) => AllTree(fields)
    case SequenceValue(items) => AllTree(items)
    case MapValue(entries) => EntriesTree(entries)
    case _ => true
  }

  ghost predicate AllTree(values: seq<Value>)
    decreases values, 0
  {
    values == [] || (Tree(values[0]) && AllTree(values[1..]) && Cells(values[0]) !! AllCells(values[1..]))
  }

  ghost predicate EntriesTree(entries: seq<Entry>)
    decreases entries, 0
  {
    entries == [] ||
    (Tree(entries[0].value) && EntriesTree(entries[1..]) && Cells(entries[0].value) !! EntryCells(entries[1..]))
  }

  /** The visits stay inside a set of cells and come to each at most once. */
  ghost predicate Once(visits: seq<Visit>, cells: set<StringCell>) {
    && (forall i | 0 <= i < |visits| :: visits[i].cell in cells)
    && (forall i, j | 0 <= i < j < |visits| :: visits[i].cell != visits[j].cell)
  }

  lemma OnceConcat(a: seq<Visit>, b: seq<Visit>, x: set<StringCell>, y: set<StringCell>)
    requires Once(a, x) && Once(b, y) && x !! y
    ensures Once(a + b, x + y)
  {}

  lemma {:induction false} DerefTree(v: Value)
    requires Tree(v)
    ensures Tree(Deref(v))
  {
    if v.PointerValue? { DerefTree(v.target); }
  }

  lemma {:induction false} FieldOnce(env: Env, v: Value, tokens: seq<string>, dive: bool, depth: nat)
    requires Tree(v)
    ensures Once(FieldVisits(env, v, tokens, dive, depth), Cells(v))
    decreases v, 3
  {
    DerefTree(v);
    DerefCells(v);
    match Deref(v)
    case StructValue(_, _) => ValueOnce(env, Deref(v), depth + 1);
    case SequenceValue(items) => ItemsOnce(env, items, tokens, depth);
    case MapValue(entries) => EntriesOnce(env, entries, tokens, depth);
    case _ =>
  }

  lemma {:induction false} ItemsOnce(env: Env, items: seq<Value>, tokens: seq<string>, depth: nat)
    requires AllTree(items)
    ensures Once(ItemsVisits(env, items, tokens, depth), AllCells(items))
    decreases items, 0
  {
    if items != [] {
      FieldOnce(env, items[0], tokens, false, depth + 1);
      ItemsOnce(env, items[1..], tokens, depth);
      OnceConcat(FieldVisits(env, items[0], tokens, false, depth + 1), ItemsVisits(env, items[1..], tokens, depth),
                 Cells(items[0]), AllCells(items[1..]));
    }
  }

  lemma {:induction false} EntriesOnce(env: Env, entries: seq<Entry>, tokens: seq<string>, depth: nat)
    requires EntriesTree(entries)
    ensures Once(EntriesVisits(env, entries, tokens, depth), EntryCells(entries))
    decreases entries, 0
  {
    if entries != [] {
      FieldOnce(env, entries[0].value, tokens, false, depth + 1);
      EntriesOnce(env, entries[1..], tokens, depth);
      OnceConcat(FieldVisits(env, entries[0].value, tokens, false, depth + 1),
                 EntriesVisits(env, entries[1..], tokens, depth),
                 Cells(entries[0].value), EntryCells(entries[1..]));
    }
  }

  lemma {:induction false} FieldsOnce(env: Env, types: seq<FieldType>, fields: seq<Value>, depth: nat)
    requires AllTree(fields)
    ensures Once(FieldsVisits(env, types, fields, depth), AllCells(fields))
    decreases fields, 0
  {
    if types != [] && fields != [] {
      var (tokens, dive) := ParseTag(types[0].tag);
      var here := if types[0].exported then FieldVisits(env, fields[0], tokens, dive, depth) else [];
      FieldOnce(env, fields[0], tokens, dive, depth);
      FieldsOnce(env, types[1..], fields[1..], depth);
      OnceConcat(here, FieldsVisits(env, types[1..], fields[1..], depth), Cells(fields[0]), AllCells(fields[1..]));
    }
  }

  lemma {:induction false} ValueOnce(env: Env, v: Value, depth: nat)
    requires Tree(v)
    ensures Once(ValueVisits(env, v, depth), Cells(v))
    decreases v, 2
  {
    DerefTree(v);
    DerefCells(v);
    var s := Deref(v);
    if s.StructValue? && depth < MAX_DEPTH && s.name in env { FieldsOnce(env, env[s.name], s.fields, depth); }
  }

  lemma {:induction false} UnvisitedUnchanged(funcs: map<string, Transform>, visits: seq<Visit>, cell: StringCell,
                                              text: string)
    requires forall i | 0 <= i < |visits| :: visits[i].cell != cell
    ensures Effect(funcs, visits, cell, text) == text
  {
    if visits != [] { UnvisitedUnchanged(funcs, visits[1..], cell, text); }
  }

  lemma {:induction false} VisitedOnce(funcs: map<string, Transform>, visits: seq<Visit>, cells: set<StringCell>,
                                       i: nat, text: string)
    requires Once(visits, cells) && i < |visits|
    ensures Effect(funcs, visits, visits[i].cell, text) == Composed(funcs, visits[i].tokens, text)
  {
    if i == 0 {
      UnvisitedUnchanged(funcs, visits[1..], visits[0].cell, Composed(funcs, visits[0].tokens, text));
    } else {
      VisitedOnce(funcs, visits[1..], cells, i - 1, text);
    }
  }

  /** On a tree-shaped value each string that a tag reaches within the depth limit becomes its own
      composed transform of what it was. */
  lemma ApplyOnTrees(env: Env, funcs: map<string, Transform>, target: Value, i: nat, text: string)
    requires Tree(target) && i < |Visits(env, target)|
    ensures var visits := Visits(env, target);
            && visits[i].cell in Cells(target)
            && Effect(funcs, visits, visits[i].cell, text) == Composed(funcs, visits[i].tokens, text)
  {
    ValueOnce(env, target, 0);
    VisitedOnce(funcs, Visits(env, target), Cells(target), i, text);
  }

  /** The transform of a visit leaves alone what it has made of the text that was there. */
  ghost predicate Settled(funcs: map<string, Transform>, visit: Visit, texts: map<StringCell, string>)
    requires visit.cell in texts
  {
    var once := Composed(funcs, visit.tokens, texts[visit.cell]);
    Composed(funcs, visit.tokens, once) == once
  }

  /** On a tree-shaped value a second Apply changes nothing anywhere exactly when each tag's composed
      transform is idempotent on the text that its string first held. */
  lemma SecondApplyChangesNothing(env: Env, funcs: map<string, Transform>, target: Value, texts: map<StringCell,
                                  string>)
    requires Tree(target) && texts.Keys == Cells(target)
    ensures var visits, once := Visits(env, target), Sanitized(env, funcs, target, texts);
            && (forall i | 0 <= i < |visits| :: visits[i].cell in texts)
            && (Sanitized(env, funcs, target, once) == once <==>
                forall i | 0 <= i < |visits| :: Settled(funcs, visits[i], texts))
  {
    var visits, once := Visits(env, target), Sanitized(env, funcs, target, texts);
    var twice := Sanitized(env, funcs, target, once);
    ValueOnce(env, target, 0);
    forall i | 0 <= i < |visits|
      ensures visits[i].cell in texts && (twice[visits[i].cell] == once[visits[i].cell] <==>
                Settled(funcs, visits[i], texts))
    {
      ApplyOnTrees(env, funcs, target, i, texts[visits[i].cell]);
      ApplyOnTrees(env, funcs, target, i, once[visits[i].cell]);
    }
    if forall i | 0 <= i < |visits| :: Settled(funcs, visits[i], texts) {
      forall c | c in texts ensures twice[c] == once[c] {
        if forall i | 0 <= i < |visits| :: visits[i].cell != c {
          UnvisitedUnchanged(funcs, visits, c, once[c]);
        }
      }
    }
  }

  /** Apply, twice over. */
  method ApplyTwice(env: Env, registry: Registry, target: Value) returns (ghost once: map<StringCell, string>)
    modifies registry, Cells(target)
    ensures registry.Value() == old(registry.Value())
    ensures once == Sanitized(env, registry.Value(), target, old(Texts(Cells(target))))
    ensures Texts(Cells(target)) == Sanitized(env, registry.Value(), target, once)
  {
    Apply(env, registry, target);
    once := Texts(Cells(target));
    Apply(env, registry, target);
  }
}
