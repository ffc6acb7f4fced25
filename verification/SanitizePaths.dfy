/** Which strings the sanitizer reaches and what becomes of them, and which tokens the check of a type
    reports and where: told by paths, by the text of the tags and by the transforms themselves. */
module SanitizePaths {
  import opened Strings
  import opened Sanitize
  import opened SanitizeCode

  // ------------------------------------------------------------------------ tags

  /** The tag lists these tokens, after "dive" when they are for the elements. */
  predicate Lists(tag: string, dive: bool, tokens: seq<string>) {
    && (forall i | 0 <= i < |tokens| :: ',' !in tokens[i])
    && if dive then tag == Join(["dive"] + tokens, ",")
       else if tokens == [] then tag == ""
       else tag == Join(tokens, ",") && tag != "" && tokens[0] != "dive"
  }

  /** Every tag lists exactly the tokens that it is parsed into. */
  lemma ParseTagExactly(tag: string, dive: bool, tokens: seq<string>)
    ensures Lists(tag, dive, tokens) <==> ParseTag(tag) == (tokens, dive)
  {
    assert "," == [','];
    if Lists(tag, dive, tokens) {
      if dive {
        JoinSplits(["dive"] + tokens, ',');
        JoinStarts("dive", tokens);
        assert (["dive"] + tokens)[1..] == tokens;
      } else if tokens != [] {
        JoinSplits(tokens, ',');
      }
    } else if tag != "" {
      SplitJoins(tag, ',');
      var parts := Split(tag, ',');
      assert parts[0] == "dive" ==> parts == ["dive"] + parts[1..];
    }
  }

  lemma JoinStarts(first: string, rest: seq<string>)
    requires first != ""
    ensures Join([first] + rest, ",") != ""
  {
    assert ([first] + rest)[1..] == rest;
  }

  // ------------------------------------------------------------------ the transforms

  /** The last transform of what the others have made of the text. */
  function Through(transforms: seq<Transform>, text: string): string {
    if transforms == [] then text
    else transforms[|transforms| - 1](Through(transforms[..|transforms| - 1], text))
  }

  /** The transforms of the tokens, in their order, without those that are not registered. */
  function Registered(funcs: map<string, Transform>, tokens: seq<string>): seq<Transform> {
    if tokens == [] then []
    else
      var last := |tokens| - 1;
      Registered(funcs, tokens[..last]) + if tokens[last] in funcs then [funcs[tokens[last]]] else []
  }

  lemma {:induction false} RegisteredAll(funcs: map<string, Transform>, tokens: seq<string>)
    requires forall i | 0 <= i < |tokens| :: tokens[i] in funcs
    ensures |Registered(funcs, tokens)| == |tokens|
    ensures forall i | 0 <= i < |tokens| :: Registered(funcs, tokens)[i] == funcs[tokens[i]]
  {
    if tokens != [] { RegisteredAll(funcs, tokens[..|tokens| - 1]); }
  }

  lemma {:induction false} ComposedSnoc(funcs: map<string, Transform>, tokens: seq<string>, last: string, text: string)
    ensures var before := Composed(funcs, tokens, text);
            Composed(funcs, tokens + [last], text) == if last in funcs then funcs[last](before) else before
  {
    if tokens == [] {
      assert tokens + [last] == [last] && [last][1..] == [];
    } else {
      assert (tokens + [last])[1..] == tokens[1..] + [last];
      ComposedSnoc(funcs, tokens[1..], last, if tokens[0] in funcs then funcs[tokens[0]](text) else text);
    }
  }

  /** A string goes through the registered transforms of its tokens, first to last. */
  lemma {:induction false} ComposedIsThrough(funcs: map<string, Transform>, tokens: seq<string>, text: string)
    ensures Composed(funcs, tokens, text) == Through(Registered(funcs, tokens), text)
  {
    if tokens != [] {
      var last := |tokens| - 1;
      ComposedIsThrough(funcs, tokens[..last], text);
      ComposedSnoc(funcs, tokens[..last], tokens[last], text);
      assert tokens == tokens[..last] + [tokens[last]];
      var before := Registered(funcs, tokens[..last]);
      if tokens[last] in funcs {
        assert (before + [funcs[tokens[last]]])[..|before|] == before;
      } else {
        assert before + [] == before;
      }
    }
  }

  // ------------------------------------------------------------ which strings are reached

  /** A value behind so many pointers. */
  function Behind(v: Value, pointers: nat): Value {
    if pointers == 0 then v else PointerValue(Behind(v, pointers - 1))
  }

  lemma {:induction false} DerefBehind(v: Value, pointers: nat)
    ensures !v.PointerValue? ==> Deref(Behind(v, pointers)) == v
  {
    if pointers > 0 { DerefBehind(v, pointers - 1); }
  }

  /** Element i of a slice or entry i of a map. */
  function ElementAt(v: Value, i: nat): Option<Value> {
    match v
    case SequenceValue(items) => if i < |items| then Some(items[i]) else None
    case MapValue(entries) => if i < |entries| then Some(entries[i].value) else None
    case _ => None
  }

  /** The path of child numbers leads from a struct to this string, and the tags on the way send it
      these tokens: each struct on the way has fewer than 16 levels around it, each field is exported, a
      slice or a map is entered from a field whose tag dives, and the last tag lists the tokens. */
  ghost predicate Sends(env: Env, v: Value, path: seq<nat>, depth: nat, cell: StringCell, tokens: seq<string>)
    decreases |path|
  {
    && path != [] && Deref(v).StructValue?
    && var s, i := Deref(v), path[0];
       && depth < 16 && s.name in env && i < |s.fields| && i < |env[s.name]| && env[s.name][i].exported
       && SendsField(env, Deref(s.fields[i]), env[s.name][i].tag, path, depth, cell, tokens)
  }

  ghost predicate SendsField(env: Env, field: Value, tag: string, path: seq<nat>, depth: nat, cell: StringCell,
                             tokens: seq<string>)
    requires path != []
    decreases |path|, 0
  {
    if field.StringValue? then
      |path| == 1 && field.cell == cell && tokens != [] && exists dive: bool :: Lists(tag, dive, tokens)
    else if field.StructValue? then Sends(env, field, path[1..], depth + 1, cell, tokens)
    else
      && |path| >= 2 && ElementAt(field, path[1]).Some? && (exists all :: Lists(tag, true, all))
      && var e := Deref(ElementAt(field, path[1]).value);
         if e.StringValue? then |path| == 2 && e.cell == cell && tokens != [] && Lists(tag, true, tokens)
         else Sends(env, e, path[2..], depth + 2, cell, tokens)
  }

  lemma {:induction false} VisitedField(env: Env, types: seq<FieldType>, fields: seq<Value>, depth: nat, w: Visit)
    returns (i: nat)
    requires w in FieldsVisits(env, types, fields, depth)
    ensures i < |types| && i < |fields| && w in StructFieldVisits(env, types[i], fields[i], depth)
  {
    if w in StructFieldVisits(env, types[0], fields[0], depth) {
      i := 0;
    } else {
      var j := VisitedField(env, types[1..], fields[1..], depth, w);
      i := j + 1;
    }
  }

  lemma {:induction false} FieldVisited(env: Env, types: seq<FieldType>, fields: seq<Value>, depth: nat, w: Visit,
                                        i: nat)
    requires i < |types| && i < |fields| && w in StructFieldVisits(env, types[i], fields[i], depth)
    ensures w in FieldsVisits(env, types, fields, depth)
  {
    if i > 0 { FieldVisited(env, types[1..], fields[1..], depth, w, i - 1); }
  }

  lemma {:induction false} VisitedItem(env: Env, items: seq<Value>, tokens: seq<string>, depth: nat, w: Visit)
    returns (i: nat)
    requires w in ItemsVisits(env, items, tokens, depth)
    ensures i < |items| && w in FieldVisits(env, items[i], tokens, false, depth + 1)
  {
    if w in FieldVisits(env, items[0], tokens, false, depth + 1) {
      i := 0;
    } else {
      var j := VisitedItem(env, items[1..], tokens, depth, w);
      i := j + 1;
    }
  }

  lemma {:induction false} ItemVisited(env: Env, items: seq<Value>, tokens: seq<string>, depth: nat, w: Visit, i: nat)
    requires i < |items| && w in FieldVisits(env, items[i], tokens, false, depth + 1)
    ensures w in ItemsVisits(env, items, tokens, depth)
  {
    if i > 0 { ItemVisited(env, items[1..], tokens, depth, w, i - 1); }
  }

  lemma {:induction false} VisitedEntry(env: Env, entries: seq<Entry>, tokens: seq<string>, depth: nat, w: Visit)
    returns (i: nat)
    requires w in EntriesVisits(env, entries, tokens, depth)
    ensures i < |entries| && w in FieldVisits(env, entries[i].value, tokens, false, depth + 1)
  {
    if w in FieldVisits(env, entries[0].value, tokens, false, depth + 1) {
      i := 0;
    } else {
      var j := VisitedEntry(env, entries[1..], tokens, depth, w);
      i := j + 1;
    }
  }

  lemma {:induction false} EntryVisited(env: Env, entries: seq<Entry>, tokens: seq<string>, depth: nat, w: Visit,
                                        i: nat)
    requires i < |entries| && w in FieldVisits(env, entries[i].value, tokens, false, depth + 1)
    ensures w in EntriesVisits(env, entries, tokens, depth)
  {
    if i > 0 { EntryVisited(env, entries[1..], tokens, depth, w, i - 1); }
  }

  /** An element of a slice or map that the walk enters. */
  lemma VisitedElement(env: Env, field: Value, tokens: seq<string>, dive: bool, depth: nat, w: Visit)
    returns (i: nat)
    requires field.SequenceValue? || field.MapValue?
    requires w in FieldVisits(env, field, tokens, dive, depth)
    ensures dive && ElementAt(field, i).Some?
    ensures w in FieldVisits(env, ElementAt(field, i).value, tokens, false, depth + 1)
  {
    match field
    case SequenceValue(items) => i := VisitedItem(env, items, tokens, depth, w);
    case MapValue(entries) => i := VisitedEntry(env, entries, tokens, depth, w);
  }

  lemma ElementVisited(env: Env, field: Value, tokens: seq<string>, depth: nat, w: Visit, i: nat)
    requires ElementAt(field, i).Some? && depth < 16
    requires w in FieldVisits(env, ElementAt(field, i).value, tokens, false, depth + 1)
    ensures w in FieldVisits(env, field, tokens, true, depth)
  {
    match field
    case SequenceValue(items) => ItemVisited(env, items, tokens, depth, w, i);
    case MapValue(entries) => EntryVisited(env, entries, tokens, depth, w, i);
  }

  /** A visit comes of a path. */
  lemma {:induction false} VisitHasPath(env: Env, v: Value, depth: nat, w: Visit) returns (path: seq<nat>)
    requires w in ValueVisits(env, v, depth)
    ensures Sends(env, v, path, depth, w.cell, w.tokens)
    decreases v, 2
  {
    var s := Deref(v);
    var i := VisitedField(env, env[s.name], s.fields, depth, w);
    var rest := FieldHasPath(env, s.fields[i], env[s.name][i].tag, i, depth, w);
    path := [i] + rest;
  }

  lemma {:induction false} FieldHasPath(env: Env, v: Value, tag: string, i: nat, depth: nat, w: Visit)
    returns (rest: seq<nat>)
    requires depth < 16 && w in FieldVisits(env, v, ParseTag(tag).0, ParseTag(tag).1, depth)
    ensures SendsField(env, Deref(v), tag, [i] + rest, depth, w.cell, w.tokens)
    decreases v, 3
  {
    var (tokens, dive) := ParseTag(tag);
    ParseTagExactly(tag, dive, tokens);
    var field := Deref(v);
    if field.StringValue? {
      rest := [];
    } else if field.StructValue? {
      rest := VisitHasPath(env, field, depth + 1, w);
      assert ([i] + rest)[1..] == rest;
    } else {
      var k := VisitedElement(env, field, tokens, dive, depth, w);
      var below := ElementHasPath(env, ElementAt(field, k).value, tokens, depth, w);
      rest := [k] + below;
      ElementSends(env, field, tag, tokens, i, k, below, depth, w);
    }
  }

  lemma ElementSends(env: Env, field: Value, tag: string, tokens: seq<string>, i: nat, k: nat, below: seq<nat>,
                     depth: nat, w: Visit)
    requires ElementAt(field, k).Some? && Lists(tag, true, tokens)
    requires var e := Deref(ElementAt(field, k).value);
             if e.StringValue? then below == [] && w == Visit(e.cell, tokens) && tokens != []
             else Sends(env, e, below, depth + 2, w.cell, w.tokens)
    ensures SendsField(env, field, tag, [i] + ([k] + below), depth, w.cell, w.tokens)
  {
    var path := [i] + ([k] + below);
    assert path[2..] == below && path[1] == k;
  }

  lemma {:induction false} ElementHasPath(env: Env, v: Value, tokens: seq<string>, depth: nat, w: Visit)
    returns (rest: seq<nat>)
    requires w in FieldVisits(env, v, tokens, false, depth + 1)
    ensures var e := Deref(v);
            if e.StringValue? then rest == [] && w == Visit(e.cell, tokens) && tokens != []
            else Sends(env, e, rest, depth + 2, w.cell, w.tokens)
    decreases v, 3
  {
    var e := Deref(v);
    if e.StringValue? { rest := []; } else { rest := VisitHasPath(env, e, depth + 2, w); }
  }

  /** A path makes for a visit. */
  lemma {:induction false} PathIsVisited(env: Env, v: Value, path: seq<nat>, depth: nat, cell: StringCell,
                                         tokens: seq<string>)
    requires Sends(env, v, path, depth, cell, tokens)
    ensures Visit(cell, tokens) in ValueVisits(env, v, depth)
    decreases |path|, 1
  {
    var s, i := Deref(v), path[0];
    var t := env[s.name][i];
    FieldIsVisited(env, s.fields[i], t.tag, path, depth, cell, tokens);
    FieldVisited(env, env[s.name], s.fields, depth, Visit(cell, tokens), i);
  }

  lemma {:induction false} FieldIsVisited(env: Env, v: Value, tag: string, path: seq<nat>, depth: nat,
                                          cell: StringCell, tokens: seq<string>)
    requires depth < 16 && path != [] && SendsField(env, Deref(v), tag, path, depth, cell, tokens)
    ensures Visit(cell, tokens) in FieldVisits(env, v, ParseTag(tag).0, ParseTag(tag).1, depth)
    decreases |path|, 0
  {
    var w, field := Visit(cell, tokens), Deref(v);
    if field.StringValue? {
      var dive: bool :| Lists(tag, dive, tokens);
      ParseTagExactly(tag, dive, tokens);
    } else if field.StructValue? {
      PathIsVisited(env, field, path[1..], depth + 1, cell, tokens);
    } else {
      var all :| Lists(tag, true, all);
      ParseTagExactly(tag, true, all);
      var element := ElementAt(field, path[1]).value;
      if Deref(element).StringValue? {
        ParseTagExactly(tag, true, tokens);
      } else {
        PathIsVisited(env, Deref(element), path[2..], depth + 2, cell, tokens);
      }
      ElementVisited(env, field, all, depth, w, path[1]);
    }
  }

  /** The string stands at the end of some path that sends it these tokens; and the target is a pointer,
      since nothing below a struct passed by value can be written. */
  ghost predicate IsSent(env: Env, target: Value, cell: StringCell, tokens: seq<string>) {
    target.PointerValue? && exists path: seq<nat> :: Sends(env, target, path, 0, cell, tokens)
  }

  /** The walk hands a string to tokens exactly when some path sends it to them. */
  lemma VisitsExactly(env: Env, target: Value, cell: StringCell, tokens: seq<string>)
    ensures Visit(cell, tokens) in Visits(env, target) <==> IsSent(env, target, cell, tokens)
  {
    if Visit(cell, tokens) in Visits(env, target) {
      var path := VisitHasPath(env, target, 0, Visit(cell, tokens));
      assert Sends(env, target, path, 0, cell, tokens);
    }
    if IsSent(env, target, cell, tokens) {
      var path: seq<nat> :| Sends(env, target, path, 0, cell, tokens);
      PathIsVisited(env, target, path, 0, cell, tokens);
    }
  }

  /** Without aliasing, Apply sends each string at the end of a path through the registered transforms
      of the tokens that the tags send it, first to last, and changes no other string. */
  lemma SanitizedExactly(env: Env, funcs: map<string, Transform>, target: Value, texts: map<StringCell, string>)
    requires Tree(target) && texts.Keys == Cells(target)
    ensures Sanitized(env, funcs, target, texts).Keys == texts.Keys
    ensures forall cell, tokens | IsSent(env, target, cell, tokens) ::
              && cell in texts
              && Sanitized(env, funcs, target, texts)[cell] == Through(Registered(funcs, tokens), texts[cell])
    ensures forall cell | cell in texts && (forall tokens :: !IsSent(env, target, cell, tokens)) ::
              Sanitized(env, funcs, target, texts)[cell] == texts[cell]
  {
    forall cell, tokens | IsSent(env, target, cell, tokens)
      ensures cell in texts
      ensures Sanitized(env, funcs, target, texts)[cell] == Through(Registered(funcs, tokens), texts[cell])
    {
      SentIsComposed(env, funcs, target, texts, cell, tokens);
    }
    forall cell | cell in texts && (forall tokens :: !IsSent(env, target, cell, tokens))
      ensures Sanitized(env, funcs, target, texts)[cell] == texts[cell]
    {
      UnsentUnchanged(env, funcs, target, cell, texts[cell]);
    }
  }

  lemma SentIsComposed(env: Env, funcs: map<string, Transform>, target: Value, texts: map<StringCell, string>,
                       cell: StringCell, tokens: seq<string>)
    requires Tree(target) && texts.Keys == Cells(target) && IsSent(env, target, cell, tokens)
    ensures cell in texts
    ensures Sanitized(env, funcs, target, texts)[cell] == Through(Registered(funcs, tokens), texts[cell])
  {
    var visits := Visits(env, target);
    VisitsExactly(env, target, cell, tokens);
    var i :| 0 <= i < |visits| && visits[i] == Visit(cell, tokens);
    ValueOnce(env, target, 0);
    ApplyOnTrees(env, funcs, target, i, texts[cell]);
    ComposedIsThrough(funcs, tokens, texts[cell]);
  }

  lemma UnsentUnchanged(env: Env, funcs: map<string, Transform>, target: Value, cell: StringCell, text: string)
    requires forall tokens :: !IsSent(env, target, cell, tokens)
    ensures Effect(funcs, Visits(env, target), cell, text) == text
  {
    var visits := Visits(env, target);
    forall i | 0 <= i < |visits| ensures visits[i].cell != cell {
      if visits[i].cell == cell {
        assert Visit(cell, visits[i].tokens) in visits;
        VisitsExactly(env, target, cell, visits[i].tokens);
      }
    }
    UnvisitedUnchanged(funcs, visits, cell, text);
  }

  // ------------------------------------------------------- what the check of a type reports

  /** A type behind so many pointers. */
  function PointersTo(t: Type, pointers: nat): Type {
    if pointers == 0 then t else PointerType(PointersTo(t, pointers - 1))
  }

  lemma {:induction false} ElemBehind(t: Type, pointers: nat)
    ensures !t.PointerType? ==> ElemType(PointersTo(t, pointers)) == t
  {
    if pointers > 0 { ElemBehind(t, pointers - 1); }
  }

  /** The elements of a slice or a map. */
  function ElementType(t: Type): Option<Type> {
    match t
    case SequenceType(elem) => Some(elem)
    case MapType(elem) => Some(elem)
    case _ => None
  }

  /** The route of field numbers leads from a struct type to a string or to strings in a container, and
      the last tag on it lists the token: each struct on the way has fewer than 16 levels around it, and
      a slice or a map is entered from a field whose tag dives. */
  ghost predicate Asks(env: Env, t: Type, route: seq<nat>, depth: nat, token: string)
    decreases |route|, 2
  {
    && route != [] && ElemType(t).StructType?
    && var name, i := ElemType(t).name, route[0];
       && depth < 16 && name in env && i < |env[name]|
       && AsksField(env, ElemType(env[name][i].fieldType), env[name][i].tag, route, depth, token)
  }

  ghost predicate AsksField(env: Env, field: Type, tag: string, route: seq<nat>, depth: nat, token: string)
    requires route != []
    decreases |route|, 1
  {
    if field.StringType? then |route| == 1 && exists dive, tokens :: Lists(tag, dive, tokens) && token in tokens
    else if field.StructType? then Asks(env, field, route[1..], depth + 1, token)
    else
      && ElementType(field).Some?
      && exists tokens :: Lists(tag, true, tokens)
           && AsksElement(env, ElemType(ElementType(field).value), tokens, route, depth, token)
  }

  ghost predicate AsksElement(env: Env, e: Type, tokens: seq<string>, route: seq<nat>, depth: nat, token: string)
    requires route != []
    decreases |route|, 0
  {
    if e.StringType? then |route| == 1 && token in tokens else Asks(env, e, route[1..], depth + 2, token)
  }

  /** The names of the fields on a route, a container's followed by brackets. */
  function NamesOn(env: Env, t: Type, route: seq<nat>): seq<string>
    decreases |route|
  {
    var s := ElemType(t);
    if route == [] || !s.StructType? || s.name !in env || route[0] >= |env[s.name]| then []
    else
      var field := env[s.name][route[0]];
      var below := ElemType(field.fieldType);
      match ElementType(below)
      case None => [field.name] + NamesOn(env, below, route[1..])
      case Some(elem) => [field.name + "[]"] + NamesOn(env, elem, route[1..])
  }

  /** Every field has a name. */
  predicate Named(env: Env) {
    forall s, i | s in env && 0 <= i < |env[s]| :: env[s][i].name != ""
  }

  /** Names after a path. */
  function Under(path: string, names: seq<string>): string {
    if path == "" then Join(names, ".") else path + "." + Join(names, ".")
  }

  lemma UnderOne(path: string, name: string)
    ensures Under(path, [name]) == FieldPath(path, name)
    ensures FieldPath(path, name) + "[]" == FieldPath(path, name + "[]")
  {
    if path != "" { assert path + "." + name + "[]" == path + "." + (name + "[]"); }
  }

  lemma UnderCons(path: string, name: string, rest: seq<string>)
    requires name != "" && rest != []
    ensures Under(path, [name] + rest) == Under(FieldPath(path, name), rest)
  {
    assert ([name] + rest)[1..] == rest;
    assert path + "." + (name + "." + Join(rest, ".")) == (path + "." + name) + "." + Join(rest, ".");
  }

  // ---- one error for each unregistered token

  /** The unregistered ones among the tokens, in their order. */
  function Unregistered(known: set<string>, tokens: seq<string>): seq<string> {
    if tokens == [] then []
    else
      var last := |tokens| - 1;
      Unregistered(known, tokens[..last]) + if tokens[last] in known then [] else [tokens[last]]
  }

  lemma {:induction false} UnregisteredCons(known: set<string>, tokens: seq<string>)
    requires tokens != []
    ensures Unregistered(known, tokens)
            == (if tokens[0] in known then [] else [tokens[0]]) + Unregistered(known, tokens[1..])
  {
    var last := |tokens| - 1;
    if last == 0 {
      assert tokens[..last] == [] && tokens[1..] == [];
    } else {
      UnregisteredCons(known, tokens[..last]);
      assert tokens[..last][1..] == tokens[1..][..last - 1];
    }
  }

  /** A string's tokens give one error for each that is not registered, in their order. */
  lemma {:induction false} TokenErrorsExactly(known: set<string>, path: string, tokens: seq<string>)
    ensures var unknown, errors := Unregistered(known, tokens), TokenErrors(known, path, tokens);
            |errors| == |unknown| && forall i | 0 <= i < |errors| :: errors[i] == Unknown(path, unknown[i])
    ensures forall token :: token in Unregistered(known, tokens) <==> token in tokens && token !in known
  {
    if tokens != [] {
      TokenErrorsExactly(known, path, tokens[1..]);
      UnregisteredCons(known, tokens);
      assert tokens == [tokens[0]] + tokens[1..];
    }
  }

  lemma TokenErrorsHave(known: set<string>, path: string, tokens: seq<string>, e: Unknown)
    ensures e in TokenErrors(known, path, tokens) <==> e.path == path && e.token in tokens && e.token !in known
  {
    TokenErrorsExactly(known, path, tokens);
    var unknown, errors := Unregistered(known, tokens), TokenErrors(known, path, tokens);
    if e.token in unknown {
      var i :| 0 <= i < |unknown| && unknown[i] == e.token;
      assert errors[i] in errors;
    }
  }

  // ---- and of a whole type

  function OneFieldErrors(env: Env, known: set<string>, f: FieldType, path: string, depth: nat): seq<Unknown>
    requires depth < MAX_DEPTH
  {
    FieldErrors(env, known, f.fieldType, FieldPath(path, f.name), ParseTag(f.tag).0, ParseTag(f.tag).1, depth)
  }

  lemma {:induction false} FieldOfError(env: Env, known: set<string>, fields: seq<FieldType>, path: string, depth: nat,
                                        e: Unknown)
    returns (i: nat)
    requires depth < MAX_DEPTH && e in FieldsErrors(env, known, fields, path, depth)
    ensures i < |fields| && e in OneFieldErrors(env, known, fields[i], path, depth)
  {
    if e in OneFieldErrors(env, known, fields[0], path, depth) {
      i := 0;
    } else {
      var j := FieldOfError(env, known, fields[1..], path, depth, e);
      i := j + 1;
    }
  }

  lemma {:induction false} ErrorOfField(env: Env, known: set<string>, fields: seq<FieldType>, path: string, depth: nat,
                                        e: Unknown, i: nat)
    requires depth < MAX_DEPTH && i < |fields| && e in OneFieldErrors(env, known, fields[i], path, depth)
    ensures e in FieldsErrors(env, known, fields, path, depth)
  {
    if i > 0 { ErrorOfField(env, known, fields[1..], path, depth, e, i - 1); }
  }

  /** The error names a token that a route asks for, and its path names the fields on the route. */
  ghost predicate Explains(env: Env, t: Type, path: string, depth: nat, e: Unknown, route: seq<nat>) {
    && Asks(env, t, route, depth, e.token)
    && NamesOn(env, t, route) != [] && e.path == Under(path, NamesOn(env, t, route))
  }

  lemma {:induction false} ErrorHasRoute(env: Env, known: set<string>, t: Type, path: string, depth: nat, e: Unknown)
    returns (route: seq<nat>)
    requires depth <= MAX_DEPTH + 1 && Named(env) && e in TypeErrors(env, known, t, path, depth)
    ensures e.token !in known && Explains(env, t, path, depth, e, route)
    decreases MAX_DEPTH + 1 - depth, 1
  {
    var fields := env[ElemType(t).name];
    var i := FieldOfError(env, known, fields, path, depth, e);
    var f := fields[i];
    var (tokens, dive) := ParseTag(f.tag);
    ParseTagExactly(f.tag, dive, tokens);
    var below := ElemType(f.fieldType);
    if below.StringType? {
      TokenErrorsHave(known, FieldPath(path, f.name), tokens, e);
      UnderOne(path, f.name);
      route := [i];
      assert NamesOn(env, t, route) == [f.name];
    } else if below.StructType? {
      var rest := ErrorHasRoute(env, known, below, FieldPath(path, f.name), depth + 1, e);
      route := [i] + rest;
      assert route[1..] == rest;
      RouteStep(env, t, path, depth, e, route, below, FieldPath(path, f.name), depth + 1);
    } else {
      route := ElementErrorHasRoute(env, known, t, path, depth, e, i);
    }
  }

  /** A route through a struct field or a container's elements, after its first step. */
  lemma RouteStep(env: Env, t: Type, path: string, depth: nat, e: Unknown, route: seq<nat>, next: Type, at: string,
                  below: nat)
    requires route != [] && Named(env) && ElemType(t).StructType? && depth < 16 && ElemType(t).name in env
    requires route[0] < |env[ElemType(t).name]|
    requires Explains(env, next, at, below, e, route[1..])
    requires var f := env[ElemType(t).name][route[0]];
             var field := ElemType(f.fieldType);
             || (next == field && field.StructType? && below == depth + 1 && at == FieldPath(path, f.name))
             || (ElementType(field).Some? && next == ElemType(ElementType(field).value) && next.StructType?
                 && below == depth + 2 && at == FieldPath(path, f.name) + "[]"
                 && exists tokens :: Lists(f.tag, true, tokens))
    ensures Explains(env, t, path, depth, e, route)
  {
    var f := env[ElemType(t).name][route[0]];
    UnderOne(path, f.name);
    var names := NamesOn(env, next, route[1..]);
    if next == ElemType(f.fieldType) {
      UnderCons(path, f.name, names);
      assert NamesOn(env, t, route) == [f.name] + names;
    } else {
      UnderCons(path, f.name + "[]", names);
      assert NamesOn(env, t, route) == [f.name + "[]"] + names;
    }
  }

  lemma {:induction false} ElementErrorHasRoute(env: Env, known: set<string>, t: Type, path: string, depth: nat,
                                                e: Unknown, i: nat)
    returns (route: seq<nat>)
    requires depth < MAX_DEPTH && Named(env) && ElemType(t).StructType? && ElemType(t).name in env
    requires i < |env[ElemType(t).name]|
    requires var f := env[ElemType(t).name][i];
             && ElementType(ElemType(f.fieldType)).Some?
             && e in OneFieldErrors(env, known, f, path, depth)
    ensures e.token !in known && Explains(env, t, path, depth, e, route)
    decreases MAX_DEPTH + 1 - depth, 0
  {
    var f := env[ElemType(t).name][i];
    var (tokens, dive) := ParseTag(f.tag);
    ParseTagExactly(f.tag, dive, tokens);
    var elem := ElementType(ElemType(f.fieldType)).value;
    var at := FieldPath(path, f.name) + "[]";
    assert e in FieldErrors(env, known, elem, at, tokens, false, depth + 1);
    if ElemType(elem).StringType? {
      TokenErrorsHave(known, at, tokens, e);
      UnderOne(path, f.name);
      UnderOne(path, f.name + "[]");
      route := [i];
      assert NamesOn(env, t, route) == [f.name + "[]"];
    } else {
      var rest := ErrorHasRoute(env, known, ElemType(elem), at, depth + 2, e);
      route := [i] + rest;
      assert route[1..] == rest;
      RouteStep(env, t, path, depth, e, route, ElemType(elem), at, depth + 2);
    }
  }

  lemma {:induction false} RouteIsError(env: Env, known: set<string>, t: Type, path: string, depth: nat,
                                        route: seq<nat>, token: string)
    requires depth <= MAX_DEPTH + 1 && Named(env) && Asks(env, t, route, depth, token) && token !in known
    ensures NamesOn(env, t, route) != []
    ensures Unknown(Under(path, NamesOn(env, t, route)), token) in TypeErrors(env, known, t, path, depth)
    decreases |route|, 1
  {
    var fields, i := env[ElemType(t).name], route[0];
    var f := fields[i];
    var below := ElemType(f.fieldType);
    var e := Unknown(Under(path, NamesOn(env, t, route)), token);
    if below.StringType? {
      var dive, tokens :| Lists(f.tag, dive, tokens) && token in tokens;
      ParseTagExactly(f.tag, dive, tokens);
      UnderOne(path, f.name);
      TokenErrorsHave(known, FieldPath(path, f.name), tokens, e);
      assert NamesOn(env, t, route) == [f.name];
    } else if below.StructType? {
      RouteIsError(env, known, below, FieldPath(path, f.name), depth + 1, route[1..], token);
      UnderCons(path, f.name, NamesOn(env, below, route[1..]));
      assert NamesOn(env, t, route) == [f.name] + NamesOn(env, below, route[1..]);
      assert e in TypeErrors(env, known, below, FieldPath(path, f.name), depth + 1);
      assert e in OneFieldErrors(env, known, f, path, depth);
    } else {
      ElementRouteIsError(env, known, t, path, depth, route, token);
    }
    ErrorOfField(env, known, fields, path, depth, e, i);
  }

  lemma ContainerErrors(env: Env, known: set<string>, f: FieldType, tokens: seq<string>, path: string, depth: nat)
    requires depth < 16 && ElementType(ElemType(f.fieldType)).Some? && Lists(f.tag, true, tokens)
    ensures OneFieldErrors(env, known, f, path, depth)
            == FieldErrors(env, known, ElementType(ElemType(f.fieldType)).value, FieldPath(path, f.name) + "[]", tokens,
                           false, depth + 1)
  {
    ParseTagExactly(f.tag, true, tokens);
  }

  lemma NamesBelow(env: Env, t: Type, route: seq<nat>)
    requires route != [] && ElemType(t).StructType? && ElemType(t).name in env && route[0] < |env[ElemType(t).name]|
    requires ElementType(ElemType(env[ElemType(t).name][route[0]].fieldType)).Some?
    ensures var f := env[ElemType(t).name][route[0]];
            NamesOn(env, t, route)
            == [f.name + "[]"] + NamesOn(env, ElemType(ElementType(ElemType(f.fieldType)).value), route[1..])
  {}

  lemma {:induction false} ElementRouteIsError(env: Env, known: set<string>, t: Type, path: string, depth: nat,
                                               route: seq<nat>, token: string)
    requires Named(env) && Asks(env, t, route, depth, token) && token !in known
    requires ElementType(ElemType(env[ElemType(t).name][route[0]].fieldType)).Some?
    ensures NamesOn(env, t, route) != []
    ensures Unknown(Under(path, NamesOn(env, t, route)), token)
            in OneFieldErrors(env, known, env[ElemType(t).name][route[0]], path, depth)
    decreases |route|, 0
  {
    var f := env[ElemType(t).name][route[0]];
    var elem := ElementType(ElemType(f.fieldType)).value;
    var at := FieldPath(path, f.name) + "[]";
    var e := Unknown(Under(path, NamesOn(env, t, route)), token);
    var tokens :| Lists(f.tag, true, tokens) && AsksElement(env, ElemType(elem), tokens, route, depth, token);
    ContainerErrors(env, known, f, tokens, path, depth);
    NamesBelow(env, t, route);
    UnderOne(path, f.name);
    UnderOne(path, f.name + "[]");
    if ElemType(elem).StringType? {
      TokenErrorsHave(known, at, tokens, e);
    } else {
      RouteIsError(env, known, ElemType(elem), at, depth + 2, route[1..], token);
      UnderCons(path, f.name + "[]", NamesOn(env, ElemType(elem), route[1..]));
      assert e in TypeErrors(env, known, ElemType(elem), at, depth + 2);
    }
    assert e in FieldErrors(env, known, elem, at, tokens, false, depth + 1);
  }

  /** The error is for a token that the route asks for, at the names of the fields on the route. */
  ghost predicate Reports(env: Env, t: Type, route: seq<nat>, e: Unknown) {
    Asks(env, t, route, 0, e.token) && e.path == Join(NamesOn(env, t, route), ".")
  }

  /** What the check reports for a type: exactly the unregistered tokens of the tags that some route
      within the depth limit reaches, each at the names of the fields on its route. */
  lemma TypeErrorsExactly(env: Env, known: set<string>, t: Type, e: Unknown)
    requires Named(env)
    ensures e in TypeErrors(env, known, t, "", 0)
            <==> e.token !in known && exists route: seq<nat> :: Reports(env, t, route, e)
  {
    if e in TypeErrors(env, known, t, "", 0) {
      var route := ErrorHasRoute(env, known, t, "", 0, e);
      assert Reports(env, t, route, e);
    }
    if e.token !in known && exists route: seq<nat> :: Reports(env, t, route, e) {
      var route: seq<nat> :| Reports(env, t, route, e);
      RouteIsError(env, known, t, "", 0, route, e.token);
    }
  }

  /** Some route asks for the token. */
  ghost predicate IsAsked(env: Env, t: Type, token: string) {
    exists route: seq<nat> :: Asks(env, t, route, 0, token)
  }

  /** A type is accepted exactly when every token that some route asks for is registered. */
  lemma AcceptedExactly(env: Env, known: set<string>, t: Type)
    requires Named(env)
    ensures TypeErrors(env, known, t, "", 0) == [] <==> forall token | IsAsked(env, t, token) :: token in known
  {
    var errors := TypeErrors(env, known, t, "", 0);
    if errors != [] {
      var route := ErrorHasRoute(env, known, t, "", 0, errors[0]);
      assert IsAsked(env, t, errors[0].token);
    }
    forall token | IsAsked(env, t, token) && token !in known ensures errors != [] {
      var route: seq<nat> :| Asks(env, t, route, 0, token);
      RouteIsError(env, known, t, "", 0, route, token);
    }
  }
}
