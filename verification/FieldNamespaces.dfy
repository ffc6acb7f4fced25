/** When two locations of a request value can have one namespace: the field map keeps a single entry
    for each namespace, so this says exactly which map keys can make it lose one. */
module FieldNamespaces {
  import opened Strings
  import opened JsonPointer
  import opened FieldMap
  import opened FieldLocations

  // ------------------------------------------------------------- names and map keys

  const DELIMITERS := {'.', '[', ']'}

  /** The letters and decimal digits of Unicode, of which only those outside ASCII are asked for. */
  datatype Unicode = Unicode(isLetter: char -> bool, isDigit: char -> bool)

  const KEYWORDS := {
    "break", "case", "chan", "const", "continue", "default", "defer", "else", "fallthrough", "for", "func", "go",
    "goto", "if", "import", "interface", "map", "package", "range", "return", "select", "struct", "switch", "type",
    "var"}

  predicate IsLetter(u: Unicode, c: char) {
    'a' <= c <= 'z' || 'A' <= c <= 'Z' || c == '_' || (c > '\U{007F}' && u.isLetter(c))
  }

  predicate IsDigit(u: Unicode, c: char) {
    '0' <= c <= '9' || (c > '\U{007F}' && u.isDigit(c))
  }

  /** A Go field name: an identifier that is no keyword. */
  predicate IsName(u: Unicode, s: string) {
    && s != "" && IsLetter(u, s[0]) && s !in KEYWORDS
    && forall i | 0 <= i < |s| :: IsLetter(u, s[i]) || IsDigit(u, s[i])
  }

  /** It holds none of the characters that a namespace puts between names. */
  lemma NameIsPlain(u: Unicode, s: string)
    requires IsName(u, s)
    ensures forall i | 0 <= i < |s| :: s[i] !in DELIMITERS
  {}

  /** How much of a text comes before the first stop character. */
  function UntilStop(s: string, stops: set<char>): (n: nat)
    ensures n <= |s|
  {
    if s == "" || s[0] in stops then 0 else 1 + UntilStop(s[1..], stops)
  }

  /** Any number of field names, each after a dot. */
  predicate IsDotted(u: Unicode, s: string) {
    s == "" ||
    (s[0] == '.' && IsName(u, s[1..1 + UntilStop(s[1..], DELIMITERS)])
     && IsDotted(u, s[1 + UntilStop(s[1..], DELIMITERS)..]))
  }

  /** The key spells out, somewhere, the end of one key, a way through named fields, and the start
      of another key: "][", "].Name[", "].Name.Name[", and so on. */
  predicate Ambiguous(u: Unicode, key: string) {
    exists i, j | 0 <= i < j < |key| :: AmbiguousAt(u, key, i, j)
  }

  predicate AmbiguousAt(u: Unicode, key: string, i: int, j: int) {
    0 <= i < j < |key| && key[i] == ']' && key[j] == '[' && IsDotted(u, key[i + 1..j])
  }

  /** Field names are names, distinct in each struct, and map keys are distinct in each map. */
  predicate Named(u: Unicode, v: Value)
    decreases v
  {
    match v
    case Ptr(target) => Named(u, target)
    case Struct(fields) =>
      && (forall i | 0 <= i < |fields| :: IsName(u, fields[i].name) && Named(u, fields[i].value))
      && (forall i, j | 0 <= i < j < |fields| :: fields[i].name != fields[j].name)
    case List(items) => forall i | 0 <= i < |items| :: Named(u, items[i])
    case Mapping(entries) =>
      && (forall i | 0 <= i < |entries| :: Named(u, entries[i].value))
      && (forall i, j | 0 <= i < j < |entries| :: entries[i].key != entries[j].key)
    case _ => true
  }

  /** No map key is ambiguous, but for these. */
  predicate Clear(u: Unicode, v: Value, odd: set<string>)
    decreases v
  {
    match v
    case Ptr(target) => Clear(u, target, odd)
    case Struct(fields) => forall i | 0 <= i < |fields| :: Clear(u, fields[i].value, odd)
    case List(items) => forall i | 0 <= i < |items| :: Clear(u, items[i], odd)
    case Mapping(entries) =>
      forall i | 0 <= i < |entries| :: (Ambiguous(u, entries[i].key) ==>
          entries[i].key in odd) && Clear(u, entries[i].value, odd)
    case _ => true
  }

  lemma {:induction false} DerefNamed(u: Unicode, v: Value)
    ensures Named(u, v) ==> Named(u, Deref(v))
    ensures Clear(u, v, {}) ==> Clear(u, Deref(v), {})
  {
    if v.Ptr? { DerefNamed(u, v.target); }
  }

  /** Pardoning keys that are not ambiguous anyway pardons nothing. */
  lemma {:induction false} ClearAnyway(u: Unicode, v: Value, odd: set<string>)
    requires Clear(u, v, odd) && forall k | k in odd :: !Ambiguous(u, k)
    ensures Clear(u, v, {})
  {
    match v
    case Ptr(target) => ClearAnyway(u, target, odd);
    case Struct(fields) =>
      forall i | 0 <= i < |fields| ensures Clear(u, fields[i].value, {}) { ClearAnyway(u, fields[i].value, odd); }
    case List(items) => forall i | 0 <= i < |items| ensures Clear(u, items[i], {}) { ClearAnyway(u, items[i], odd); }
    case Mapping(entries) =>
      forall i | 0 <= i < |entries| ensures Clear(u, entries[i].value, {}) { ClearAnyway(u, entries[i].value, odd); }
    case _ =>
  }

  // ------------------------------------------------------------------ the types of Go

  /** A type by its structure; a recursive one is unrolled as far as the value reaches. */
  datatype GoType =
    | Plain
    | Pointer(target: GoType)
    | Record(fields: seq<FieldType>)
    | Sequence(item: GoType)
    | MapOf(value: GoType)

  datatype FieldType = FieldType(name: string, tags: Tags, value: GoType)

  /** The elements of a list have one type, and so have the values of a map. */
  predicate HasType(v: Value, t: GoType)
    decreases v
  {
    match v
    case Scalar(_) => t.Plain?
    case Nil => t.Pointer? || t.Sequence? || t.MapOf?
    case Ptr(target) => t.Pointer? && HasType(target, t.target)
    case Struct(fields) =>
      && t.Record? && |fields| == |t.fields|
      && forall i | 0 <= i < |fields| ::
           && fields[i].name == t.fields[i].name && fields[i].tags == t.fields[i].tags
           && HasType(fields[i].value, t.fields[i].value)
    case List(items) => t.Sequence? && forall i | 0 <= i < |items| :: HasType(items[i], t.item)
    case Mapping(entries) => t.MapOf? && forall i | 0 <= i < |entries| :: HasType(entries[i].value, t.value)
  }

  ghost predicate Typable(v: Value) {
    exists t :: HasType(v, t)
  }

  // ----------------------------------------------- a namespace is the trail of its path

  /** What child i adds to a namespace. */
  function Suffix(v: Value, i: nat): string {
    match Deref(v)
    case Struct(fields) => if i < |fields| then "." + fields[i].name else ""
    case Mapping(entries) => if i < |entries| then "[" + entries[i].key + "]" else ""
    case _ => "[" + Digits(i) + "]"
  }

  function Trail(v: Value, path: seq<nat>): string
    decreases |path|
  {
    if path == [] then ""
    else
      var below := match Hop(v, path[0], "", "")
        case None => ""
        case Some(s) => Trail(s.value, path[1..]);
      Suffix(v, path[0]) + below
  }

  lemma HopNames(u: Unicode, v: Value, i: nat, namespace: string, pointer: string)
    requires Hop(v, i, namespace, pointer).Some?
    ensures var s := Hop(v, i, namespace, pointer).value;
            && (namespace != "" ==> s.namespace == namespace + Suffix(v, i))
            && (namespace == "" && Deref(v).Struct? ==> "." + s.namespace == Suffix(v, i))
            && (Named(u, Deref(v)) ==> s.namespace != "")
  {
    match Deref(v)
    case Struct(fields) => assert namespace + ("." + fields[i].name) == namespace + "." + fields[i].name;
    case List(_) => Regroup3(namespace, "[", Digits(i), "]");
    case Mapping(entries) => Regroup3(namespace, "[", entries[i].key, "]");
    case _ =>
  }

  lemma Regroup3(a: string, b: string, c: string, d: string)
    ensures a + (b + c + d) == a + b + c + d
  {}

  lemma HopKeeps(u: Unicode, v: Value, i: nat)
    requires Hop(v, i, "", "").Some?
    ensures Named(u, Deref(v)) ==> Named(u, Hop(v, i, "", "").value.value)
    ensures Clear(u, Deref(v), {}) ==> Clear(u, Hop(v, i, "", "").value.value, {})
  {}

  lemma HopExtends(u: Unicode, v: Value, i: nat, namespace: string, pointer: string)
    requires Named(u, v) && Hop(v, i, namespace, pointer).Some?
    ensures var s := Hop(v, i, namespace, pointer).value;
            && Named(u, s.value) && s.namespace != ""
            && (namespace != "" ==> s.namespace == namespace + Suffix(v, i))
            && (namespace == "" && Deref(v).Struct? ==> "." + s.namespace == Suffix(v, i))
            && (Clear(u, v, {}) ==> Clear(u, s.value, {}))
  {
    DerefNamed(u, v);
    HopIgnoresNames(v, i, namespace, pointer);
    HopNames(u, v, i, namespace, pointer);
    HopKeeps(u, v, i);
  }

  lemma TrailStep(v: Value, path: seq<nat>, namespace: string, pointer: string)
    requires path != [] && Hop(v, path[0], namespace, pointer).Some?
    ensures Trail(v, path) == Suffix(v, path[0]) + Trail(Hop(v, path[0], namespace, pointer).value.value, path[1..])
  {
    HopIgnoresNames(v, path[0], namespace, pointer);
  }

  lemma {:induction false} NamespaceIsTrail(u: Unicode, v: Value, path: seq<nat>, namespace: string, pointer: string)
    requires path != [] && Named(u, v) && namespace != "" && Locate(v, path, namespace, pointer).Some?
    ensures Locate(v, path, namespace, pointer).value.namespace == namespace + Trail(v, path)
    decreases |path|
  {
    HopExtends(u, v, path[0], namespace, pointer);
    TrailStep(v, path, namespace, pointer);
    var hop := Hop(v, path[0], namespace, pointer).value;
    if |path| == 1 {
      LocateHere(v, path, namespace, pointer);
      assert Suffix(v, path[0]) + "" == Suffix(v, path[0]);
    } else {
      LocateBelow(v, path, namespace, pointer);
      NamespaceIsTrail(u, hop.value, path[1..], hop.namespace, hop.source.field);
      Regroup(namespace, Suffix(v, path[0]), Trail(hop.value, path[1..]));
    }
  }

  lemma RootNamespaceIsTrail(u: Unicode, root: Value, path: seq<nat>)
    requires path != [] && Named(u, root) && Deref(root).Struct? && Locate(root, path, "", "").Some?
    ensures "." + Locate(root, path, "", "").value.namespace == Trail(root, path)
  {
    HopExtends(u, root, path[0], "", "");
    TrailStep(root, path, "", "");
    var hop := Hop(root, path[0], "", "").value;
    if |path| == 1 {
      LocateHere(root, path, "", "");
      assert Suffix(root, path[0]) + "" == Suffix(root, path[0]);
    } else {
      LocateBelow(root, path, "", "");
      NamespaceIsTrail(u, hop.value, path[1..], hop.namespace, hop.source.field);
      Regroup(".", hop.namespace, Trail(hop.value, path[1..]));
    }
  }

  // ------------------------------------------------------------- reading a trail back

  lemma {:induction false} UntilStopAt(a: string, x: string, stops: set<char>)
    requires forall i | 0 <= i < |a| :: a[i] !in stops
    requires x == "" || x[0] in stops
    ensures UntilStop(a + x, stops) == |a|
  {
    if a == "" {
      assert a + x == x;
    } else {
      assert (a + x)[1..] == a[1..] + x;
      UntilStopAt(a[1..], x, stops);
    }
  }

  /** Two texts cut at their first stop character. */
  lemma CutAtStop(a: string, b: string, x: string, y: string, stops: set<char>)
    requires a + x == b + y
    requires forall i | 0 <= i < |a| :: a[i] !in stops
    requires forall i | 0 <= i < |b| :: b[i] !in stops
    requires (x == "" || x[0] in stops) && (y == "" || y[0] in stops)
    ensures a == b && x == y
  {
    UntilStopAt(a, x, stops);
    UntilStopAt(b, y, stops);
    assert a == (a + x)[..|a|] && b == (b + y)[..|b|];
    assert x == (a + x)[|a|..] && y == (b + y)[|b|..];
  }

  /** A trail is a way through named fields, and then it ends or a bracket opens. */
  predicate StartsDotted(u: Unicode, x: string, n: nat) {
    n <= |x| && IsDotted(u, x[..n]) && (n == |x| || x[n] == '[')
  }

  lemma DottedCons(u: Unicode, name: string, rest: string)
    requires IsName(u, name) && IsDotted(u, rest)
    ensures IsDotted(u, "." + name + rest)
  {
    var s := "." + name + rest;
    assert s[1..] == name + rest;
    UntilStopAt(name, rest, DELIMITERS);
    assert s[1 + |name|..] == rest;
  }

  lemma {:induction false} UntilStopNoBracket(s: string)
    ensures forall i | 0 <= i < UntilStop(s, DELIMITERS) :: s[i] !in DELIMITERS
  {
    if s != "" && s[0] !in DELIMITERS { UntilStopNoBracket(s[1..]); }
  }

  lemma {:induction false} DottedHasNoBracket(u: Unicode, s: string)
    requires IsDotted(u, s)
    ensures '[' !in s && ']' !in s
  {
    if s != "" {
      var n := UntilStop(s[1..], DELIMITERS);
      UntilStopNoBracket(s[1..]);
      DottedHasNoBracket(u, s[1 + n..]);
      assert s == [s[0]] + s[1..][..n] + s[1 + n..];
    }
  }

  /** A path that leads somewhere all the way down. */
  predicate Leading(v: Value, path: seq<nat>)
    decreases |path|
  {
    path == [] || (Hop(v, path[0], "", "").Some? && Leading(Hop(v, path[0], "", "").value.value, path[1..]))
  }

  lemma {:induction false} LocatedLeads(v: Value, path: seq<nat>, namespace: string, pointer: string)
    requires path != [] && Locate(v, path, namespace, pointer).Some?
    ensures Leading(v, path)
    decreases |path|
  {
    HopIgnoresNames(v, path[0], namespace, pointer);
    var hop := Hop(v, path[0], namespace, pointer).value;
    if |path| > 1 { LocatedLeads(hop.value, path[1..], hop.namespace, hop.source.field); }
  }

  lemma NameStartsDotted(u: Unicode, name: string, below: string, m: nat)
    requires IsName(u, name) && StartsDotted(u, below, m)
    ensures StartsDotted(u, "." + name + below, 1 + |name| + m)
  {
    DottedCons(u, name, below[..m]);
    assert ("." + name + below)[..1 + |name| + m] == "." + name + below[..m];
  }

  lemma FieldStartsDotted(u: Unicode, v: Value, i: nat, below: string, m: nat) returns (n: nat)
    requires Named(u, v) && Hop(v, i, "", "").Some? && Deref(v).Struct? && StartsDotted(u, below, m)
    ensures StartsDotted(u, Suffix(v, i) + below, n)
  {
    var name := FieldName(u, v, i);
    n := 1 + |name| + m;
    NameStartsDotted(u, name, below, m);
    assert Suffix(v, i) + below == "." + name + below;
  }

  lemma FieldName(u: Unicode, v: Value, i: nat) returns (name: string)
    requires Named(u, v) && Hop(v, i, "", "").Some? && Deref(v).Struct?
    ensures IsName(u, name) && Suffix(v, i) == "." + name
  {
    DerefNamed(u, v);
    name := Deref(v).fields[i].name;
  }

  lemma BracketStarts(v: Value, i: nat)
    requires Hop(v, i, "", "").Some? && !Deref(v).Struct?
    ensures Suffix(v, i) != "" && Suffix(v, i)[0] == '['
  {}

  lemma {:induction false} TrailStartsDotted(u: Unicode, v: Value, path: seq<nat>) returns (n: nat)
    requires Named(u, v) && Leading(v, path)
    ensures StartsDotted(u, Trail(v, path), n)
    decreases |path|
  {
    n := 0;
    if path != [] {
      var hop := Hop(v, path[0], "", "").value;
      TrailStep(v, path, "", "");
      HopExtends(u, v, path[0], "", "");
      if Deref(v).Struct? {
        var m := TrailStartsDotted(u, hop.value, path[1..]);
        n := FieldStartsDotted(u, v, path[0], Trail(hop.value, path[1..]), m);
      } else {
        BracketStarts(v, path[0]);
      }
    }
  }

  lemma StartIsDelimiter(u: Unicode, x: string, n: nat)
    requires StartsDotted(u, x, n)
    ensures x == "" || x[0] in {'.', '['}
  {
    if n > 0 { assert x[0] == x[..n][0]; }
  }

  lemma DotTells(u: Unicode, a: string, b: string, x: string, y: string)
    requires "." + a + x == "." + b + y
    requires IsName(u, a) && IsName(u, b)
    requires (x == "" || x[0] in {'.', '['}) && (y == "" || y[0] in {'.', '['})
    ensures a == b && x == y
  {
    assert ("." + a + x)[1..] == a + x && ("." + b + y)[1..] == b + y;
    CutAtStop(a, b, x, y, DELIMITERS);
  }

  /** Where a longer key reads like a shorter one and the trail below it, it is ambiguous. */
  lemma LongerIsAmbiguous(u: Unicode, a: string, b: string, x: string, n: nat, y: string)
    requires a + "]" + x == b + "]" + y && |a| < |b| && StartsDotted(u, x, n)
    ensures Ambiguous(u, b)
  {
    var whole, i, j := a + "]" + x, |a|, |a| + 1 + n;
    assert whole[|b|] == (b + "]" + y)[|b|] == ']';
    DottedHasNoBracket(u, x[..n]);
    var m := |b| - |a| - 1;
    assert x[m] == whole[|b|] == ']';
    forall k | 0 <= k < n ensures x[k] != ']' {
      assert x[..n][k] in x[..n];
    }
    assert b[i] == whole[i] == ']' && b[j] == whole[j] == x[n] == '[';
    assert b[i + 1..j] == whole[i + 1..j] == x[..n];
    assert AmbiguousAt(u, b, i, j);
  }

  lemma BracketTells(u: Unicode, a: string, b: string, x: string, n: nat, y: string, m: nat)
    requires "[" + a + "]" + x == "[" + b + "]" + y
    requires !Ambiguous(u, a) && !Ambiguous(u, b) && StartsDotted(u, x, n) && StartsDotted(u, y, m)
    ensures a == b && x == y
  {
    assert ("[" + a + "]" + x)[1..] == a + "]" + x && ("[" + b + "]" + y)[1..] == b + "]" + y;
    if |a| < |b| {
      LongerIsAmbiguous(u, a, b, x, n, y);
    } else if |b| < |a| {
      LongerIsAmbiguous(u, b, a, y, m, x);
    } else {
      assert a == (a + "]" + x)[..|a|] && b == (b + "]" + y)[..|b|];
      assert x == (a + "]" + x)[|a| + 1..] && y == (b + "]" + y)[|b| + 1..];
    }
  }

  lemma DigitsAreClear(u: Unicode, n: nat)
    ensures !Ambiguous(u, Digits(n))
  {
    DigitsAreIndex(n);
  }

  /** Where the suffixes of two children are followed by trails, equal texts mean the same child and
      the same remainder. */
  lemma SuffixTellsChild(u: Unicode, v: Value, i: nat, j: nat, x: string, n: nat, y: string, m: nat)
    requires Named(u, v) && Clear(u, v, {}) && Hop(v, i, "", "").Some? && Hop(v, j, "", "").Some?
    requires Suffix(v, i) + x == Suffix(v, j) + y
    requires StartsDotted(u, x, n) && StartsDotted(u, y, m)
    ensures i == j && x == y
  {
    DerefNamed(u, v);
    match Deref(v)
    case Struct(fields) =>
      StartIsDelimiter(u, x, n);
      StartIsDelimiter(u, y, m);
      DotTells(u, fields[i].name, fields[j].name, x, y);
    case List(_) =>
      DigitsAreIndex(i);
      DigitsAreIndex(j);
      DigitsAreClear(u, i);
      DigitsAreClear(u, j);
      BracketTells(u, Digits(i), Digits(j), x, n, y, m);
    case Mapping(entries) => BracketTells(u, entries[i].key, entries[j].key, x, n, y, m);
    case _ =>
  }

  lemma LeadingTrailIsText(v: Value, path: seq<nat>)
    requires Leading(v, path)
    ensures Trail(v, path) == "" <==> path == []
  {}

  lemma {:induction false} TrailsTellPaths(u: Unicode, v: Value, p: seq<nat>, q: seq<nat>)
    requires Named(u, v) && Clear(u, v, {}) && Leading(v, p) && Leading(v, q) && Trail(v, p) == Trail(v, q)
    ensures p == q
    decreases |p|
  {
    LeadingTrailIsText(v, p);
    LeadingTrailIsText(v, q);
    if p != [] {
      var a, b := Hop(v, p[0], "", "").value, Hop(v, q[0], "", "").value;
      TrailStep(v, p, "", "");
      TrailStep(v, q, "", "");
      HopExtends(u, v, p[0], "", "");
      HopExtends(u, v, q[0], "", "");
      var n := TrailStartsDotted(u, a.value, p[1..]);
      var m := TrailStartsDotted(u, b.value, q[1..]);
      SuffixTellsChild(u, v, p[0], q[0], Trail(a.value, p[1..]), n, Trail(b.value, q[1..]), m);
      TrailsTellPaths(u, a.value, p[1..], q[1..]);
      assert p == [p[0]] + p[1..] && q == [q[0]] + q[1..];
    }
  }

  lemma NamespacesTellPaths(u: Unicode, root: Value, p: seq<nat>, q: seq<nat>)
    requires Deref(root).Struct? && Named(u, root) && Clear(u, root, {}) && p != [] && q != []
    requires Locate(root, p, "", "").Some? && Locate(root, q, "", "").Some?
    requires Locate(root, p, "", "").value.namespace == Locate(root, q, "", "").value.namespace
    ensures p == q
  {
    RootNamespaceIsTrail(u, root, p);
    RootNamespaceIsTrail(u, root, q);
    LocatedLeads(root, p, "", "");
    LocatedLeads(root, q, "", "");
    TrailsTellPaths(u, root, p, q);
  }

  /** When no map key is ambiguous, the map has an entry for a location exactly when the depth limit
      lets the walk reach it, and the entry is that location's own source. */
  lemma FieldMapExactly(u: Unicode, root: Value, path: seq<nat>)
    requires Deref(root).Struct? && Named(u, root) && Clear(u, root, {})
    requires path != [] && Locate(root, path, "", "").Some?
    ensures var s := Locate(root, path, "", "").value;
            && (s.namespace in FieldMapOf(root) <==> Reached(root, path, 0))
            && (Reached(root, path, 0) ==> FieldMapOf(root)[s.namespace] == s.source)
            && (|path| <= MAX_DEPTH ==> s.namespace in FieldMapOf(root))
  {
    var s := Locate(root, path, "", "").value;
    EntriesAreLocations(root);
    if |path| <= MAX_DEPTH { ShortPathsAreReached(root, path, 0); }
    if s.namespace in FieldMapOf(root) {
      var w := (s.namespace, FieldMapOf(root)[s.namespace]);
      assert Justified(root, w, "", "", 0);
      var other: seq<nat> :| other != [] && Leads(root, other, w, "", "", 0);
      NamespacesTellPaths(u, root, path, other);
    }
  }

  // ------------------------------------------- an ambiguous key, spelled out by other keys

  const BODY_TAGS := Tags("", "", "", "x")

  /** The value under a way through named fields. */
  function Nest(u: Unicode, d: string, v: Value): Value
    requires IsDotted(u, d)
  {
    if d == "" then v
    else
      var n := UntilStop(d[1..], DELIMITERS);
      Struct([Field(d[1..1 + n], BODY_TAGS, Nest(u, d[1 + n..], v))])
  }

  function NestPath(u: Unicode, d: string, path: seq<nat>): seq<nat>
    requires IsDotted(u, d)
  {
    if d == "" then path else [0] + NestPath(u, d[1 + UntilStop(d[1..], DELIMITERS)..], path)
  }

  /** A body location wherever the value stands. */
  ghost predicate Locatable(v: Value, path: seq<nat>)
    requires path != []
  {
    forall namespace, pointer :: BodyAt(v, path, namespace, pointer)
  }

  predicate BodyAt(v: Value, path: seq<nat>, namespace: string, pointer: string)
    requires path != []
  {
    Locate(v, path, namespace, pointer).Some? && Locate(v, path, namespace, pointer).value.source.location.Body?
  }

  /** What the construction keeps: a value without ambiguous keys, and one body location in it. */
  ghost predicate Sound(u: Unicode, v: Value, path: seq<nat>) {
    && Named(u, v) && Clear(u, v, {}) && WellTagged(v) && Typable(v)
    && path != [] && Locatable(v, path) && Leading(v, path)
  }

  lemma HopIsSound(u: Unicode, v: Value, rest: seq<nat>)
    requires Named(u, v) && Clear(u, v, {}) && WellTagged(v) && Typable(v) && Hop(v, 0, "", "").Some?
    requires Hop(v, 0, "", "").value.source.location.Body?
    requires rest == [] || Sound(u, Hop(v, 0, "", "").value.value, rest)
    ensures Sound(u, v, [0] + rest)
  {
    assert ([0] + rest)[1..] == rest;
    forall namespace, pointer ensures BodyAt(v, [0] + rest, namespace, pointer) {
      HopIgnoresNames(v, 0, namespace, pointer);
      var hop := Hop(v, 0, namespace, pointer).value;
      if rest != [] { assert BodyAt(hop.value, rest, hop.namespace, hop.source.field); }
    }
  }

  lemma BodyTagsAreWell()
    ensures Rendered(BODY_TAGS) && Told(BODY_TAGS)
  {
    assert "x"[1..] == "" && TagName("x") == "x";
  }

  lemma FieldIsTypable(name: string, v: Value)
    requires Typable(v)
    ensures Typable(Struct([Field(name, BODY_TAGS, v)]))
  {
    var t :| HasType(v, t);
    assert HasType(Struct([Field(name, BODY_TAGS, v)]), Record([FieldType(name, BODY_TAGS, t)]));
  }

  /** One more struct around a value. */
  lemma FieldIsSound(u: Unicode, name: string, v: Value, path: seq<nat>)
    requires IsName(u, name) && Sound(u, v, path)
    ensures var s := Struct([Field(name, BODY_TAGS, v)]);
            Sound(u, s, [0] + path) && Trail(s, [0] + path) == "." + name + Trail(v, path)
  {
    var s := Struct([Field(name, BODY_TAGS, v)]);
    BodyTagsAreWell();
    FieldIsTypable(name, v);
    HopIsSound(u, s, path);
    TrailStep(s, [0] + path, "", "");
    assert ([0] + path)[1..] == path;
  }

  lemma FirstName(u: Unicode, d: string)
    requires IsDotted(u, d) && d != ""
    ensures var n := UntilStop(d[1..], DELIMITERS);
            IsName(u, d[1..1 + n]) && d == "." + d[1..1 + n] + d[1 + n..]
  {
    var n := UntilStop(d[1..], DELIMITERS);
    assert d[1..1 + n] == d[1..][..n];
    CutAfterFirst(d, n);
  }

  lemma CutAfterFirst(d: string, n: nat)
    requires d != "" && d[0] == '.' && 1 + n <= |d|
    ensures d == "." + d[1..1 + n] + d[1 + n..]
  {}

  lemma {:induction false} NestIsSound(u: Unicode, d: string, v: Value, path: seq<nat>)
    requires IsDotted(u, d) && Sound(u, v, path)
    ensures Sound(u, Nest(u, d, v), NestPath(u, d, path))
    ensures Trail(Nest(u, d, v), NestPath(u, d, path)) == d + Trail(v, path)
  {
    if d == "" {
      assert d + Trail(v, path) == Trail(v, path);
    } else {
      var n := UntilStop(d[1..], DELIMITERS);
      var name, rest := d[1..1 + n], d[1 + n..];
      FirstName(u, d);
      NestIsSound(u, rest, v, path);
      FieldIsSound(u, name, Nest(u, rest, v), NestPath(u, rest, path));
      Regroup("." + name, rest, Trail(v, path));
    }
  }

  /** The first place at which a key is ambiguous: nothing before it is. */
  lemma FirstPlace(u: Unicode, key: string) returns (i: nat, j: nat)
    requires Ambiguous(u, key)
    ensures AmbiguousAt(u, key, i, j) && !Ambiguous(u, key[..i])
    decreases |key|
  {
    i, j :| 0 <= i < j < |key| && AmbiguousAt(u, key, i, j);
    if Ambiguous(u, key[..i]) {
      var n := i;
      i, j := FirstPlace(u, key[..n]);
      PlaceInPrefix(u, key, n, i, j);
    }
  }

  lemma PlaceInPrefix(u: Unicode, key: string, n: nat, i: nat, j: nat)
    requires n <= |key| && AmbiguousAt(u, key[..n], i, j)
    ensures AmbiguousAt(u, key, i, j) && key[..n][..i] == key[..i]
  {
    assert key[i + 1..j] == key[..n][i + 1..j];
  }

  lemma OneEntry(u: Unicode, key: string, v: Value, rest: seq<nat>)
    requires !Ambiguous(u, key) && Named(u, v) && Clear(u, v, {}) && WellTagged(v) && Typable(v)
    requires rest == [] || Sound(u, v, rest)
    ensures var m := Mapping([Entry(key, v)]);
            Sound(u, m, [0] + rest) && Trail(m, [0] + rest) == "[" + key + "]" + Trail(v, rest)
  {
    var m := Mapping([Entry(key, v)]);
    var t :| HasType(v, t);
    assert HasType(m, MapOf(t));
    HopIsSound(u, m, rest);
    TrailStep(m, [0] + rest, "", "");
    assert ([0] + rest)[1..] == rest;
  }

  lemma KeySplits(key: string, i: nat, j: nat)
    requires i < j < |key| && key[i] == ']' && key[j] == '['
    ensures "[" + key[..i] + "]" + (key[i + 1..j] + ("[" + key[j + 1..] + "]")) == "[" + key + "]"
  {
    assert key == key[..i] + "]" + key[i + 1..j] + "[" + key[j + 1..];
  }

  /** A key cut at its first ambiguous place, when the rest of it has been spelled out. */
  lemma CutKey(u: Unicode, key: string, i: nat, j: nat, inner: Value, rest: seq<nat>)
    returns (first: Entry, path: seq<nat>)
    requires AmbiguousAt(u, key, i, j) && !Ambiguous(u, key[..i])
    requires Sound(u, inner, rest) && Trail(inner, rest) == "[" + key[j + 1..] + "]"
    ensures Sound(u, Mapping([first]), [0] + path) && Trail(Mapping([first]), [0] + path) == "[" + key + "]"
    ensures path != [] && Sound(u, first.value, path) && |first.key| < |key|
  {
    NestIsSound(u, key[i + 1..j], inner, rest);
    path := NestPath(u, key[i + 1..j], rest);
    first := Entry(key[..i], Nest(u, key[i + 1..j], inner));
    OneEntry(u, key[..i], first.value, path);
    KeySplits(key, i, j);
  }

  /** Every key is spelled out by the trail of some value whose own keys are not ambiguous. */
  lemma {:induction false} SpelledOut(u: Unicode, key: string) returns (first: Entry, path: seq<nat>)
    ensures Sound(u, Mapping([first]), [0] + path) && Trail(Mapping([first]), [0] + path) == "[" + key + "]"
    ensures Ambiguous(u, key) ==> path != [] && Sound(u, first.value, path) && |first.key| < |key|
    decreases |key|
  {
    if !Ambiguous(u, key) {
      first, path := Entry(key, Scalar("")), [];
      assert HasType(Scalar(""), Plain);
      OneEntry(u, key, Scalar(""), []);
      assert "[" + key + "]" + "" == "[" + key + "]";
    } else {
      var i, j := FirstPlace(u, key);
      var second, rest := SpelledOut(u, key[j + 1..]);
      first, path := CutKey(u, key, i, j, Mapping([second]), [0] + rest);
    }
  }

  /** Two body locations of a value, whose keys are unambiguous but for this one, with one namespace
      and two sources: the field map can keep only one of them. */
  ghost predicate Clash(u: Unicode, root: Value, key: string, p: seq<nat>, q: seq<nat>) {
    && Deref(root).Struct? && Named(u, root) && WellTagged(root) && Typable(root) && Clear(u, root, {key})
    && p != [] && q != []
    && Locate(root, p, "", "").Some? && Locate(root, q, "", "").Some?
    && Locate(root, p, "", "").value.namespace == Locate(root, q, "", "").value.namespace
    && Locate(root, p, "", "").value.source != Locate(root, q, "", "").value.source
  }

  /** A field that holds a map of pointers: nil for the key, and what spells it out. */
  function Both(key: string, first: Entry): Value {
    Struct([Field("M", BODY_TAGS, Mapping([Entry(key, Nil), first]))])
  }

  lemma {:induction false} ClearMore(u: Unicode, v: Value, odd: set<string>)
    requires Clear(u, v, {})
    ensures Clear(u, v, odd)
  {
    match v
    case Ptr(target) => ClearMore(u, target, odd);
    case Struct(fields) =>
      forall i | 0 <= i < |fields| ensures Clear(u, fields[i].value, odd) { ClearMore(u, fields[i].value, odd); }
    case List(items) => forall i | 0 <= i < |items| ensures Clear(u, items[i], odd) { ClearMore(u, items[i], odd); }
    case Mapping(entries) =>
      forall i | 0 <= i < |entries| ensures Clear(u, entries[i].value, odd) { ClearMore(u, entries[i].value, odd); }
    case _ =>
  }

  lemma BothIsWell(u: Unicode, key: string, first: Entry)
    requires Named(u, first.value) && Clear(u, first.value, {}) && WellTagged(first.value) && !Ambiguous(u, first.key)
             && first.key != key
    ensures Named(u, Both(key, first)) && WellTagged(Both(key, first)) && Clear(u, Both(key, first), {key})
  {
    ClearMore(u, first.value, {key});
    BodyTagsAreWell();
  }

  lemma BothIsTold(key: string, first: Entry)
    ensures AllTold(Both(key, first), [0, 0])
  {
    BodyTagsAreWell();
    assert [0, 0][1..] == [0] && [0][1..] == [];
    assert AllTold(Mapping([Entry(key, Nil), first]), [0]);
  }

  lemma BothLocates(key: string, first: Entry, path: seq<nat>)
    requires path != [] && Locatable(first.value, path)
    ensures Locate(Both(key, first), [0, 0], "", "").Some?
            && Locate(Both(key, first), [0, 0], "", "").value.source.location.Body?
    ensures BodyAt(Both(key, first), [0, 1] + path, "", "")
  {
    var root := Both(key, first);
    BodyTagsAreWell();
    assert [0, 0][1..] == [0] && ([0, 1] + path)[1..] == [1] + path && ([1] + path)[1..] == path;
    var m := Hop(root, 0, "", "").value;
    var e := Hop(m.value, 1, m.namespace, m.source.field).value;
    assert BodyAt(first.value, path, e.namespace, e.source.field);
  }

  /** A pointer shows nothing of itself. */
  lemma PointsAtSame(u: Unicode, v: Value, path: seq<nat>)
    requires Sound(u, v, path)
    ensures Named(u, Ptr(v)) && Clear(u, Ptr(v), {}) && WellTagged(Ptr(v)) && Locatable(Ptr(v), path)
    ensures Trail(Ptr(v), path) == Trail(v, path)
  {
    forall namespace, pointer ensures BodyAt(Ptr(v), path, namespace, pointer) {
      assert BodyAt(v, path, namespace, pointer);
      assert Hop(Ptr(v), path[0], namespace, pointer) == Hop(v, path[0], namespace, pointer);
    }
  }

  lemma BothIsTypable(key: string, name: string, v: Value)
    requires Typable(v)
    ensures Typable(Both(key, Entry(name, Ptr(v))))
  {
    var t :| HasType(v, t);
    var m := Mapping([Entry(key, Nil), Entry(name, Ptr(v))]);
    assert HasType(Ptr(v), Pointer(t)) && HasType(Nil, Pointer(t));
    assert HasType(m, MapOf(Pointer(t)));
    FieldIsTypable("M", m);
  }

  lemma UnderField(v: Value, path: seq<nat>)
    ensures Trail(Struct([Field("M", BODY_TAGS, v)]), [0] + path) == ".M" + Trail(v, path)
  {
    TrailStep(Struct([Field("M", BODY_TAGS, v)]), [0] + path, "", "");
    assert ([0] + path)[1..] == path;
  }

  lemma UnderEntry(entries: seq<Entry>, i: nat, path: seq<nat>)
    requires i < |entries|
    ensures Trail(Mapping(entries), [i] + path) == "[" + entries[i].key + "]" + Trail(entries[i].value, path)
  {
    TrailStep(Mapping(entries), [i] + path, "", "");
    assert ([i] + path)[1..] == path;
  }

  lemma BothTrails(key: string, first: Entry, path: seq<nat>)
    ensures Trail(Both(key, first), [0, 0]) == ".M" + ("[" + key + "]")
    ensures Trail(Both(key, first), [0, 1] + path) == ".M" + ("[" + first.key + "]" + Trail(first.value, path))
  {
    var entries := [Entry(key, Nil), first];
    UnderEntry(entries, 0, []);
    UnderEntry(entries, 1, path);
    UnderField(Mapping(entries), [0]);
    UnderField(Mapping(entries), [1] + path);
    assert [0] + [] == [0] && [0] + [0] == [0, 0] && [0] + ([1] + path) == [0, 1] + path;
    assert "[" + key + "]" + "" == "[" + key + "]";
  }

  lemma PathsDiffer(root: Value, p: seq<nat>, q: seq<nat>)
    requires WellTagged(root) && AllTold(root, p) && p != [] && q != [] && p != q
    requires BodyAt(root, p, "", "") && BodyAt(root, q, "", "")
    ensures Locate(root, p, "", "").value.source != Locate(root, q, "", "").value.source
  {
    PointersDiffer(root, p, q);
  }

  lemma BothShareNamespace(u: Unicode, key: string, first: Entry, path: seq<nat>)
    requires Named(u, Both(key, first)) && path != [] && Locatable(first.value, path)
    requires "[" + first.key + "]" + Trail(first.value, path) == "[" + key + "]"
    ensures BodyAt(Both(key, first), [0, 0], "", "") && BodyAt(Both(key, first), [0, 1] + path, "", "")
    ensures Locate(Both(key, first), [0, 0], "", "").value.namespace
            == Locate(Both(key, first), [0, 1] + path, "", "").value.namespace
  {
    var root := Both(key, first);
    BothLocates(key, first, path);
    BothTrails(key, first, path);
    RootNamespaceIsTrail(u, root, [0, 0]);
    RootNamespaceIsTrail(u, root, [0, 1] + path);
    SameTail(Locate(root, [0, 0], "", "").value.namespace, Locate(root, [0, 1] + path, "", "").value.namespace);
  }

  lemma AmbiguousClashes(u: Unicode, key: string) returns (root: Value, p: seq<nat>, q: seq<nat>)
    requires Ambiguous(u, key)
    ensures Clash(u, root, key, p, q)
  {
    var first, path := SpelledOut(u, key);
    var pointed := Entry(first.key, Ptr(first.value));
    root, p, q := Both(key, pointed), [0, 0], [0, 1] + path;
    assert Named(u, Mapping([first])) && Clear(u, Mapping([first]), {});
    assert ([0] + path)[1..] == path;
    TrailStep(Mapping([first]), [0] + path, "", "");
    PointsAtSame(u, first.value, path);
    BothIsTypable(key, first.key, first.value);
    BothIsWell(u, key, pointed);
    BothIsTold(key, pointed);
    BothShareNamespace(u, key, pointed, path);
    PathsDiffer(root, p, q);
  }

  lemma SameTail(a: string, b: string)
    requires "." + a == "." + b
    ensures a == b
  {
    assert ("." + a)[1..] == a && ("." + b)[1..] == b;
  }

  /** A map key can take another location's namespace, in a value whose other keys are unambiguous,
      if and only if it is ambiguous itself. */
  lemma KeyCollidesExactly(u: Unicode, key: string)
    ensures (exists root, p, q :: Clash(u, root, key, p, q)) <==> Ambiguous(u, key)
  {
    if Ambiguous(u, key) {
      var root, p, q := AmbiguousClashes(u, key);
    } else {
      forall root, p, q ensures !Clash(u, root, key, p, q) {
        if Clash(u, root, key, p, q) {
          ClearAnyway(u, root, {key});
          NamespacesTellPaths(u, root, p, q);
        }
      }
    }
  }
}
