/** The JSON library: the order of keys, and what printing a value and reading it back makes of it. */
module Json {
  import opened Strings
  import opened Problem

  // ------------------------------------------------------------------- the JSON library

  /** json.Marshal and json.Unmarshal for the types that occur, and for the raw members of an object
      and the raw elements of an array, as they stand in the text. Not every value can be printed, and
      not every value is read back as it was. */
  datatype Codec = Codec(
    text: string -> string, readText: string -> Option<string>,
    number: int -> string, readNumber: string -> Option<int>,
    errors: seq<ValidationError> -> string, readErrors: string -> Option<seq<ValidationError>>,
    value: Value -> Option<string>, readValue: string -> Option<Value>,
    readMembers: string -> Option<seq<Member>>, readElements: string -> Option<seq<string>>)

  /** The text that leaves a string or a number alone and makes a slice nil. */
  const NULL := "null"

  /** A member name and the JSON text of its value. */
  type Member = (string, string)

  function PrintMember(codec: Codec, m: Member): string {
    codec.text(m.0) + ":" + m.1
  }

  function PrintMembers(codec: Codec, members: seq<Member>): (r: seq<string>)
    ensures |r| == |members| && forall i | 0 <= i < |members| :: r[i] == PrintMember(codec, members[i])
  {
    seq(|members|, i requires 0 <= i < |members| => PrintMember(codec, members[i]))
  }

  function PrintObject(codec: Codec, members: seq<Member>): string {
    "{" + Join(PrintMembers(codec, members), ",") + "}"
  }

  predicate DistinctKeys(members: seq<Member>) {
    forall i, j | 0 <= i < j < |members| :: members[i].0 != members[j].0
  }

  function AsMap(members: seq<Member>): map<string, string> {
    if members == [] then map[]
    else
      var last := members[|members| - 1];
      AsMap(members[..|members| - 1])[last.0 := last.1]
  }

  lemma {:induction false} AsMapHas(members: seq<Member>)
    requires DistinctKeys(members)
    ensures forall m | m in members :: m.0 in AsMap(members) && AsMap(members)[m.0] == m.1
    ensures forall k | k in AsMap(members) :: (k, AsMap(members)[k]) in members
  {
    if members != [] {
      var n := |members| - 1;
      AsMapHas(members[..n]);
      assert forall m :: m in members <==> m in members[..n] || m == members[n];
      forall m | m in members[..n] ensures m.0 != members[n].0 {
        var i :| 0 <= i < n && members[i] == m;
      }
    }
  }

  // ---------------------------------------------------------------- the order of the keys

  /** Go's string order. */
  predicate Less(a: string, b: string) {
    if b == "" then false
    else if a == "" then true
    else if a[0] == b[0] then Less(a[1..], b[1..])
    else a[0] < b[0]
  }

  lemma {:induction false} LessIsStrict(a: string, b: string)
    ensures Less(a, b) ==> !Less(b, a) && a != b
    ensures !Less(a, b) && !Less(b, a) ==> a == b
  {
    if a != "" && b != "" && a[0] == b[0] {
      LessIsStrict(a[1..], b[1..]);
      assert a == [a[0]] + a[1..] && b == [b[0]] + b[1..];
    }
  }

  lemma {:induction false} LessIsTransitive(a: string, b: string, c: string)
    requires Less(a, b) && Less(b, c)
    ensures Less(a, c)
  {
    if a != "" && a[0] == b[0] && b[0] == c[0] { LessIsTransitive(a[1..], b[1..], c[1..]); }
  }

  /** A proper prefix comes first; otherwise the first character that differs decides. */
  lemma {:induction false} LessExactly(a: string, b: string)
    ensures Less(a, b) <==> || (a <= b && a != b)
                            || exists k | 0 <= k < |a| && k < |b| :: a[..k] == b[..k] && a[k] < b[k]
  {
    if a != "" && b != "" && a[0] == b[0] {
      LessExactly(a[1..], b[1..]);
      assert a == [a[0]] + a[1..] && b == [b[0]] + b[1..];
      forall k | 1 <= k < |a| && k < |b|
        ensures a[..k] == b[..k] <==> a[1..][..k - 1] == b[1..][..k - 1]
        ensures a[k] == a[1..][k - 1] && b[k] == b[1..][k - 1]
      {
        assert a[..k] == [a[0]] + a[1..][..k - 1] && b[..k] == [b[0]] + b[1..][..k - 1];
        assert a[..k][1..] == a[1..][..k - 1] && b[..k][1..] == b[1..][..k - 1];
      }
      assert a <= b <==> a[1..] <= b[1..];
      if k :| 0 <= k < |a[1..]| && k < |b[1..]| && a[1..][..k] == b[1..][..k] && a[1..][k] < b[1..][k] {
        assert a[..k + 1] == b[..k + 1] && a[k + 1] < b[k + 1];
      }
    } else if a != "" && b != "" {
      assert a[..0] == b[..0];
      forall k | 1 <= k < |a| && k < |b| ensures a[..k] != b[..k] {
        assert a[..k][0] == a[0] && b[..k][0] == b[0];
      }
    }
  }

  predicate Ascending(keys: seq<string>) {
    forall i, j | 0 <= i < j < |keys| :: Less(keys[i], keys[j])
  }

  function Keys(keys: seq<string>): set<string> {
    set i | 0 <= i < |keys| :: keys[i]
  }

  lemma InsertedAscending(sorted: seq<string>, i: nat, key: string)
    requires Ascending(sorted) && key !in Keys(sorted) && i <= |sorted|
    requires forall k | 0 <= k < i :: Less(sorted[k], key)
    requires i < |sorted| ==> !Less(sorted[i], key)
    ensures Ascending(sorted[..i] + [key] + sorted[i..])
  {
    forall k | i <= k < |sorted| ensures Less(key, sorted[k]) {
      assert sorted[i] in Keys(sorted);
      LessIsStrict(sorted[i], key);
      if k > i { LessIsTransitive(key, sorted[i], sorted[k]); }
    }
  }

  lemma InsertedKeys(sorted: seq<string>, i: nat, key: string)
    requires i <= |sorted|
    ensures Keys(sorted[..i] + [key] + sorted[i..]) == Keys(sorted) + {key}
  {
    var r := sorted[..i] + [key] + sorted[i..];
    assert forall k | 0 <= k < |sorted| :: sorted[k] == r[if k < i then k else k + 1];
    assert r[i] == key;
  }

  method Insert(sorted: seq<string>, key: string) returns (r: seq<string>)
    requires Ascending(sorted) && key !in Keys(sorted)
    ensures Ascending(r) && Keys(r) == Keys(sorted) + {key}
  {
    var i := 0;
    while i < |sorted| && Less(sorted[i], key)
      invariant 0 <= i <= |sorted|
      invariant forall k | 0 <= k < i :: Less(sorted[k], key)
    {
      i := i + 1;
    }
    r := sorted[..i] + [key] + sorted[i..];
    InsertedAscending(sorted, i, key);
    InsertedKeys(sorted, i, key);
  }

  /** slices.Sorted over a map's keys, visited in the order the run happens to give. */
  method Sorted(visited: seq<string>) returns (sorted: seq<string>)
    requires forall i, j | 0 <= i < j < |visited| :: visited[i] != visited[j]
    ensures Ascending(sorted) && Keys(sorted) == Keys(visited)
  {
    sorted := [];
    for i := 0 to |visited|
      invariant Ascending(sorted) && Keys(sorted) == Keys(visited[..i])
    {
      assert visited[i] !in Keys(visited[..i]);
      assert Keys(visited[..i + 1]) == Keys(visited[..i]) + {visited[i]} by {
        assert visited[..i + 1] == visited[..i] + [visited[i]];
        assert forall k | 0 <= k < i :: visited[..i + 1][k] == visited[..i][k];
        assert visited[..i + 1][i] == visited[i];
      }
      sorted := Insert(sorted, visited[i]);
    }
    assert visited[..|visited|] == visited;
  }

  lemma {:induction false} AscendingIsUnique(p: seq<string>, q: seq<string>)
    requires Ascending(p) && Ascending(q) && Keys(p) == Keys(q)
    ensures p == q
  {
    FirstIsKey(p);
    FirstIsKey(q);
    if p != [] {
      var i :| 0 <= i < |q| && q[i] == p[0];
      var j :| 0 <= j < |p| && p[j] == q[0];
      LessIsStrict(p[0], q[0]);
      RestOfKeys(p);
      RestOfKeys(q);
      AscendingIsUnique(p[1..], q[1..]);
      assert p == [p[0]] + p[1..] && q == [q[0]] + q[1..];
    }
  }

  lemma FirstIsKey(p: seq<string>)
    ensures p != [] ==> p[0] in Keys(p)
  {}

  lemma RestOfKeys(p: seq<string>)
    requires Ascending(p) && p != []
    ensures Ascending(p[1..]) && Keys(p[1..]) == Keys(p) - {p[0]}
  {
    forall i | 1 <= i < |p| ensures p[i] != p[0] && p[i] in Keys(p[1..]) {
      LessIsStrict(p[0], p[i]);
      assert p[1..][i - 1] == p[i];
    }
  }

  lemma {:induction false} AscendingExists(keys: set<string>) returns (sorted: seq<string>)
    ensures Ascending(sorted) && Keys(sorted) == keys
  {
    if keys == {} {
      sorted := [];
    } else {
      var key :| key in keys;
      var rest := AscendingExists(keys - {key});
      var i := PlaceFor(rest, key);
      sorted := rest[..i] + [key] + rest[i..];
      InsertedAscending(rest, i, key);
      InsertedKeys(rest, i, key);
    }
  }

  lemma {:induction false} PlaceFor(sorted: seq<string>, key: string) returns (i: nat)
    ensures i <= |sorted| && forall k | 0 <= k < i :: Less(sorted[k], key)
    ensures i < |sorted| ==> !Less(sorted[i], key)
  {
    i := 0;
    if sorted != [] && Less(sorted[0], key) {
      var rest := PlaceFor(sorted[1..], key);
      i := rest + 1;
    }
  }

  lemma KeysCanBeSorted(keys: set<string>)
    ensures exists sorted :: Ascending(sorted) && Keys(sorted) == keys
  {
    var sorted := AscendingExists(keys);
  }

  /** The one ascending order of a set of keys. */
  ghost function SortedKeys(keys: set<string>): (sorted: seq<string>)
    ensures Ascending(sorted) && Keys(sorted) == keys
  {
    KeysCanBeSorted(keys);
    var sorted :| Ascending(sorted) && Keys(sorted) == keys;
    sorted
  }

  // ------------------------------------------------------------ values, there and back

  /** Printed and read, the value is itself again. */
  predicate Survives(codec: Codec, v: Value) {
    codec.value(v).Some? && codec.readValue(codec.value(v).value) == Some(v)
  }

  /** Printed and read, the value is one that is printed alike. */
  predicate Stable(codec: Codec, v: Value) {
    && codec.value(v).Some?
    && var back := codec.readValue(codec.value(v).value);
       back.Some? && codec.value(back.value) == codec.value(v)
  }

  /** What the value is read as, when it can be printed and its text read. */
  function Back(codec: Codec, v: Value): Option<Value> {
    match codec.value(v)
    case None => None
    case Some(text) => codec.readValue(text)
  }

  // ------------------------------------------------- the law for arrays, maps and structs

  type Part = (string, Value)

  predicate PartsPrint(codec: Codec, parts: seq<Part>) {
    forall i | 0 <= i < |parts| :: codec.value(parts[i].1).Some?
  }

  function PrintedParts(codec: Codec, parts: seq<Part>): (r: seq<Member>)
    requires PartsPrint(codec, parts)
    ensures |r| == |parts| && forall i | 0 <= i < |parts| :: r[i] == (parts[i].0, codec.value(parts[i].1).value)
  {
    seq(|parts|, i requires 0 <= i < |parts| => (parts[i].0, codec.value(parts[i].1).value))
  }

  function Names(parts: seq<Part>): (r: seq<string>)
    ensures |r| == |parts| && forall i | 0 <= i < |parts| :: r[i] == parts[i].0
  {
    seq(|parts|, i requires 0 <= i < |parts| => parts[i].0)
  }

  /** The entries of a map by ascending key. */
  ghost function Listed(members: map<string, Value>): (r: seq<Part>)
    ensures Names(r) == SortedKeys(members.Keys)
    ensures forall i | 0 <= i < |r| :: r[i].0 in members && r[i].1 == members[r[i].0]
  {
    var keys := SortedKeys(members.Keys);
    assert forall i | 0 <= i < |keys| :: keys[i] in Keys(keys);
    seq(|keys|, i requires 0 <= i < |keys| => (keys[i], members[keys[i]]))
  }

  function ObjectOf(codec: Codec, texts: map<string, string>): Option<Value> {
    if forall k | k in texts :: codec.readValue(texts[k]).Some?
    then Some(Object(map k | k in texts :: codec.readValue(texts[k]).value))
    else None
  }

  /** The text of an object stands for its members, and is read as the object of what they are read as. */
  predicate ReadsObject(codec: Codec, members: seq<Member>) {
    && codec.readMembers(PrintObject(codec, members)) == Some(members)
    && codec.readValue(PrintObject(codec, members)) == ObjectOf(codec, AsMap(members))
  }

  /** The value is printed as an object of these parts, in this order, when each can be printed. */
  predicate PrintsAs(codec: Codec, v: Value, parts: seq<Part>) {
    && (codec.value(v).Some? <==> PartsPrint(codec, parts))
    && (PartsPrint(codec, parts) ==>
          && codec.value(v) == Some(PrintObject(codec, PrintedParts(codec, parts)))
          && ReadsObject(codec, PrintedParts(codec, parts)))
  }

  predicate ItemsPrint(codec: Codec, items: seq<Value>) {
    forall i | 0 <= i < |items| :: codec.value(items[i]).Some?
  }

  function PrintedItems(codec: Codec, items: seq<Value>): (r: seq<string>)
    requires ItemsPrint(codec, items)
    ensures |r| == |items| && forall i | 0 <= i < |items| :: Some(r[i]) == codec.value(items[i])
  {
    seq(|items|, i requires 0 <= i < |items| => codec.value(items[i]).value)
  }

  function PrintArray(texts: seq<string>): string {
    "[" + Join(texts, ",") + "]"
  }

  function ArrayOf(codec: Codec, texts: seq<string>): Option<Value> {
    if forall i | 0 <= i < |texts| :: codec.readValue(texts[i]).Some?
    then Some(Array(seq(|texts|, i requires 0 <= i < |texts| => codec.readValue(texts[i]).value)))
    else None
  }

  predicate PrintsAsArray(codec: Codec, v: Value, items: seq<Value>) {
    && (codec.value(v).Some? <==> ItemsPrint(codec, items))
    && (ItemsPrint(codec, items) ==>
          var texts := PrintedItems(codec, items);
          && codec.value(v) == Some(PrintArray(texts))
          && codec.readElements(PrintArray(texts)) == Some(texts)
          && codec.readValue(PrintArray(texts)) == ArrayOf(codec, texts))
  }

  /** How encoding/json treats the compound values in v: an array is printed element by element, a map
      by ascending key, a struct in the order of its fields, and either of these is read as a map. Of
      nil and of scalars nothing is said. */
  ghost predicate Lawful(codec: Codec, v: Value)
    decreases v
  {
    match v
    case Array(items) =>
      PrintsAsArray(codec, v, items) && forall i | 0 <= i < |items| :: Lawful(codec, items[i])
    case Object(members) =>
      PrintsAs(codec, v, Listed(members)) && forall k | k in members :: Lawful(codec, members[k])
    case Struct(fields) =>
      && PrintsAs(codec, v, fields) && DistinctParts(fields)
      && forall i | 0 <= i < |fields| :: Lawful(codec, fields[i].1)
    case _ => true
  }

  predicate DistinctParts(parts: seq<Part>) {
    forall i, j | 0 <= i < j < |parts| :: parts[i].0 != parts[j].0
  }

  /** The fields of its structs, at every depth, are in ascending order, and its leaves are stable. */
  predicate Calm(codec: Codec, v: Value)
    decreases v
  {
    match v
    case Array(items) => forall i | 0 <= i < |items| :: Calm(codec, items[i])
    case Object(members) => forall k | k in members :: Calm(codec, members[k])
    case Struct(fields) => Ascending(Names(fields)) && forall i | 0 <= i < |fields| :: Calm(codec, fields[i].1)
    case _ => Stable(codec, v)
  }

  /** It holds no struct at any depth, and its leaves survive. */
  predicate Plain(codec: Codec, v: Value)
    decreases v
  {
    match v
    case Array(items) => forall i | 0 <= i < |items| :: Plain(codec, items[i])
    case Object(members) => forall k | k in members :: Plain(codec, members[k])
    case Struct(_) => false
    case _ => Survives(codec, v)
  }

  /** json.Unmarshal into a map of raw members: a later member of the same name wins. */
  function ReadObject(codec: Codec, data: string): Option<map<string, string>> {
    match codec.readMembers(data)
    case None => None
    case Some(members) => Some(AsMap(members))
  }

  // -------------------------------------------------------- what comes back, by the law

  lemma SortedIsUnique(keys: seq<string>)
    requires Ascending(keys)
    ensures SortedKeys(Keys(keys)) == keys
  {
    AscendingIsUnique(keys, SortedKeys(Keys(keys)));
  }

  lemma ListedHasAll(members: map<string, Value>)
    ensures DistinctParts(Listed(members)) && Ascending(Names(Listed(members)))
    ensures Keys(Names(Listed(members))) == members.Keys
    ensures forall k | k in members :: exists i :: 0 <= i < |Listed(members)| && Listed(members)[i] == (k, members[k])
  {
    var parts := Listed(members);
    forall i, j | 0 <= i < j < |parts| ensures parts[i].0 != parts[j].0 {
      LessIsStrict(Names(parts)[i], Names(parts)[j]);
    }
    forall k | k in members ensures exists i :: 0 <= i < |parts| && parts[i] == (k, members[k]) {
      var i :| 0 <= i < |parts| && Names(parts)[i] == k;
      assert parts[i] == (k, members[k]);
    }
  }

  /** A map that holds, under each name, what its part is read as. */
  predicate IsBackOf(codec: Codec, parts: seq<Part>, m: map<string, Value>) {
    && m.Keys == Keys(Names(parts))
    && forall i | 0 <= i < |parts| :: parts[i].0 in m && Back(codec, parts[i].1) == Some(m[parts[i].0])
  }

  lemma PrintedHas(codec: Codec, parts: seq<Part>)
    requires PartsPrint(codec, parts) && DistinctParts(parts)
    ensures var texts := AsMap(PrintedParts(codec, parts));
            && texts.Keys == Keys(Names(parts))
            && forall i | 0 <= i < |parts| ::
                 parts[i].0 in texts && codec.value(parts[i].1) == Some(texts[parts[i].0])
  {
    var ms := PrintedParts(codec, parts);
    AsMapHas(ms);
    forall i | 0 <= i < |parts|
      ensures parts[i].0 in AsMap(ms) && codec.value(parts[i].1) == Some(AsMap(ms)[parts[i].0])
    {
      assert ms[i] in ms;
    }
    forall k | k in AsMap(ms) ensures k in Keys(Names(parts)) {
      var i :| 0 <= i < |ms| && ms[i] == (k, AsMap(ms)[k]);
      assert Names(parts)[i] == k;
    }
  }

  /** An object is read exactly when each of its parts is, and then as the map of what they are read as. */
  lemma ObjectIsRead(codec: Codec, v: Value, parts: seq<Part>)
    requires PrintsAs(codec, v, parts) && DistinctParts(parts)
    ensures Back(codec, v).Some? <==> forall i | 0 <= i < |parts| :: Back(codec, parts[i].1).Some?
    ensures Back(codec, v).Some? ==>
              Back(codec, v).value.Object? && IsBackOf(codec, parts, Back(codec, v).value.members)
  {
    if PartsPrint(codec, parts) {
      PrintedHas(codec, parts);
      var texts := AsMap(PrintedParts(codec, parts));
      forall k | k in texts ensures exists i :: 0 <= i < |parts| && parts[i].0 == k {
        var i :| 0 <= i < |parts| && Names(parts)[i] == k;
        assert parts[i].0 == k;
      }
    }
  }

  lemma StablePartsAlike(codec: Codec, v: Value, parts: seq<Part>, m: map<string, Value>)
    requires PrintsAs(codec, v, parts) && PrintsAs(codec, Object(m), Listed(m)) && PartsPrint(codec, parts)
    requires Back(codec, v) == Some(Object(m)) && IsBackOf(codec, parts, m)
    requires Ascending(Names(parts)) && forall i | 0 <= i < |parts| :: Stable(codec, parts[i].1)
    ensures Stable(codec, v)
  {
    var listed := Listed(m);
    SortedIsUnique(Names(parts));
    assert Names(listed) == Names(parts);
    forall i | 0 <= i < |parts|
      ensures listed[i].0 == parts[i].0 && codec.value(listed[i].1) == codec.value(parts[i].1)
    {
      assert Names(listed)[i] == Names(parts)[i];
      assert Stable(codec, parts[i].1);
    }
    assert PrintedParts(codec, listed) == PrintedParts(codec, parts);
  }

  lemma AlikeStableParts(codec: Codec, v: Value, parts: seq<Part>, m: map<string, Value>)
    requires PrintsAs(codec, v, parts) && PrintsAs(codec, Object(m), Listed(m)) && PartsPrint(codec, parts)
    requires Back(codec, v) == Some(Object(m)) && IsBackOf(codec, parts, m)
    requires Stable(codec, v)
    ensures Ascending(Names(parts)) && forall i | 0 <= i < |parts| :: Stable(codec, parts[i].1)
  {
    var listed := Listed(m);
    var ms, again := PrintedParts(codec, parts), PrintedParts(codec, listed);
    assert again == ms;
    forall i | 0 <= i < |parts| ensures Names(listed)[i] == Names(parts)[i] && Stable(codec, parts[i].1) {
      assert again[i] == ms[i];
    }
    assert Names(listed) == Names(parts);
  }

  /** An object is stable exactly when its parts stand in ascending order and are stable. */
  lemma ObjectStableExactly(codec: Codec, v: Value, parts: seq<Part>)
    requires PrintsAs(codec, v, parts) && DistinctParts(parts)
    requires Back(codec, v).Some? && Lawful(codec, Back(codec, v).value)
    ensures Stable(codec, v) <==> Ascending(Names(parts)) && forall i | 0 <= i < |parts| :: Stable(codec, parts[i].1)
  {
    ObjectIsRead(codec, v, parts);
    var m := Back(codec, v).value.members;
    if Stable(codec, v) {
      AlikeStableParts(codec, v, parts, m);
    }
    if Ascending(Names(parts)) && forall i | 0 <= i < |parts| :: Stable(codec, parts[i].1) {
      StablePartsAlike(codec, v, parts, m);
    }
  }

  lemma ArrayIsRead(codec: Codec, v: Value, items: seq<Value>)
    requires PrintsAsArray(codec, v, items)
    ensures Back(codec, v).Some? <==> forall i | 0 <= i < |items| :: Back(codec, items[i]).Some?
    ensures Back(codec, v).Some? ==>
              && Back(codec, v).value.Array? && |Back(codec, v).value.items| == |items|
              && forall i | 0 <= i < |items| :: Back(codec, items[i]) == Some(Back(codec, v).value.items[i])
  {}

  /** An array is stable exactly when its items are. */
  lemma ArrayStableExactly(codec: Codec, v: Value, items: seq<Value>)
    requires PrintsAsArray(codec, v, items)
    requires Back(codec, v).Some? && Lawful(codec, Back(codec, v).value)
    ensures Stable(codec, v) <==> forall i | 0 <= i < |items| :: Stable(codec, items[i])
  {
    ArrayIsRead(codec, v, items);
    var back := Back(codec, v).value.items;
    if Stable(codec, v) {
      assert PrintedItems(codec, back) == PrintedItems(codec, items);
      forall i | 0 <= i < |items| ensures Stable(codec, items[i]) {
        assert PrintedItems(codec, back)[i] == PrintedItems(codec, items)[i];
      }
    }
    if forall i | 0 <= i < |items| :: Stable(codec, items[i]) {
      forall i | 0 <= i < |items| ensures codec.value(back[i]) == codec.value(items[i]) {
        assert Stable(codec, items[i]);
      }
      assert PrintedItems(codec, back) == PrintedItems(codec, items);
    }
  }

  lemma {:induction false} CalmIsRead(codec: Codec, v: Value)
    requires Lawful(codec, v) && Calm(codec, v)
    ensures Back(codec, v).Some?
    decreases v
  {
    match v
    case Array(items) =>
      forall i | 0 <= i < |items| ensures Back(codec, items[i]).Some? { CalmIsRead(codec, items[i]); }
      ArrayIsRead(codec, v, items);
    case Object(members) =>
      forall k | k in members ensures Back(codec, members[k]).Some? { CalmIsRead(codec, members[k]); }
      ListedHasAll(members);
      ObjectIsRead(codec, v, Listed(members));
    case Struct(fields) =>
      forall i | 0 <= i < |fields| ensures Back(codec, fields[i].1).Some? { CalmIsRead(codec, fields[i].1); }
      ObjectIsRead(codec, v, fields);
    case _ =>
  }

  /** A value, however deep, is printed alike after it has been read exactly when the fields of each
      struct in it are in ascending order and its leaves are printed alike. */
  lemma {:induction false} StableIsCalm(codec: Codec, v: Value)
    requires Lawful(codec, v) && (Back(codec, v).Some? ==> Lawful(codec, Back(codec, v).value))
    ensures Stable(codec, v) <==> Calm(codec, v)
    decreases v
  {
    if Back(codec, v).None? {
      if Calm(codec, v) { CalmIsRead(codec, v); }
    } else {
      match v
      case Array(items) => ItemsStableCalm(codec, v, items);
      case Object(members) => MembersStableCalm(codec, v, members);
      case Struct(fields) => PartsStableCalm(codec, v, fields);
      case _ =>
    }
  }

  lemma {:induction false} ItemsStableCalm(codec: Codec, v: Value, items: seq<Value>)
    requires v == Array(items) && Lawful(codec, v)
    requires Back(codec, v).Some? && Lawful(codec, Back(codec, v).value)
    ensures Stable(codec, v) <==> forall i | 0 <= i < |items| :: Calm(codec, items[i])
    decreases v, 0
  {
    ArrayIsRead(codec, v, items);
    forall i | 0 <= i < |items| ensures Stable(codec, items[i]) <==> Calm(codec, items[i]) {
      StableIsCalm(codec, items[i]);
    }
    ArrayStableExactly(codec, v, items);
  }

  lemma ListedCalm(codec: Codec, members: map<string, Value>)
    ensures (forall k | k in members :: Calm(codec, members[k]))
            <==> forall i | 0 <= i < |Listed(members)| :: Calm(codec, Listed(members)[i].1)
  {
    ListedHasAll(members);
  }

  lemma {:induction false} MembersStableCalm(codec: Codec, v: Value, members: map<string, Value>)
    requires v == Object(members) && Lawful(codec, v)
    requires Back(codec, v).Some? && Lawful(codec, Back(codec, v).value)
    ensures Stable(codec, v) <==> forall k | k in members :: Calm(codec, members[k])
    decreases v, 1
  {
    ListedHasAll(members);
    ListedCalm(codec, members);
    forall i | 0 <= i < |Listed(members)| ensures Listed(members)[i].1 < v && Lawful(codec, Listed(members)[i].1) {
      var k := Listed(members)[i].0;
      assert members[k] < v;
    }
    PartsStableCalm(codec, v, Listed(members));
  }

  lemma {:induction false} PartsStableCalm(codec: Codec, v: Value, parts: seq<Part>)
    requires PrintsAs(codec, v, parts) && DistinctParts(parts)
    requires Back(codec, v).Some? && Lawful(codec, Back(codec, v).value)
    requires forall i | 0 <= i < |parts| :: parts[i].1 < v && Lawful(codec, parts[i].1)
    ensures Stable(codec, v) <==> Ascending(Names(parts)) && forall i | 0 <= i < |parts| :: Calm(codec, parts[i].1)
    decreases v, 0
  {
    ObjectIsRead(codec, v, parts);
    forall i | 0 <= i < |parts| ensures Stable(codec, parts[i].1) <==> Calm(codec, parts[i].1) {
      StableIsCalm(codec, parts[i].1);
    }
    ObjectStableExactly(codec, v, parts);
  }

  /** A value, however deep, is itself again exactly when there is no struct in it and its leaves are
      themselves again. */
  lemma {:induction false} SurvivesIsPlain(codec: Codec, v: Value)
    requires Lawful(codec, v)
    ensures Survives(codec, v) <==> Plain(codec, v)
    decreases v
  {
    match v
    case Array(items) =>
      ArrayIsRead(codec, v, items);
      forall i | 0 <= i < |items| ensures Survives(codec, items[i]) <==> Plain(codec, items[i]) {
        SurvivesIsPlain(codec, items[i]);
      }
      ArraySurvives(codec, v, items);
    case Object(members) =>
      forall k | k in members ensures Survives(codec, members[k]) <==> Plain(codec, members[k]) {
        SurvivesIsPlain(codec, members[k]);
      }
      ObjectSurvives(codec, v, members);
    case Struct(fields) => ObjectIsRead(codec, v, fields);
    case _ =>
  }

  lemma ArraySurvives(codec: Codec, v: Value, items: seq<Value>)
    requires v == Array(items) && PrintsAsArray(codec, v, items)
    ensures Survives(codec, v) <==> forall i | 0 <= i < |items| :: Survives(codec, items[i])
  {
    ArrayIsRead(codec, v, items);
    if forall i | 0 <= i < |items| :: Survives(codec, items[i]) {
      forall i | 0 <= i < |items| ensures Back(codec, items[i]) == Some(items[i]) {
        assert Survives(codec, items[i]);
      }
      assert Back(codec, v).value.items == items;
    }
  }

  /** A map is read exactly when each of its values is, and then as the map of what they are read as. */
  lemma MapIsRead(codec: Codec, members: map<string, Value>)
    requires PrintsAs(codec, Object(members), Listed(members))
    ensures var back := Back(codec, Object(members));
            && (back.Some? <==> forall k | k in members :: Back(codec, members[k]).Some?)
            && (back.Some? ==>
                  && back.value.Object? && back.value.members.Keys == members.Keys
                  && forall k | k in members :: Back(codec, members[k]) == Some(back.value.members[k]))
  {
    var parts := Listed(members);
    ListedHasAll(members);
    ObjectIsRead(codec, Object(members), parts);
    if Back(codec, Object(members)).Some? {
      forall k | k in members
        ensures Back(codec, members[k]) == Some(Back(codec, Object(members)).value.members[k])
      {
        var i :| 0 <= i < |parts| && parts[i] == (k, members[k]);
        assert parts[i].0 in members;
      }
    }
  }

  lemma ObjectSurvives(codec: Codec, v: Value, members: map<string, Value>)
    requires v == Object(members) && PrintsAs(codec, v, Listed(members))
    ensures Survives(codec, v) <==> forall k | k in members :: Survives(codec, members[k])
  {
    MapIsRead(codec, members);
    if forall k | k in members :: Survives(codec, members[k]) {
      forall k | k in members ensures Back(codec, members[k]) == Some(members[k]) {
        assert Survives(codec, members[k]);
      }
      assert Back(codec, v).value.members == members;
    }
  }
}
