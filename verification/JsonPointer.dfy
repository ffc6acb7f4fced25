/** JSON pointers (RFC 6901): escaping a reference token, and evaluating a pointer. */
module JsonPointer {
  import opened Strings

  datatype Json = JNull | JScalar(text: string) | JArray(items: seq<Json>) | JObject(members: seq<Member>)
  datatype Member = Member(name: string, value: Json)

  /** escapeJSONPointerToken: one pass, as strings.NewReplacer does it. */
  function Escape(token: string): string {
    if token == "" then ""
    else (if token[0] == '~' then "~0" else if token[0] == '/' then "~1" else [token[0]]) + Escape(token[1..])
  }

  /** Replaces every '~' followed by `digit`, from left to right. */
  function Replace(s: string, digit: char, replacement: char): string {
    if |s| >= 2 && s[0] == '~' && s[1] == digit then [replacement] + Replace(s[2..], digit, replacement)
    else if s == "" then ""
    else [s[0]] + Replace(s[1..], digit, replacement)
  }

  /** The decoding of section 4: first "~1", then "~0". */
  function Decode(token: string): string {
    Replace(Replace(token, '1', '/'), '0', '~')
  }

  /** A pointer is its escaped tokens, each after a slash. */
  function Pointer(tokens: seq<string>): string {
    if tokens == [] then "" else "/" + Escape(tokens[0]) + Pointer(tokens[1..])
  }

  // ------------------------------------------------------------------- evaluation

  function Digit(d: nat): char
    requires d < 10
  {
    "0123456789"[d]
  }

  function Digits(n: nat): string {
    if n < 10 then [Digit(n)] else Digits(n / 10) + [Digit(n % 10)]
  }

  predicate AllDigits(s: string) {
    forall i | 0 <= i < |s| :: '0' <= s[i] <= '9'
  }

  function Number(s: string): nat
    requires AllDigits(s)
  {
    if s == "" then 0 else 10 * Number(s[..|s| - 1]) + (s[|s| - 1] as int - '0' as int)
  }

  /** An array index: digits without a leading zero. */
  function Index(token: string): Option<nat> {
    if token != "" && AllDigits(token) && (token == "0" || token[0] != '0')
    then Some(Number(token)) else None
  }

  function Lookup(members: seq<Member>, name: string): Option<Json> {
    if members == [] then None
    else if members[0].name == name then Some(members[0].value)
    else Lookup(members[1..], name)
  }

  function Child(json: Json, token: string): Option<Json> {
    match json
    case JObject(members) => Lookup(members, token)
    case JArray(items) =>
      (match Index(token)
       case Some(i) => if i < |items| then Some(items[i]) else None
       case None => None)
    case _ => None
  }

  function EvaluateTokens(json: Json, tokens: seq<string>): Option<Json>
    decreases |tokens|
  {
    if tokens == [] then Some(json)
    else
      match Child(json, Decode(tokens[0]))
      case None => None
      case Some(child) => EvaluateTokens(child, tokens[1..])
  }

  function Evaluate(json: Json, pointer: string): Option<Json> {
    if pointer == "" then Some(json)
    else if pointer[0] != '/' then None
    else EvaluateTokens(json, Split(pointer[1..], '/'))
  }

  // ------------------------------------------------------------------- the laws

  function TildesOnly(token: string): string {
    if token == "" then "" else (if token[0] == '~' then "~0" else [token[0]]) + TildesOnly(token[1..])
  }

  lemma {:induction false} FirstPass(token: string)
    ensures Replace(Escape(token), '1', '/') == TildesOnly(token)
  {
    if token != "" {
      FirstPass(token[1..]);
      var rest := Escape(token[1..]);
      if token[0] == '~' {
        assert ("~0" + rest)[1..] == "0" + rest && ("0" + rest)[1..] == rest;
      } else if token[0] == '/' {
        assert ("~1" + rest)[2..] == rest;
      } else {
        assert ([token[0]] + rest)[1..] == rest;
      }
    }
  }

  lemma {:induction false} SecondPass(token: string)
    ensures Replace(TildesOnly(token), '0', '~') == token
  {
    if token != "" {
      SecondPass(token[1..]);
      var rest := TildesOnly(token[1..]);
      if token[0] == '~' {
        assert ("~0" + rest)[2..] == rest;
      } else {
        assert ([token[0]] + rest)[1..] == rest;
      }
      assert [token[0]] + token[1..] == token;
    }
  }

  /** Decoding undoes escaping, for every token. */
  lemma DecodeEscape(token: string)
    ensures Decode(Escape(token)) == token
  {
    FirstPass(token);
    SecondPass(token);
  }

  lemma {:induction false} EscapeHasNoSlash(token: string)
    ensures '/' !in Escape(token)
  {
    if token != "" { EscapeHasNoSlash(token[1..]); }
  }

  function Escaped(tokens: seq<string>): (r: seq<string>)
    ensures |r| == |tokens| && forall i | 0 <= i < |tokens| :: r[i] == Escape(tokens[i])
  {
    seq(|tokens|, i requires 0 <= i < |tokens| => Escape(tokens[i]))
  }

  lemma PointerStarts(tokens: seq<string>)
    requires tokens != []
    ensures Pointer(tokens) != "" && Pointer(tokens)[0] == '/'
    ensures Pointer(tokens)[1..]
            == if |tokens| == 1 then Escape(tokens[0]) else Escape(tokens[0]) + ['/'] + Pointer(tokens[1..])[1..]
  {
    AfterSlash(Escape(tokens[0]), Pointer(tokens[1..]));
  }

  lemma AfterSlash(a: string, b: string)
    ensures ("/" + a + b)[1..] == a + b
    ensures b != "" && b[0] == '/' ==> a + b == a + ['/'] + b[1..]
    ensures b == "" ==> a + b == a
  {
    assert b != "" ==> b == [b[0]] + b[1..];
  }

  lemma EscapedCons(tokens: seq<string>)
    requires tokens != []
    ensures Escaped(tokens) == [Escape(tokens[0])] + Escaped(tokens[1..])
  {}

  /** Reading a pointer gives its escaped tokens back. */
  lemma {:induction false} PointerSplits(tokens: seq<string>)
    requires tokens != []
    ensures Pointer(tokens) != "" && Pointer(tokens)[0] == '/'
    ensures Split(Pointer(tokens)[1..], '/') == Escaped(tokens)
  {
    PointerStarts(tokens);
    EscapedCons(tokens);
    EscapeHasNoSlash(tokens[0]);
    if |tokens| == 1 {
      SplitNone(Escape(tokens[0]), '/');
    } else {
      PointerSplits(tokens[1..]);
      SplitFirst(Escape(tokens[0]), Pointer(tokens[1..])[1..], '/');
    }
  }

  /** Different token sequences have different pointers. */
  lemma PointerInjective(a: seq<string>, b: seq<string>)
    requires Pointer(a) == Pointer(b)
    ensures a == b
  {
    if a != [] { PointerSplits(a); }
    if b != [] { PointerSplits(b); }
    if a != [] && b != [] {
      assert |a| == |b|;
      forall i | 0 <= i < |a| ensures a[i] == b[i] {
        assert Escaped(a)[i] == Escaped(b)[i];
        DecodeEscape(a[i]);
        DecodeEscape(b[i]);
      }
    }
  }

  /** Evaluating a pointer is walking down its tokens. */
  function Walk(json: Json, tokens: seq<string>): Option<Json>
    decreases |tokens|
  {
    if tokens == [] then Some(json)
    else
      match Child(json, tokens[0])
      case None => None
      case Some(child) => Walk(child, tokens[1..])
  }

  lemma {:induction false} TokensWalk(json: Json, tokens: seq<string>)
    ensures EvaluateTokens(json, Escaped(tokens)) == Walk(json, tokens)
    decreases |tokens|
  {
    if tokens != [] {
      DecodeEscape(tokens[0]);
      assert Escaped(tokens)[1..] == Escaped(tokens[1..]);
      var child := Child(json, tokens[0]);
      if child.Some? { TokensWalk(child.value, tokens[1..]); }
    }
  }

  lemma EvaluateWalks(json: Json, tokens: seq<string>)
    ensures Evaluate(json, Pointer(tokens)) == Walk(json, tokens)
  {
    if tokens != [] {
      PointerSplits(tokens);
      TokensWalk(json, tokens);
    }
  }

  lemma {:induction false} DigitsAreIndex(n: nat)
    ensures Digits(n) != "" && AllDigits(Digits(n))
    ensures Digits(n) == "0" || Digits(n)[0] != '0'
    ensures Number(Digits(n)) == n
  {
    if n >= 10 {
      DigitsAreIndex(n / 10);
      assert Digits(n)[..|Digits(n)| - 1] == Digits(n / 10);
    } else {
      assert Digits(n)[..0] == "";
    }
  }

  lemma IndexOfDigits(n: nat)
    ensures Index(Digits(n)) == Some(n)
  {
    DigitsAreIndex(n);
  }

  lemma {:induction false} EscapeDigits(n: nat)
    ensures Escape(Digits(n)) == Digits(n)
  {
    DigitsAreIndex(n);
    EscapePlain(Digits(n));
  }

  lemma {:induction false} EscapePlain(s: string)
    requires '~' !in s && '/' !in s
    ensures Escape(s) == s
  {
    if s != "" {
      assert s[0] in s;
      EscapePlain(s[1..]);
      assert [s[0]] + s[1..] == s;
    }
  }

  lemma {:induction false} PointerConcat(a: seq<string>, b: seq<string>)
    ensures Pointer(a + b) == Pointer(a) + Pointer(b)
  {
    if a == [] {
      assert a + b == b;
    } else {
      assert (a + b)[1..] == a[1..] + b;
      PointerConcat(a[1..], b);
    }
  }
}
