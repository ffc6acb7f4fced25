/** Entity tags: how they are computed from a body, and the strong and the weak comparison of a
    tag with the list a client sends (sections 8.8.3, 13.1.1 and 13.1.2 of RFC 9110). */
module EntityTags {
  import opened Strings
  import opened Responses

  newtype uint64 = x: int | 0 <= x < 0x1_0000_0000_0000_0000

  /** The 64-bit hash of a body; only its being a function is used. */
  type Hash = Bytes -> uint64

  const WEAK := "W/"

  function HexDigit(d: nat): char
    requires d < 16
  {
    "0123456789abcdef"[d]
  }

  /** hex.EncodeToString of a big-endian number, `digits` digits long. */
  function Hex(n: nat, digits: nat): string {
    if digits == 0 then "" else Hex(n / 16, digits - 1) + [HexDigit(n % 16)]
  }

  /** computeETag: the quoted hexadecimal hash. */
  function ComputeETag(hash: Hash, body: Bytes): string {
    "\"" + Hex(hash(body) as nat, 16) + "\""
  }

  /** If-Match: strong comparison with each candidate of the list. */
  predicate IfMatchMatches(header: string, etag: string) {
    if header == "*" then etag != ""
    else if etag == "" || HasPrefix(etag, WEAK) then false
    else exists i | 0 <= i < |Split(header, ',')| ::
      var candidate := Trim(Split(header, ',')[i]);
      !HasPrefix(candidate, WEAK) && candidate == etag
  }

  /** If-None-Match: weak comparison with each candidate of the list. */
  predicate IfNoneMatchMatches(header: string, etag: string) {
    var list := Trim(header);
    if list == "" then false
    else if list == "*" then true
    else exists i | 0 <= i < |Split(list, ',')| ::
      TrimPrefix(Trim(Split(list, ',')[i]), WEAK) == TrimPrefix(etag, WEAK)
  }

  /** A tag that can stand in a comma-separated list. */
  predicate Listable(tag: string) {
    ',' !in tag && Trimmed(tag)
  }

  // --------------------------------------------------------------------- the hash

  function Pow16(digits: nat): nat {
    if digits == 0 then 1 else 16 * Pow16(digits - 1)
  }

  lemma {:induction false} Pow16Adds(a: nat, b: nat)
    ensures Pow16(a + b) == Pow16(a) * Pow16(b)
  {
    if a > 0 { Pow16Adds(a - 1, b); }
  }

  lemma SameSnoc(a: string, c: char, b: string, d: char)
    requires a + [c] == b + [d]
    ensures a == b && c == d
  {
    assert |a + [c]| == |b + [d]|;
    assert (a + [c])[..|a|] == a && (b + [d])[..|b|] == b;
    assert (a + [c])[|a|] == c && (b + [d])[|b|] == d;
  }

  lemma DigitInjective(d: nat, e: nat)
    requires d < 16 && e < 16 && HexDigit(d) == HexDigit(e)
    ensures d == e
  {}

  lemma {:induction false} HexInjective(m: nat, n: nat, digits: nat)
    requires m < Pow16(digits) && n < Pow16(digits) && Hex(m, digits) == Hex(n, digits)
    ensures m == n
  {
    if digits > 0 {
      SameSnoc(Hex(m / 16, digits - 1), HexDigit(m % 16), Hex(n / 16, digits - 1), HexDigit(n % 16));
      DigitInjective(m % 16, n % 16);
      HexInjective(m / 16, n / 16, digits - 1);
    }
  }

  lemma {:induction false} HexClean(n: nat, digits: nat)
    ensures |Hex(n, digits)| == digits
    ensures forall c | c in Hex(n, digits) :: '0' <= c <= '9' || 'a' <= c <= 'f'
  {
    if digits > 0 { HexClean(n / 16, digits - 1); }
  }

  /** Computed tags are strong, non-empty and fit in a list. */
  lemma ComputedTagIsListable(hash: Hash, body: Bytes)
    ensures var tag := ComputeETag(hash, body);
            tag != "" && !HasPrefix(tag, WEAK) && Listable(tag) && tag != "*"
  {
    HexClean(hash(body) as nat, 16);
    var tag := ComputeETag(hash, body);
    assert tag[0] == '"' && tag[|tag| - 1] == '"' && WEAK[0] == 'W';
  }

  /** Two bodies get the same tag exactly when they have the same hash. */
  lemma TagsDistinguishHashes(hash: Hash, a: Bytes, b: Bytes)
    ensures ComputeETag(hash, a) == ComputeETag(hash, b) <==> hash(a) == hash(b)
  {
    if ComputeETag(hash, a) == ComputeETag(hash, b) {
      var m, n := hash(a) as nat, hash(b) as nat;
      HexClean(m, 16);
      HexClean(n, 16);
      assert ComputeETag(hash, a)[1..17] == Hex(m, 16);
      assert ComputeETag(hash, b)[1..17] == Hex(n, 16);
      Pow16Adds(4, 4);
      Pow16Adds(8, 8);
      HexInjective(m, n, 16);
    }
  }

  /** The number that hexadecimal digits spell, most significant first. */
  function HexValue(s: string): int {
    if s == "" then 0
    else
      var c := s[|s| - 1] as int;
      16 * HexValue(s[..|s| - 1]) + if c < 'a' as int then c - '0' as int else c - 'a' as int + 10
  }

  lemma {:induction false} HexSpells(n: nat, digits: nat)
    requires n < Pow16(digits)
    ensures HexValue(Hex(n, digits)) == n
  {
    if digits > 0 {
      HexSpells(n / 16, digits - 1);
      assert Hex(n, digits)[..digits - 1] == Hex(n / 16, digits - 1) by { HexClean(n / 16, digits - 1); }
      DigitSpells(n % 16);
    }
  }

  lemma DigitSpells(d: nat)
    requires d < 16
    ensures var c := HexDigit(d) as int; d == if c < 'a' as int then c - '0' as int else c - 'a' as int + 10
  {}

  /** A computed tag is the hash of the body, in sixteen lower-case hexadecimal digits between quotes. */
  lemma ComputedTagSpells(hash: Hash, body: Bytes)
    ensures var tag := ComputeETag(hash, body);
            && |tag| == 18 && tag[0] == tag[17] == '"' && HexValue(tag[1..17]) == hash(body) as int
            && forall i | 1 <= i < 17 :: '0' <= tag[i] <= '9' || 'a' <= tag[i] <= 'f'
  {
    var n := hash(body) as nat;
    HexClean(n, 16);
    var tag := ComputeETag(hash, body);
    assert tag[1..17] == Hex(n, 16);
    forall i | 1 <= i < 17 ensures tag[i] in Hex(n, 16) { assert tag[i] == tag[1..17][i - 1]; }
    Pow16Adds(4, 4);
    Pow16Adds(8, 8);
    HexSpells(n, 16);
  }

  /** The weak prefix goes when it is there, once. */
  lemma WeakPrefix(tag: string)
    ensures TrimPrefix("W/" + tag, WEAK) == tag
    ensures tag[..if |tag| < 2 then |tag| else 2] != "W/" ==> TrimPrefix(tag, WEAK) == tag
  {
    assert ("W/" + tag)[2..] == tag;
    if WEAK <= tag { assert tag[..2] == "W/"; }
  }

  // -------------------------------------------------------------------- the lists

  /** A blank after the comma disappears when the parts are trimmed. */
  lemma BlankFirst(rest: string)
    ensures TrimAll(Split(" " + rest, ',')) == TrimAll(Split(rest, ','))
  {
    assert (" " + rest)[1..] == rest;
    TrimCons(' ', Split(rest, ',')[0]);
  }

  lemma FirstOfList(tag: string, rest: string)
    requires Listable(tag)
    ensures TrimAll(Split(tag + ", " + rest, ',')) == [tag] + TrimAll(Split(rest, ','))
  {
    assert tag + ", " + rest == tag + [','] + (" " + rest);
    SplitFirst(tag, " " + rest, ',');
    BlankFirst(rest);
    TrimIsTrimmed(tag);
  }

  /** A printed list splits back into its tags. */
  lemma {:induction false} ListSplits(tags: seq<string>)
    requires |tags| >= 1 && forall t | t in tags :: Listable(t)
    ensures TrimAll(Split(Join(tags, ", "), ',')) == tags
  {
    assert tags[0] in tags;
    if |tags| == 1 {
      TrimIsTrimmed(tags[0]);
      SplitNone(tags[0], ',');
    } else {
      FirstOfList(tags[0], Join(tags[1..], ", "));
      ListSplits(tags[1..]);
    }
  }

  /** A list of tags satisfies If-Match exactly when the current tag is non-empty, strong and in it. */
  lemma IfMatchListExactly(tags: seq<string>, etag: string)
    requires forall t | t in tags :: Listable(t)
    requires Join(tags, ", ") != "*"
    ensures IfMatchMatches(Join(tags, ", "), etag) <==> etag != "" && !HasPrefix(etag, WEAK) && etag in tags
  {
    var parts := Split(Join(tags, ", "), ',');
    if tags == [] {
      assert parts == [""];
    } else {
      ListSplits(tags);
      assert forall i | 0 <= i < |parts| :: TrimAll(parts)[i] == tags[i];
    }
  }

  /** A list of tags satisfies If-None-Match exactly when one of them is the current tag but for W/. */
  lemma IfNoneMatchListExactly(tags: seq<string>, etag: string)
    requires forall t | t in tags :: Listable(t)
    requires Trim(Join(tags, ", ")) != "" && Trim(Join(tags, ", ")) != "*"
    ensures IfNoneMatchMatches(Join(tags, ", "), etag)
            <==> exists t | t in tags :: TrimPrefix(t, WEAK) == TrimPrefix(etag, WEAK)
  {
    var printed := Join(tags, ", ");
    var parts := Split(Trim(printed), ',');
    assert tags != [];
    ListSplits(tags);
    SplitTrim(printed, ',');
    assert TrimAll(parts) == tags;
    assert forall i | 0 <= i < |parts| :: Trim(parts[i]) == tags[i];
  }

  /** Whatever the header: what matches strongly matches weakly. */
  lemma StrongImpliesWeak(header: string, etag: string)
    requires IfMatchMatches(header, etag)
    ensures IfNoneMatchMatches(header, etag)
  {
    var list := Trim(header);
    var parts, trimmed := Split(header, ','), Split(list, ',');
    SplitTrim(header, ',');
    if header == "*" {
      TrimIsTrimmed("*");
    } else {
      var i :| 0 <= i < |parts| && Trim(parts[i]) == etag;
      assert TrimAll(trimmed)[i] == TrimAll(parts)[i] == etag;
    }
  }

  /** A computed tag matches itself in every list that names it, strongly and weakly. */
  lemma OwnTagMatches(hash: Hash, body: Bytes, tags: seq<string>)
    requires forall t | t in tags :: Listable(t)
    requires ComputeETag(hash, body) in tags
    ensures IfMatchMatches(Join(tags, ", "), ComputeETag(hash, body))
    ensures IfNoneMatchMatches(Join(tags, ", "), ComputeETag(hash, body))
  {
    var tag := ComputeETag(hash, body);
    ComputedTagIsListable(hash, body);
    if Join(tags, ", ") != "*" { IfMatchListExactly(tags, tag); }
    StrongImpliesWeak(Join(tags, ", "), tag);
  }

  /** A single computed tag as the whole If-Match header: equality. */
  lemma SingleTag(sent: string, etag: string)
    requires Listable(sent) && sent != "" && sent != "*" && !HasPrefix(sent, WEAK)
    ensures IfMatchMatches(Trim(sent), etag) <==> etag == sent
  {
    TrimIsTrimmed(sent);
    assert Join([sent], ", ") == sent;
    IfMatchListExactly([sent], etag);
  }
}
