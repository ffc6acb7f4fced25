/** The Forwarded header (RFC 7239): a quote-aware split, and the client that the first hop names. */
module Forwarded {
  import opened Strings

  // ------------------------------------------------------------------ the quote-aware split

  function Toggled(c: char, inQuotes: bool): bool {
    if c == '"' then !inQuotes else inQuotes
  }

  /** The parts of `text`, reading on from inside or outside a quoted string. */
  function SplitQuoted(text: string, sep: char, inQuotes: bool): (parts: seq<string>)
    ensures |parts| >= 1
  {
    if text == "" then [""]
    else
      var rest := SplitQuoted(text[1..], sep, Toggled(text[0], inQuotes));
      if text[0] == sep && text[0] != '"' && !inQuotes then [""] + rest
      else [[text[0]] + rest[0]] + rest[1..]
  }

  /** Finished parts, the part under way, and the parts still to come. */
  function Glued(done: seq<string>, current: string, rest: seq<string>): seq<string>
    requires rest != []
  {
    done + [current + rest[0]] + rest[1..]
  }

  lemma GluePart(done: seq<string>, current: string, rest: seq<string>)
    requires rest != []
    ensures Glued(done, current, [""] + rest) == Glued(done + [current], "", rest)
  {
    assert current + "" == current && "" + rest[0] == rest[0];
    assert ([""] + rest)[1..] == [rest[0]] + rest[1..];
  }

  lemma GlueChar(done: seq<string>, current: string, c: char, rest: seq<string>)
    requires rest != []
    ensures Glued(done, current, [[c] + rest[0]] + rest[1..]) == Glued(done, current + [c], rest)
  {
    assert current + ([c] + rest[0]) == (current + [c]) + rest[0];
  }

  method SplitTopLevel(text: string, sep: char) returns (parts: seq<string>)
    ensures parts == SplitQuoted(text, sep, false)
  {
    parts := [];
    var inQuotes, start := false, 0;
    ghost var all := SplitQuoted(text, sep, false);
    assert text[0..] == text && "" + all[0] == all[0];
    for i := 0 to |text|
      invariant 0 <= start <= i
      invariant Glued(parts, text[start..i], SplitQuoted(text[i..], sep, inQuotes)) == all
    {
      ghost var rest := SplitQuoted(text[i + 1..], sep, Toggled(text[i], inQuotes));
      assert text[i..][1..] == text[i + 1..];
      if text[i] == '"' {
        inQuotes := !inQuotes;
        GlueChar(parts, text[start..i], text[i], rest);
      } else if text[i] == sep && !inQuotes {
        GluePart(parts, text[start..i], rest);
        parts := parts + [text[start..i]];
        start := i + 1;
        assert text[start..i + 1] == "";
      } else {
        GlueChar(parts, text[start..i], text[i], rest);
      }
      assert start <= i ==> text[start..i + 1] == text[start..i] + [text[i]];
    }
    assert text[|text|..] == "" && text[start..|text|] + "" == text[start..];
    parts := parts + [text[start..]];
  }

  /** Whether a text read from outside quotes ends inside them. */
  function Open(text: string, inQuotes: bool): bool {
    if text == "" then inQuotes else Open(text[1..], Toggled(text[0], inQuotes))
  }

  /** Every separator of the text is inside quotes. */
  predicate SepsQuoted(text: string, sep: char, inQuotes: bool) {
    text == "" || ((text[0] == sep ==> inQuotes) && SepsQuoted(text[1..], sep, Toggled(text[0], inQuotes)))
  }

  lemma JoinChar(c: char, rest: seq<string>, sep: string)
    requires rest != []
    ensures Join([[c] + rest[0]] + rest[1..], sep) == [c] + Join(rest, sep)
  {
    assert ([[c] + rest[0]] + rest[1..])[1..] == rest[1..];
  }

  lemma JoinEmpty(rest: seq<string>, sep: string)
    requires rest != []
    ensures Join([""] + rest, sep) == sep + Join(rest, sep)
  {
    assert ([""] + rest)[1..] == rest;
  }

  /** The parts joined again are the text. */
  lemma {:induction false} SplitQuotedJoins(text: string, sep: char, inQuotes: bool)
    ensures Join(SplitQuoted(text, sep, inQuotes), [sep]) == text
  {
    if text != "" {
      var inside := Toggled(text[0], inQuotes);
      SplitQuotedJoins(text[1..], sep, inside);
      JoinChar(text[0], SplitQuoted(text[1..], sep, inside), [sep]);
      JoinEmpty(SplitQuoted(text[1..], sep, inside), [sep]);
      assert [text[0]] + text[1..] == text;
    }
  }

  /** Every separator left inside a part is quoted, and only the last part can end inside quotes. */
  lemma {:induction false} SplitQuotedParts(text: string, sep: char, inQuotes: bool)
    requires sep != '"'
    ensures var parts := SplitQuoted(text, sep, inQuotes);
            && SepsQuoted(parts[0], sep, inQuotes)
            && (|parts| > 1 ==> !Open(parts[0], inQuotes))
            && (forall k | 1 <= k < |parts| :: SepsQuoted(parts[k], sep, false))
            && (forall k | 1 <= k < |parts| - 1 :: !Open(parts[k], false))
  {
    if text != "" {
      var inside := Toggled(text[0], inQuotes);
      SplitQuotedParts(text[1..], sep, inside);
      var parts, rest := SplitQuoted(text, sep, inQuotes), SplitQuoted(text[1..], sep, inside);
      if text[0] == sep && !inQuotes {
        assert forall k | 1 <= k < |parts| :: parts[k] == rest[k - 1];
      } else {
        assert parts[0][1..] == rest[0];
        assert forall k | 1 <= k < |parts| :: parts[k] == rest[k];
      }
    }
  }

  lemma {:induction false} SplitQuotedWhole(text: string, sep: char, inQuotes: bool)
    requires sep != '"' && SepsQuoted(text, sep, inQuotes)
    ensures SplitQuoted(text, sep, inQuotes) == [text]
  {
    if text != "" {
      SplitQuotedWhole(text[1..], sep, Toggled(text[0], inQuotes));
      assert [text[0]] + text[1..] == text;
    }
  }

  lemma {:induction false} SplitQuotedFirst(p: string, rest: string, sep: char, inQuotes: bool)
    requires sep != '"' && SepsQuoted(p, sep, inQuotes) && !Open(p, inQuotes)
    ensures SplitQuoted(p + [sep] + rest, sep, inQuotes) == [p] + SplitQuoted(rest, sep, false)
  {
    var whole := p + [sep] + rest;
    if p == "" {
      assert whole[1..] == rest;
    } else {
      assert whole[1..] == p[1..] + [sep] + rest;
      SplitQuotedFirst(p[1..], rest, sep, Toggled(p[0], inQuotes));
      assert [p[0]] + p[1..] == p;
      assert ([p[1..]] + SplitQuoted(rest, sep, false))[1..] == SplitQuoted(rest, sep, false);
    }
  }

  /** Parts whose separators are quoted, and which close their quotes, split back into themselves. */
  lemma {:induction false} SplitQuotedJoin(parts: seq<string>, sep: char)
    requires |parts| >= 1 && sep != '"'
    requires forall k | 0 <= k < |parts| :: SepsQuoted(parts[k], sep, false) && !Open(parts[k], false)
    ensures SplitQuoted(Join(parts, [sep]), sep, false) == parts
  {
    if |parts| == 1 {
      SplitQuotedWhole(parts[0], sep, false);
    } else {
      SplitQuotedFirst(parts[0], Join(parts[1..], [sep]), sep, false);
      SplitQuotedJoin(parts[1..], sep);
    }
  }

  // --------------------------------------------------------------------- the parser

  /** strings.Cut */
  function Cut(s: string, sep: char): Option<(string, string)> {
    if s == "" then None
    else if s[0] == sep then Some(("", s[1..]))
    else
      match Cut(s[1..], sep)
      case None => None
      case Some((before, after)) => Some(([s[0]] + before, after))
  }

  /** The simple case folding of strings.EqualFold, as far as it can reach a letter of ASCII. */
  function Fold(c: char): char {
    if 'A' <= c <= 'Z' then (c as int + 32) as char
    else if c == '\U{212A}' then 'k'
    else if c == '\U{017F}' then 's'
    else c
  }

  predicate EqualFold(a: string, b: string) {
    |a| == |b| && forall i | 0 <= i < |a| :: Fold(a[i]) == Fold(b[i])
  }

  /** The replacer that undoes \\" and \\\\, in one pass. */
  function Unescape(s: string): string {
    if s == "" then ""
    else if |s| >= 2 && s[0] == '\\' && (s[1] == '"' || s[1] == '\\') then [s[1]] + Unescape(s[2..])
    else [s[0]] + Unescape(s[1..])
  }

  function UnquoteForwardedValue(value: string): string {
    if |value| < 2 || value[0] != '"' || value[|value| - 1] != '"' then value
    else Unescape(value[1..|value| - 1])
  }

  function StripForwardedNodePort(node: string): string {
    if HasPrefix(node, "[") then
      match Cut(node, ']')
      case Some((before, _)) => if before == "" then "" else before[1..]
      case None => node
    else
      match Cut(node, ':')
      case Some((host, _)) => host
      case None => node
  }

  /** What the value of a "for" parameter stands for. */
  function ClientOf(value: string): string {
    if value == "" || EqualFold(value, "unknown") then "" else StripForwardedNodePort(value)
  }

  function FirstFor(pairs: seq<string>): string {
    if pairs == [] then ""
    else
      match Cut(pairs[0], '=')
      case None => FirstFor(pairs[1..])
      case Some((name, value)) =>
        if EqualFold(Trim(name), "for") then ClientOf(UnquoteForwardedValue(Trim(value)))
        else FirstFor(pairs[1..])
  }

  function ForwardedFor(header: string): string {
    if header == "" then ""
    else FirstFor(SplitQuoted(SplitQuoted(header, ',', false)[0], ';', false))
  }

  method ParseForwardedFor(header: string) returns (client: string)
    ensures client == ForwardedFor(header)
  {
    if header == "" {
      return "";
    }
    var hops := SplitTopLevel(header, ',');
    var pairs := SplitTopLevel(hops[0], ';');
    for i := 0 to |pairs|
      invariant FirstFor(pairs[i..]) == FirstFor(pairs)
    {
      assert pairs[i..][1..] == pairs[i + 1..];
      var cut := Cut(pairs[i], '=');
      if cut.None? {
        continue;
      }
      var (name, value) := cut.value;
      if !EqualFold(Trim(name), "for") {
        continue;
      }
      value := UnquoteForwardedValue(Trim(value));
      if value == "" || EqualFold(value, "unknown") {
        return "";
      }
      return StripForwardedNodePort(value);
    }
    assert pairs[|pairs|..] == [];
    return "";
  }

  // --------------------------------------------------------- printing, by section 4

  datatype Text = Token(text: string) | Quoted(text: string)
  /** A name and a value, with blanks before and after either. */
  datatype Param = Param(before: string, name: string, after: string, lead: string, value: Text, trail: string)
  type Hop = seq<Param>

  predicate IsTokenChar(c: char) {
    || '0' <= c <= '9' || 'a' <= c <= 'z' || 'A' <= c <= 'Z'
    || c == '!' || '#' <= c <= '\'' || c == '*' || c == '+' || c == '-' || c == '.' || '^' <= c <= '`'
    || c == '|' || c == '~'
  }

  predicate IsToken(s: string) {
    forall i | 0 <= i < |s| :: IsTokenChar(s[i])
  }

  /** Quotes and backslashes are escaped inside a quoted string. */
  function EscapeQuoted(s: string): string {
    if s == "" then ""
    else (if s[0] == '"' || s[0] == '\\' then ['\\', s[0]] else [s[0]]) + EscapeQuoted(s[1..])
  }

  /** The splitter takes an escaped quote for a real one. It still sees the end of the string when
      there is an even number of them, and a separator inside when an even number precedes it. */
  predicate Tame(text: string, sep: char) {
    SepsQuoted(text, sep, true) && Open(text, true)
  }

  predicate WellFormedText(t: Text) {
    match t
    case Token(text) => IsToken(text)
    case Quoted(text) => Tame(text, ',') && Tame(text, ';')
  }

  predicate WellFormed(p: Param) {
    && IsToken(p.name) && WellFormedText(p.value)
    && Blank(p.before) && Blank(p.after) && Blank(p.lead) && Blank(p.trail)
  }

  /** A parameter without blanks. */
  function Bare(name: string, value: Text): Param {
    Param("", name, "", "", value, "")
  }

  function PrintText(t: Text): string {
    match t
    case Token(text) => text
    case Quoted(text) => "\"" + EscapeQuoted(text) + "\""
  }

  function PrintParam(p: Param): string {
    (p.before + p.name + p.after) + "=" + (p.lead + PrintText(p.value) + p.trail)
  }

  function PrintParams(hop: Hop): (r: seq<string>)
    ensures |r| == |hop| && forall i | 0 <= i < |hop| :: r[i] == PrintParam(hop[i])
  {
    seq(|hop|, i requires 0 <= i < |hop| => PrintParam(hop[i]))
  }

  function PrintHop(hop: Hop): string {
    Join(PrintParams(hop), ";")
  }

  /** Hops are separated by a comma and optional white space. */
  function Print(hops: seq<Hop>, space: string): string {
    if hops == [] then ""
    else if |hops| == 1 then PrintHop(hops[0])
    else PrintHop(hops[0]) + "," + (space + Print(hops[1..], space))
  }

  /** A client node: the name, in brackets for IPv6, and an optional port. */
  datatype Node = Node(bracketed: bool, name: string, port: Option<string>)

  function NodeText(n: Node): string {
    (if n.bracketed then "[" + n.name + "]" else n.name) + if n.port.Some? then ":" + n.port.value else ""
  }

  predicate ValidNode(n: Node) {
    if n.bracketed then ']' !in n.name else ':' !in n.name && !HasPrefix(n.name, "[")
  }

  // ----------------------------------------------------------------- the round trip

  lemma {:induction false} CutAt(a: string, b: string, sep: char)
    requires sep !in a
    ensures Cut(a + [sep] + b, sep) == Some((a, b))
  {
    var whole := a + [sep] + b;
    if a == "" {
      assert whole[1..] == b;
    } else {
      assert a[0] in a;
      assert whole[1..] == a[1..] + [sep] + b;
      CutAt(a[1..], b, sep);
      assert [a[0]] + a[1..] == a;
    }
  }

  lemma {:induction false} CutNowhere(s: string, sep: char)
    requires sep !in s
    ensures Cut(s, sep) == None
  {
    if s != "" { CutNowhere(s[1..], sep); }
  }

  lemma {:induction false} UnescapeEscape(s: string)
    ensures Unescape(EscapeQuoted(s)) == s
  {
    if s != "" {
      UnescapeEscape(s[1..]);
      var rest := EscapeQuoted(s[1..]);
      if s[0] == '"' || s[0] == '\\' {
        assert (['\\', s[0]] + rest)[2..] == rest;
      } else {
        assert ([s[0]] + rest)[1..] == rest;
      }
      assert [s[0]] + s[1..] == s;
    }
  }

  lemma NodeStripped(n: Node)
    requires ValidNode(n)
    ensures StripForwardedNodePort(NodeText(n)) == n.name
  {
    var port := if n.port.Some? then ":" + n.port.value else "";
    if n.bracketed {
      assert NodeText(n) == ("[" + n.name) + [']'] + port;
      CutAt("[" + n.name, port, ']');
      assert ("[" + n.name)[1..] == n.name;
    } else if n.port.Some? {
      assert NodeText(n) == n.name + [':'] + n.port.value;
      CutAt(n.name, n.port.value, ':');
      assert NodeText(n)[0] == if n.name == "" then ':' else n.name[0];
    } else {
      assert NodeText(n) == n.name;
      CutNowhere(n.name, ':');
    }
  }

  lemma {:induction false} TokenPlain(s: string, sep: char)
    requires IsToken(s) && (sep == ',' || sep == ';')
    ensures SepsQuoted(s, sep, false) && !Open(s, false)
  {
    if s != "" { TokenPlain(s[1..], sep); }
  }

  /** Backslashes are neither quotes nor separators. */
  lemma {:induction false} EscapeKeepsQuoting(s: string, sep: char, inQuotes: bool)
    requires sep == ',' || sep == ';'
    ensures SepsQuoted(EscapeQuoted(s), sep, inQuotes) == SepsQuoted(s, sep, inQuotes)
    ensures Open(EscapeQuoted(s), inQuotes) == Open(s, inQuotes)
  {
    if s != "" {
      EscapeKeepsQuoting(s[1..], sep, Toggled(s[0], inQuotes));
      var rest := EscapeQuoted(s[1..]);
      if s[0] == '"' || s[0] == '\\' {
        assert (['\\', s[0]] + rest)[1..] == [s[0]] + rest && ([s[0]] + rest)[1..] == rest;
      } else {
        assert ([s[0]] + rest)[1..] == rest;
      }
    }
  }

  lemma {:induction false} ConcatQuoted(a: string, b: string, sep: char, inQuotes: bool)
    ensures Open(a + b, inQuotes) == Open(b, Open(a, inQuotes))
    ensures SepsQuoted(a + b, sep, inQuotes) == (SepsQuoted(a, sep, inQuotes) && SepsQuoted(b, sep, Open(a, inQuotes)))
  {
    if a == "" {
      assert a + b == b;
    } else {
      assert (a + b)[1..] == a[1..] + b;
      ConcatQuoted(a[1..], b, sep, Toggled(a[0], inQuotes));
    }
  }

  /** A quoted value, as the splitter sees it. */
  lemma QuotedClosedExactly(text: string, sep: char)
    requires sep == ',' || sep == ';'
    ensures SepsQuoted(PrintText(Quoted(text)), sep, false) == SepsQuoted(text, sep, true)
    ensures Open(PrintText(Quoted(text)), false) == !Open(text, true)
  {
    EscapeKeepsQuoting(text, sep, true);
    ConcatQuoted("\"" + EscapeQuoted(text), "\"", sep, false);
    ConcatQuoted("\"", EscapeQuoted(text), sep, false);
    assert "\""[1..] == "";
  }

  lemma TextClosed(t: Text, sep: char)
    requires sep == ',' || sep == ';'
    requires WellFormedText(t)
    ensures SepsQuoted(PrintText(t), sep, false) && !Open(PrintText(t), false)
  {
    match t
    case Token(text) => TokenPlain(text, sep);
    case Quoted(text) => QuotedClosedExactly(text, sep);
  }

  lemma {:induction false} PlainIsClosed(s: string, sep: char, inQuotes: bool)
    requires sep !in s && '"' !in s
    ensures SepsQuoted(s, sep, inQuotes) && Open(s, inQuotes) == inQuotes
  {
    if s != "" {
      assert s[0] in s;
      PlainIsClosed(s[1..], sep, inQuotes);
    }
  }

  lemma BlankIsPlain(s: string)
    requires Blank(s)
    ensures ',' !in s && ';' !in s && '"' !in s && '=' !in s
  {}

  /** A text with blanks around it. */
  lemma PaddedClosed(before: string, text: string, after: string, sep: char)
    requires (sep == ',' || sep == ';') && Blank(before) && Blank(after)
    requires SepsQuoted(text, sep, false) && !Open(text, false)
    ensures SepsQuoted(before + text + after, sep, false) && !Open(before + text + after, false)
  {
    BlankIsPlain(before);
    BlankIsPlain(after);
    PlainIsClosed(before, sep, false);
    PlainIsClosed(after, sep, false);
    ConcatQuoted(before, text, sep, false);
    ConcatQuoted(before + text, after, sep, false);
  }

  lemma ParamClosed(p: Param, sep: char)
    requires WellFormed(p) && (sep == ',' || sep == ';')
    ensures SepsQuoted(PrintParam(p), sep, false) && !Open(PrintParam(p), false)
  {
    var name, value := p.before + p.name + p.after, p.lead + PrintText(p.value) + p.trail;
    TokenPlain(p.name, sep);
    TextClosed(p.value, sep);
    PaddedClosed(p.before, p.name, p.after, sep);
    PaddedClosed(p.lead, PrintText(p.value), p.trail, sep);
    ConcatQuoted(name + "=", value, sep, false);
    ConcatQuoted(name, "=", sep, false);
    assert "="[1..] == "";
  }

  lemma {:induction false} HopClosed(hop: Hop)
    requires forall i | 0 <= i < |hop| :: WellFormed(hop[i])
    ensures SepsQuoted(PrintHop(hop), ',', false) && !Open(PrintHop(hop), false)
  {
    if hop != [] {
      ParamClosed(hop[0], ',');
      if |hop| > 1 {
        HopClosed(hop[1..]);
        assert PrintParams(hop)[1..] == PrintParams(hop[1..]);
        ConcatQuoted(PrintParam(hop[0]) + ";", PrintHop(hop[1..]), ',', false);
        ConcatQuoted(PrintParam(hop[0]), ";", ',', false);
        assert ";"[1..] == "";
      }
    }
  }

  /** The first hop is split off and into its printed parameters. */
  lemma FirstHopSplits(hops: seq<Hop>, space: string)
    requires hops != [] && forall i | 0 <= i < |hops[0]| :: WellFormed(hops[0][i])
    ensures SplitQuoted(Print(hops, space), ',', false)[0] == PrintHop(hops[0])
    ensures SplitQuoted(PrintHop(hops[0]), ';', false) == if hops[0] == [] then [""] else PrintParams(hops[0])
  {
    HopClosed(hops[0]);
    if |hops| == 1 {
      SplitQuotedWhole(PrintHop(hops[0]), ',', false);
    } else {
      SplitQuotedFirst(PrintHop(hops[0]), space + Print(hops[1..], space), ',', false);
    }
    forall i | 0 <= i < |hops[0]|
      ensures SepsQuoted(PrintParams(hops[0])[i], ';', false) && !Open(PrintParams(hops[0])[i], false)
    {
      ParamClosed(hops[0][i], ';');
    }
    if hops[0] != [] { SplitQuotedJoin(PrintParams(hops[0]), ';'); }
  }

  /** "for", in whatever case. */
  predicate IsFor(s: string) {
    |s| == 3 && s[0] in {'f', 'F'} && s[1] in {'o', 'O'} && s[2] in {'r', 'R'}
  }

  /** "unknown", in whatever case; the sign for kelvin folds to a k. */
  predicate IsUnknown(s: string) {
    && |s| == 7 && s[0] in {'u', 'U'} && s[1] in {'n', 'N'} && s[2] in {'k', 'K', '\U{212A}'} && s[3] in {'n', 'N'}
    && s[4] in {'o', 'O'} && s[5] in {'w', 'W'} && s[6] in {'n', 'N'}
  }

  lemma FoldedWords(s: string)
    ensures EqualFold(s, "for") <==> IsFor(s)
    ensures EqualFold(s, "unknown") <==> IsUnknown(s)
  {
    if |s| == 7 { FoldsToUnknown(s); }
  }

  lemma FoldsToUnknown(s: string)
    requires |s| == 7
    ensures EqualFold(s, "unknown") <==> IsUnknown(s)
  {
    if IsUnknown(s) {
      assert forall i | 0 <= i < 7 :: Fold(s[i]) == "unknown"[i];
    }
    if EqualFold(s, "unknown") {
      assert Fold(s[0]) == 'u' && Fold(s[1]) == 'n' && Fold(s[2]) == 'k' && Fold(s[3]) == 'n';
      assert Fold(s[4]) == 'o' && Fold(s[5]) == 'w' && Fold(s[6]) == 'n';
    }
  }

  /** The value of the first parameter of a hop that is called "for". */
  function ForText(hop: Hop): Option<string> {
    if hop == [] then None
    else if IsFor(hop[0].name) then Some(hop[0].value.text)
    else ForText(hop[1..])
  }

  lemma TokenIsPlain(s: string)
    requires IsToken(s)
    ensures Trimmed(s) && '=' !in s
  {}

  lemma CutAtEquals(name: string, value: string)
    requires '=' !in name
    ensures Cut(name + "=" + value, '=') == Some((name, value))
  {
    assert name + "=" + value == name + ['='] + value;
    CutAt(name, value, '=');
  }

  lemma TextReads(t: Text)
    requires WellFormedText(t)
    ensures UnquoteForwardedValue(Trim(PrintText(t))) == t.text
  {
    TrimIsTrimmed(PrintText(t));
    match t
    case Token(_) =>
    case Quoted(text) =>
      var inner := EscapeQuoted(text);
      assert PrintText(t)[1..|inner| + 1] == inner;
      UnescapeEscape(text);
  }

  lemma TextIsTrimmed(t: Text)
    requires WellFormedText(t)
    ensures Trimmed(PrintText(t))
  {}

  lemma ParamReads(p: Param)
    requires WellFormed(p)
    ensures var cut := Cut(PrintParam(p), '=');
            && cut.Some? && Trim(cut.value.0) == p.name
            && UnquoteForwardedValue(Trim(cut.value.1)) == p.value.text
  {
    TokenIsPlain(p.name);
    BlankIsPlain(p.before);
    BlankIsPlain(p.after);
    CutAtEquals(p.before + p.name + p.after, p.lead + PrintText(p.value) + p.trail);
    TrimPadded(p.before, p.name, p.after);
    TextIsTrimmed(p.value);
    TrimPadded(p.lead, PrintText(p.value), p.trail);
    TrimIsTrimmed(PrintText(p.value));
    TextReads(p.value);
  }

  /** What is no node in the grammar: an open bracket stays, and the first colon ends the rest. */
  lemma OpenBracketStays(name: string)
    requires ']' !in name
    ensures StripForwardedNodePort("[" + name) == "[" + name
  {
    CutNowhere("[" + name, ']');
  }

  /** Pairs without an equals sign and pairs of another name are passed over; the first "for" decides,
      and an empty value stands for no client. */
  lemma FirstForDecides(pair: string, rest: seq<string>, name: string, value: string)
    requires '=' !in pair && '=' !in name
    ensures FirstFor([pair] + rest) == FirstFor(rest)
    ensures FirstFor([name + "=" + value] + rest)
            == if IsFor(Trim(name)) then ClientOf(UnquoteForwardedValue(Trim(value))) else FirstFor(rest)
    ensures ClientOf("") == ""
  {
    CutNowhere(pair, '=');
    CutAtEquals(name, value);
    FoldedWords(Trim(name));
    assert ([pair] + rest)[1..] == rest && ([name + "=" + value] + rest)[1..] == rest;
  }

  /** A printed node reads as an unknown client exactly when it is the bare word. */
  lemma UnknownExactly(n: Node)
    requires ValidNode(n)
    ensures EqualFold(NodeText(n), "unknown") <==> !n.bracketed && n.port.None? && IsUnknown(n.name)
  {
    FoldedWords(NodeText(n));
    if n.bracketed {
      assert NodeText(n)[0] == '[';
    } else if n.port.Some? {
      assert NodeText(n)[|n.name|] == ':';
      if |NodeText(n)| == 7 { assert "unknown"[|n.name|] != ':'; }
    } else {
      assert NodeText(n) == n.name;
    }
  }

  lemma {:induction false} HopReads(hop: Hop)
    requires forall i | 0 <= i < |hop| :: WellFormed(hop[i])
    ensures FirstFor(PrintParams(hop)) == match ForText(hop) case None => "" case Some(text) => ClientOf(text)
  {
    if hop != [] {
      ParamReads(hop[0]);
      FoldedWords(hop[0].name);
      assert PrintParams(hop)[1..] == PrintParams(hop[1..]);
      HopReads(hop[1..]);
    }
  }

  /** Whatever list of hops is printed, the parser returns the name of the node that the first
      hop's first "for" names, without port and brackets, and "" when there is none. An unknown
      client gives "" exactly when it comes without a port. */
  lemma ForwardedRoundTrip(hops: seq<Hop>, space: string, node: Node)
    requires hops != [] && forall i | 0 <= i < |hops[0]| :: WellFormed(hops[0][i])
    requires ForText(hops[0]).Some? ==> ForText(hops[0]).value == NodeText(node) && ValidNode(node)
    ensures ForwardedFor(Print(hops, space))
            == if ForText(hops[0]).None? then ""
               else if IsUnknown(node.name) && !node.bracketed && node.port.None? then ""
               else node.name
  {
    FirstHopSplits(hops, space);
    HopReads(hops[0]);
    if ForText(hops[0]).Some? {
      assert PrintParams(hops[0])[0] != "";
      NodeStripped(node);
      UnknownExactly(node);
    } else {
      assert [""][1..] == [] && Cut("", '=').None?;
    }
  }
}
