/** Escaped quotes in the Forwarded header: the splitter takes them for real ones. When that does no
    harm, exactly, and what comes out when it does. */
module ForwardedQuotes {
  import opened Strings
  import opened Forwarded

  // ------------------------------------------- escaped quotes, and exactly when they do no harm

  /** The first part ends where p does exactly when p quotes its separators and closes its quotes. */
  lemma {:induction false} FirstPartExactly(p: string, rest: string, sep: char, inQuotes: bool)
    requires sep != '"'
    ensures SplitQuoted(p + [sep] + rest, sep, inQuotes)[0] == p <==> SepsQuoted(p, sep, inQuotes) && !Open(p, inQuotes)
  {
    var whole := p + [sep] + rest;
    if p == "" {
      assert whole[1..] == rest;
    } else {
      assert whole[1..] == p[1..] + [sep] + rest;
      FirstPartExactly(p[1..], rest, sep, Toggled(p[0], inQuotes));
      var parts := SplitQuoted(whole[1..], sep, Toggled(p[0], inQuotes));
      assert p == [p[0]] + p[1..];
      assert ([p[0]] + parts[0])[1..] == parts[0];
    }
  }

  /** A quoted value with another hop or parameter after it is split off whole exactly when it has an
      even number of quotes, and an even number before each separator in it. */
  lemma QuotedSplitsExactly(text: string, rest: string, sep: char)
    requires sep == ',' || sep == ';'
    ensures SplitQuoted(PrintText(Quoted(text)) + [sep] + rest, sep, false)[0] == PrintText(Quoted(text))
            <==> Quotes(text) % 2 == 0 && forall i | 0 <= i < |text| && text[i] == sep :: Quotes(text[..i]) % 2 == 0
  {
    FirstPartExactly(PrintText(Quoted(text)), rest, sep, false);
    QuotedClosedExactly(text, sep);
    TameExactly(text, sep);
  }

  function Quotes(s: string): nat {
    if s == "" then 0 else Quotes(s[..|s| - 1]) + if s[|s| - 1] == '"' then 1 else 0
  }

  lemma TameExactly(text: string, sep: char)
    requires sep != '"'
    ensures Tame(text, sep)
            <==> Quotes(text) % 2 == 0 && forall i | 0 <= i < |text| && text[i] == sep :: Quotes(text[..i]) % 2 == 0
  {
    OpenCounts(text, true);
    SepsCount(text, sep);
  }

  lemma {:induction false} OpenCounts(s: string, inQuotes: bool)
    ensures Open(s, inQuotes) == (inQuotes == (Quotes(s) % 2 == 0))
  {
    if s != "" {
      var n := |s| - 1;
      OpenCounts(s[..n], inQuotes);
      assert s == s[..n] + [s[n]];
      ConcatQuoted(s[..n], [s[n]], ',', inQuotes);
      assert [s[n]][1..] == "";
    }
  }

  lemma {:induction false} SepsCount(s: string, sep: char)
    requires sep != '"'
    ensures SepsQuoted(s, sep, true) <==> forall i | 0 <= i < |s| && s[i] == sep :: Quotes(s[..i]) % 2 == 0
  {
    if s != "" {
      var n := |s| - 1;
      SepsCount(s[..n], sep);
      OpenCounts(s[..n], true);
      assert s == s[..n] + [s[n]];
      ConcatQuoted(s[..n], [s[n]], sep, true);
      assert [s[n]][1..] == "";
      assert forall i | 0 <= i <= n :: s[..n][..i] == s[..i];
    }
  }

  /** A client whose quoted value has a quote and then a comma is cut off at the comma, and keeps the
      backslash that was to escape the quote. */
  lemma EscapedQuoteCuts(u: string, w: string)
    requires forall c | c in u :: c !in {'"', '\\', ',', ';', ':', '['}
    ensures ForwardedFor(PrintHop([Bare("for", Quoted(u + "\"," + w))])) == u + "\\"
  {
    var header, value := PrintHop([Bare("for", Quoted(u + "\"," + w))]), "\"" + u + "\\\"";
    EscapePrefix(u, w);
    assert header == ("for=" + value) + [','] + (EscapeQuoted(w) + "\"");
    ValueIsClosed(u, ',');
    ValueIsClosed(u, ';');
    SplitQuotedFirst("for=" + value, EscapeQuoted(w) + "\"", ',', false);
    SplitQuotedWhole("for=" + value, ';', false);
    CutValueReads(u);
  }

  lemma CutValueReads(u: string)
    requires forall c | c in u :: c !in {'"', '\\', ',', ';', ':', '['}
    ensures FirstFor(["for=" + ("\"" + u + "\\\"")]) == u + "\\"
  {
    var value := "\"" + u + "\\\"";
    assert "for=" + value == "for" + ['='] + value;
    CutAt("for", value, '=');
    TrimIsTrimmed("for");
    TrimIsTrimmed(value);
    assert value[1..|value| - 1] == u + "\\";
    UnescapeTrailing(u);
    BackslashClient(u);
  }

  lemma BackslashClient(u: string)
    requires forall c | c in u :: c !in {'"', '\\', ',', ';', ':', '['}
    ensures ClientOf(u + "\\") == u + "\\"
  {
    var s := u + "\\";
    assert forall c | c in s :: c in u || c == '\\';
    CutNowhere(s, ':');
    assert s[0] in s && s[|u|] == '\\';
    if |s| == 7 { assert Fold(s[6]) != Fold("unknown"[6]); }
  }

  lemma {:induction false} EscapePrefix(u: string, w: string)
    requires '"' !in u && '\\' !in u
    ensures EscapeQuoted(u + "\"," + w) == u + "\\\"," + EscapeQuoted(w)
  {
    var text := u + "\"," + w;
    if u == "" {
      assert text[1..] == "," + w && ("," + w)[1..] == w;
      assert ['\\', '"'] + ([','] + EscapeQuoted(w)) == "\\\"," + EscapeQuoted(w);
    } else {
      assert u[0] in u;
      assert text[1..] == u[1..] + "\"," + w;
      EscapePrefix(u[1..], w);
      assert [u[0]] + u[1..] == u;
    }
  }

  lemma ValueIsClosed(u: string, sep: char)
    requires sep == ',' || sep == ';'
    requires forall c | c in u :: c != '"' && c != sep
    ensures var p := "for=" + ("\"" + u + "\\\""); SepsQuoted(p, sep, false) && !Open(p, false)
  {
    PlainIsClosed("for=", sep, false);
    PlainIsClosed(u + "\\", sep, true);
    ConcatQuoted("for=" + "\"" + (u + "\\"), "\"", sep, false);
    ConcatQuoted("for=" + "\"", u + "\\", sep, false);
    ConcatQuoted("for=", "\"", sep, false);
    assert "\""[1..] == "";
    assert "for=" + ("\"" + u + "\\\"") == "for=" + "\"" + (u + "\\") + "\"";
  }

  lemma {:induction false} UnescapeTrailing(u: string)
    requires '\\' !in u
    ensures Unescape(u + "\\") == u + "\\"
  {
    var s := u + "\\";
    if u == "" {
      assert s[1..] == "" && [s[0]] + "" == s;
    } else {
      assert u[0] in u;
      assert s[1..] == u[1..] + "\\";
      UnescapeTrailing(u[1..]);
      assert [u[0]] + (u[1..] + "\\") == s;
    }
  }
  // ------------------------------------------------------ the client of such a value, exactly

  /** Either separator ends a part. */
  predicate Stop(c: char) {
    c == ',' || c == ';'
  }

  /** The text up to the first unquoted separator. */
  function UpTo(text: string, inQuotes: bool): string {
    if text == "" || (Stop(text[0]) && !inQuotes) then ""
    else [text[0]] + UpTo(text[1..], Toggled(text[0], inQuotes))
  }

  /** Both splits together stop there. */
  lemma {:induction false} FirstPairIsUpTo(text: string, inQuotes: bool)
    ensures SplitQuoted(SplitQuoted(text, ',', inQuotes)[0], ';', inQuotes)[0] == UpTo(text, inQuotes)
  {
    if text != "" && !(text[0] == ',' && !inQuotes) {
      var inside := Toggled(text[0], inQuotes);
      FirstPairIsUpTo(text[1..], inside);
      var hop := SplitQuoted(text, ',', inQuotes)[0];
      assert hop[1..] == SplitQuoted(text[1..], ',', inside)[0];
    }
  }

  predicate StopsQuoted(text: string, inQuotes: bool) {
    SepsQuoted(text, ',', inQuotes) && SepsQuoted(text, ';', inQuotes)
  }

  lemma {:induction false} UpToConcat(p: string, tail: string, inQuotes: bool)
    ensures StopsQuoted(p, inQuotes) ==> UpTo(p + tail, inQuotes) == p + UpTo(tail, Open(p, inQuotes))
  {
    if p == "" {
      assert p + tail == tail;
    } else {
      assert (p + tail)[1..] == p[1..] + tail;
      UpToConcat(p[1..], tail, Toggled(p[0], inQuotes));
    }
  }

  lemma UpToValue(text: string, tail: string)
    requires StopsQuoted(text, true)
    ensures UpTo("for=" + PrintText(Quoted(text)) + tail, false)
            == "for=" + PrintText(Quoted(text)) + UpTo(tail, !Open(text, true))
  {
    ValueQuoting(text);
    UpToConcat("for=" + PrintText(Quoted(text)), tail, false);
  }

  lemma ValueQuoting(text: string)
    ensures var p := "for=" + PrintText(Quoted(text));
            StopsQuoted(p, false) == StopsQuoted(text, true) && Open(p, false) == !Open(text, true)
  {
    forall sep | sep == ',' || sep == ';'
      ensures SepsQuoted("for=" + PrintText(Quoted(text)), sep, false) == SepsQuoted(text, sep, true)
      ensures Open("for=" + PrintText(Quoted(text)), false) == !Open(text, true)
    {
      QuotedClosedExactly(text, sep);
      PlainIsClosed("for=", sep, false);
      ConcatQuoted("for=", PrintText(Quoted(text)), sep, false);
    }
  }

  lemma FirstPairAnswers(header: string, value: string)
    requires UpTo(header, false) == "for=" + value
    ensures ForwardedFor(header) == ClientOf(UnquoteForwardedValue(Trim(value)))
  {
    FirstPairIsUpTo(header, false);
    var pair := "for=" + value;
    assert pair == "for" + ['='] + value;
    CutAt("for", value, '=');
    TrimIsTrimmed("for");
  }

  /** How many separators a text holds: no step of the parser but cutting changes that. */
  function Stops(s: string): nat {
    if s == "" then 0 else (if Stop(s[0]) then 1 else 0) + Stops(s[1..])
  }

  lemma {:induction false} StopsConcat(a: string, b: string)
    ensures Stops(a + b) == Stops(a) + Stops(b)
  {
    if a == "" {
      assert a + b == b;
    } else {
      assert (a + b)[1..] == a[1..] + b;
      StopsConcat(a[1..], b);
    }
  }

  lemma {:induction false} StopsEscape(s: string)
    ensures Stops(EscapeQuoted(s)) == Stops(s)
  {
    if s != "" {
      StopsEscape(s[1..]);
      var rest := EscapeQuoted(s[1..]);
      if s[0] == '"' || s[0] == '\\' {
        assert (['\\', s[0]] + rest)[1..] == [s[0]] + rest && ([s[0]] + rest)[1..] == rest;
      } else {
        assert ([s[0]] + rest)[1..] == rest;
      }
    }
  }

  lemma {:induction false} StopsUnescape(s: string)
    ensures Stops(Unescape(s)) == Stops(s)
  {
    if s != "" {
      if |s| >= 2 && s[0] == '\\' && (s[1] == '"' || s[1] == '\\') {
        StopsUnescape(s[2..]);
        assert s[1..][1..] == s[2..];
        assert ([s[1]] + Unescape(s[2..]))[1..] == Unescape(s[2..]);
      } else {
        StopsUnescape(s[1..]);
        assert ([s[0]] + Unescape(s[1..]))[1..] == Unescape(s[1..]);
      }
    }
  }

  lemma StopsSlice(s: string, i: nat, j: nat)
    requires i <= j <= |s|
    ensures Stops(s[i..j]) <= Stops(s)
  {
    assert s == s[..i] + (s[i..j] + s[j..]);
    StopsConcat(s[..i], s[i..j] + s[j..]);
    StopsConcat(s[i..j], s[j..]);
  }

  lemma {:induction false} CutIsSlice(s: string, sep: char)
    ensures Cut(s, sep).Some? ==> Cut(s, sep).value.0 <= s
  {
    if s != "" && s[0] != sep { CutIsSlice(s[1..], sep); }
  }

  /** No value names a client with more separators than it has itself. */
  lemma StopsOfClient(value: string)
    ensures Stops(ClientOf(value)) <= Stops(value)
  {
    CutIsSlice(value, ']');
    CutIsSlice(value, ':');
    var client := StripForwardedNodePort(value);
    if HasPrefix(value, "[") && Cut(value, ']').Some? {
      var before := Cut(value, ']').value.0;
      if before != "" {
        StopsSlice(value, 1, |before|);
        assert before[1..] == value[1..|before|];
      }
    } else {
      StopsSlice(value, 0, |client|);
      assert client == value[0..|client|];
    }
  }

  lemma StopsOfValue(value: string)
    ensures Stops(ClientOf(UnquoteForwardedValue(Trim(value)))) <= Stops(value)
  {
    var left, trimmed := TrimLeft(value), Trim(value);
    TrimLeftLaws(value);
    TrimRightLaws(left);
    StopsSlice(value, |value| - |left|, |value|);
    StopsSlice(left, 0, |trimmed|);
    assert value[|value| - |left|..|value|] == left && left[0..|trimmed|] == trimmed;
    if 2 <= |trimmed| {
      StopsSlice(trimmed, 1, |trimmed| - 1);
      StopsUnescape(trimmed[1..|trimmed| - 1]);
    }
    StopsOfClient(UnquoteForwardedValue(trimmed));
  }

  /** The first separator that stands, to the splitter, outside the quotes. */
  lemma {:induction false} FirstBareStop(text: string) returns (c: nat)
    requires !StopsQuoted(text, true)
    ensures c < |text| && Stop(text[c]) && StopsQuoted(text[..c], true) && !Open(text[..c], true)
  {
    var n := |text| - 1;
    var front := text[..n];
    if !StopsQuoted(front, true) {
      c := FirstBareStop(front);
      assert front[..c] == text[..c];
    } else {
      c := n;
      assert text == front + [text[n]];
      ConcatQuoted(front, [text[n]], ',', true);
      ConcatQuoted(front, [text[n]], ';', true);
      assert [text[n]][1..] == "";
    }
  }

  lemma {:induction false} EscapeConcat(a: string, b: string)
    ensures EscapeQuoted(a + b) == EscapeQuoted(a) + EscapeQuoted(b)
  {
    if a == "" {
      assert a + b == b;
    } else {
      assert (a + b)[1..] == a[1..] + b;
      EscapeConcat(a[1..], b);
    }
  }

  /** A value cut short names no client with all its separators. */
  lemma CutShort(text: string, tail: string)
    requires !StopsQuoted(text, true)
    ensures Stops(ForwardedFor("for=" + PrintText(Quoted(text)) + tail)) < Stops(text)
  {
    var c := FirstBareStop(text);
    var u, w := text[..c], text[c + 1..];
    var kept, rest := "\"" + EscapeQuoted(u), [text[c]] + (EscapeQuoted(w) + "\"" + tail);
    CutShortPrints(text, tail, c);
    PrefixQuoting(u);
    UpToConcat("for=" + kept, rest, false);
    FirstPairAnswers("for=" + PrintText(Quoted(text)) + tail, kept);
    StopsOfValue(kept);
    KeptStops(text, c);
  }

  lemma KeptStops(text: string, c: nat)
    requires c < |text| && Stop(text[c])
    ensures Stops("\"" + EscapeQuoted(text[..c])) < Stops(text)
  {
    StopsConcat("\"", EscapeQuoted(text[..c]));
    assert "\""[1..] == "";
    StopsEscape(text[..c]);
    TextCut(text, c);
    StopsConcat(text[..c], text[c..]);
  }

  lemma TextCut(text: string, c: nat)
    requires c < |text|
    ensures text == text[..c] + text[c..] && text[c..] != "" && text[c..][0] == text[c]
  {}

  lemma CutShortPrints(text: string, tail: string, c: nat)
    requires c < |text| && Stop(text[c])
    ensures "for=" + PrintText(Quoted(text)) + tail
            == "for=" + ("\"" + EscapeQuoted(text[..c])) + ([text[c]] + (EscapeQuoted(text[c + 1..]) + "\"" + tail))
  {
    var rest := [text[c]] + text[c + 1..];
    assert text == text[..c] + rest;
    EscapeConcat(text[..c], rest);
    assert rest[1..] == text[c + 1..];
    Regroup("for=", "\"", EscapeQuoted(text[..c]), [text[c]], EscapeQuoted(text[c + 1..]), tail);
  }

  lemma Regroup(a: string, quote: string, e: string, c: string, f: string, tail: string)
    ensures a + (quote + (e + (c + f)) + quote) + tail == a + (quote + e) + (c + (f + quote + tail))
  {}

  lemma PrefixQuoting(u: string)
    requires StopsQuoted(u, true) && !Open(u, true)
    ensures StopsQuoted("for=" + ("\"" + EscapeQuoted(u)), false) && !Open("for=" + ("\"" + EscapeQuoted(u)), false)
  {
    forall sep | sep == ',' || sep == ';'
      ensures SepsQuoted("for=" + ("\"" + EscapeQuoted(u)), sep, false)
      ensures !Open("for=" + ("\"" + EscapeQuoted(u)), false)
    {
      EscapeKeepsQuoting(u, sep, true);
      PlainIsClosed("for=", sep, false);
      ConcatQuoted("for=", "\"" + EscapeQuoted(u), sep, false);
      ConcatQuoted("\"", EscapeQuoted(u), sep, false);
      assert "\""[1..] == "";
    }
  }

  /** A value that the splitter leaves whole is read as what was printed, whatever follows it. */
  lemma WholeValueReads(text: string, tail: string)
    requires tail == "" || Stop(tail[0])
    requires StopsQuoted(text, true) && (tail == "" || Open(text, true))
    ensures ForwardedFor("for=" + PrintText(Quoted(text)) + tail) == ClientOf(text)
  {
    UpToValue(text, tail);
    assert "for=" + PrintText(Quoted(text)) + "" == "for=" + PrintText(Quoted(text));
    FirstPairAnswers("for=" + PrintText(Quoted(text)) + tail, PrintText(Quoted(text)));
    QuotedReads(text);
  }

  lemma QuotedReads(text: string)
    ensures UnquoteForwardedValue(Trim(PrintText(Quoted(text)))) == text
  {
    var value, inner := PrintText(Quoted(text)), EscapeQuoted(text);
    TrimIsTrimmed(value);
    assert value[1..|inner| + 1] == inner;
    UnescapeEscape(text);
  }

  lemma Assoc(a: string, b: string, c: string)
    ensures a + b + c == a + (b + c)
  {}

  lemma {:induction false} UnescapeConcat(s: string, more: string)
    ensures Unescape(EscapeQuoted(s) + more) == s + Unescape(more)
  {
    if s == "" {
      assert EscapeQuoted(s) + more == more;
    } else {
      UnescapeConcat(s[1..], more);
      var first, rest := if s[0] == '"' || s[0] == '\\' then ['\\', s[0]] else [s[0]], EscapeQuoted(s[1..]);
      Assoc(first, rest, more);
      UnescapeFirst(s[0], rest + more);
      Assoc([s[0]], s[1..], Unescape(more));
      assert [s[0]] + s[1..] == s;
    }
  }

  lemma UnescapeFirst(c: char, more: string)
    ensures Unescape((if c == '"' || c == '\\' then ['\\', c] else [c]) + more) == [c] + Unescape(more)
  {
    if c == '"' || c == '\\' {
      assert (['\\', c] + more)[2..] == more;
    } else {
      assert ([c] + more)[1..] == more;
    }
  }

  lemma {:induction false} CutAfter(a: string, b: string, sep: char)
    requires sep !in a && Cut(a + b, sep).Some?
    ensures |Cut(a + b, sep).value.0| >= |a|
  {
    if a != "" {
      assert a[0] in a && (a + b)[1..] == a[1..] + b;
      CutAfter(a[1..], b, sep);
    }
  }

  /** A text that holds a quote, no colon and no leading bracket is not cut by the port's colon. */
  lemma ClientIsLong(a: string, b: string)
    requires '"' in a && ':' !in a && a[0] != '['
    ensures |ClientOf(a + b)| >= |a|
  {
    var k :| 0 <= k < |a| && a[k] == '"';
    assert (a + b)[k] == '"' && (a + b)[0] == a[0];
    if |a + b| == 7 { assert Fold((a + b)[k]) != Fold("unknown"[k]); }
    if Cut(a + b, ':').Some? { CutAfter(a, b, ':'); }
  }

  /** What the splitter runs on into, to an odd number of quotes, ends in one. */
  predicate EndsQuoted(tail: string) {
    var more := TrimRight(UpTo(tail, true));
    more != "" && more[|more| - 1] == '"'
  }

  /** The value that such a header hands to the parser. */
  lemma RunOn(text: string, tail: string)
    requires StopsQuoted(text, true) && !Open(text, true) && tail != "" && Stop(tail[0])
    ensures var value := PrintText(Quoted(text)) + TrimRight(UpTo(tail, true));
            ForwardedFor("for=" + PrintText(Quoted(text)) + tail) == ClientOf(UnquoteForwardedValue(value))
    ensures TrimRight(UpTo(tail, true)) == [tail[0]] + TrimRight(UpTo(tail[1..], true))
  {
    var value, more := PrintText(Quoted(text)), UpTo(tail, true);
    UpToValue(text, tail);
    assert "for=" + value + more == "for=" + (value + more);
    FirstPairAnswers("for=" + value + tail, value + more);
    TrimRightConcat(value, more);
    assert more == [tail[0]] + UpTo(tail[1..], true);
    TrimRightConcat([tail[0]], UpTo(tail[1..], true));
  }

  lemma Wrapped(e: string, quote: string, more: string, last: string)
    requires |quote| == |last| == 1
    ensures var value := quote + e + quote + (more + last); value[1..|value| - 1] == e + (quote + more)
  {}

  lemma RunOnEndsQuoted(text: string, tail: string)
    requires tail != "" && Stop(tail[0]) && EndsQuoted(tail)
    requires TrimRight(UpTo(tail, true)) == [tail[0]] + TrimRight(UpTo(tail[1..], true))
    ensures exists y :: UnquoteForwardedValue(PrintText(Quoted(text)) + TrimRight(UpTo(tail, true))) == text + "\"" + y
  {
    var more := TrimRight(UpTo(tail, true));
    var n := |more| - 1;
    assert more == more[..n] + "\"";
    Wrapped(EscapeQuoted(text), "\"", more[..n], "\"");
    UnwrappedReads(text, more[..n]);
  }

  lemma UnwrappedReads(text: string, more: string)
    ensures Unescape(EscapeQuoted(text) + ("\"" + more)) == text + "\"" + Unescape(more)
  {
    UnescapeConcat(text, "\"" + more);
    assert ("\"" + more)[1..] == more;
    Assoc(text, "\"", Unescape(more));
  }

  lemma {:induction false} EscapeLonger(s: string)
    ensures |EscapeQuoted(s)| >= |s|
    ensures ':' !in s ==> ':' !in EscapeQuoted(s)
  {
    if s != "" {
      assert s[0] in s;
      EscapeLonger(s[1..]);
    }
  }

  lemma Regrouped(quote: string, a: string, b: string, more: string)
    ensures quote + (a + b) + quote + more == (quote + a) + (b + quote + more)
  {}

  lemma RawText(node: Node, more: string)
    requires ValidNode(node) && !node.bracketed
    ensures exists rest :: PrintText(Quoted(NodeText(node))) + more == "\"" + EscapeQuoted(node.name) + rest
  {
    var port := if node.port.Some? then ":" + node.port.value else "";
    EscapeConcat(node.name, port);
    Regrouped("\"", EscapeQuoted(node.name), EscapeQuoted(port), more);
  }

  lemma NameStaysRaw(name: string, rest: string)
    requires ':' !in name
    ensures |ClientOf("\"" + EscapeQuoted(name) + rest)| > |name|
  {
    var front := "\"" + EscapeQuoted(name);
    EscapeLonger(name);
    assert front[0] == '"';
    ClientIsLong(front, rest);
  }

  /** Running on to a text that does not end in a quote leaves the value as it is, quotes and all. */
  lemma RunOnRaw(node: Node, more: string)
    requires ValidNode(node) && !node.bracketed && more != "" && more[|more| - 1] != '"'
    ensures |ClientOf(UnquoteForwardedValue(PrintText(Quoted(NodeText(node))) + more))| > |node.name|
  {
    RawText(node, more);
    var value := PrintText(Quoted(NodeText(node))) + more;
    var rest :| value == "\"" + EscapeQuoted(node.name) + rest;
    assert value[|value| - 1] == more[|more| - 1];
    NameStaysRaw(node.name, rest);
  }

  lemma PortTakesIt(node: Node, y: string)
    requires ValidNode(node) && !node.bracketed && node.port.Some?
    ensures ClientOf(NodeText(node) + "\"" + y) == node.name
  {
    var longer := Node(false, node.name, Some(node.port.value + ("\"" + y)));
    Assoc(NodeText(node), "\"", y);
    Assoc(node.name, ":" + node.port.value, "\"" + y);
    Assoc(":", node.port.value, "\"" + y);
    NodeStripped(longer);
    UnknownExactly(longer);
  }

  lemma NameTakesIt(node: Node, y: string)
    requires ValidNode(node) && !node.bracketed && node.port.None?
    ensures |ClientOf(NodeText(node) + "\"" + y)| > |node.name|
  {
    assert NodeText(node) == node.name;
    var front := node.name + "\"";
    assert front[|node.name|] == '"' && front[0] == if node.name == "" then '"' else node.name[0];
    ClientIsLong(front, y);
  }

  lemma RunOnAnswers(node: Node, tail: string)
    requires ValidNode(node) && !node.bracketed && tail != "" && Stop(tail[0])
    requires StopsQuoted(NodeText(node), true) && !Open(NodeText(node), true)
    ensures ForwardedFor("for=" + PrintText(Quoted(NodeText(node))) + tail) == node.name
            <==> node.port.Some? && EndsQuoted(tail)
  {
    var text := NodeText(node);
    RunOn(text, tail);
    if !EndsQuoted(tail) {
      RunOnRaw(node, TrimRight(UpTo(tail, true)));
    } else {
      RunOnEndsQuoted(text, tail);
      var y :| UnquoteForwardedValue(PrintText(Quoted(text)) + TrimRight(UpTo(tail, true))) == text + "\"" + y;
      if node.port.Some? { PortTakesIt(node, y); } else { NameTakesIt(node, y); }
    }
  }

  /** Which value is read rightly, exactly. Whatever node is printed as the first value (without
      brackets, and with no separator in its port) and whatever follows, the parser returns its name if
      and only if an even number of quotes precedes each separator in it, and nothing follows, or it has
      an even number of quotes in all, or its port is followed by a text that happens to end in a quote. */
  lemma ValueReadsExactly(node: Node, tail: string)
    requires ValidNode(node) && !node.bracketed && (node.port.Some? ==> Stops(node.port.value) == 0)
    requires !IsUnknown(NodeText(node)) && (tail == "" || Stop(tail[0]))
    ensures var text := NodeText(node);
            ForwardedFor("for=" + PrintText(Quoted(text)) + tail) == node.name
            <==> && (forall i | 0 <= i < |text| && Stop(text[i]) :: Quotes(text[..i]) % 2 == 0)
                 && (tail == "" || Quotes(text) % 2 == 0 || (node.port.Some? && EndsQuoted(tail)))
  {
    var text := NodeText(node);
    NodeStripped(node);
    FoldedWords(text);
    OpenCounts(text, true);
    SepsCount(text, ',');
    SepsCount(text, ';');
    if !StopsQuoted(text, true) {
      CutShort(text, tail);
      NameHasStops(node);
    } else if tail == "" || Open(text, true) {
      WholeValueReads(text, tail);
    } else {
      RunOnAnswers(node, tail);
    }
  }

  lemma NameHasStops(node: Node)
    requires !node.bracketed && (node.port.Some? ==> Stops(node.port.value) == 0)
    ensures Stops(node.name) == Stops(NodeText(node))
  {
    if node.port.Some? {
      StopsConcat(node.name, ":" + node.port.value);
      assert (":" + node.port.value)[1..] == node.port.value;
    } else {
      assert NodeText(node) == node.name;
    }
  }
}
