/**
 * Properties of the inline transformer: which text each rule leaves alone,
 * that the code-span side table gives each span back exactly once, and that
 * code spans are immune to the image, link, emphasis and strikethrough rules.
 */
module InlineFacts {
  import opened Wrappers
  import opened Strings
  import opened Escape
  import opened Inline
  import Render

  /** A rule leaves alone every string that lacks its trigger character. */
  lemma {:induction false} RewriteInert(rule: Rule, s: string, atStart: bool)
    requires Trigger(rule) !in s
    ensures Rewrite(rule, s, atStart) == s
    decreases |s|
  {
    if s != [] {
      assert Trigger(rule) !in s[1..];
      RewriteInert(rule, s[1..], false);
    }
  }

  /** A rule other than the two italic ones copies a trigger-free prefix and carries on after it. */
  lemma {:induction false} RewriteInertPrefix(rule: Rule, a: string, b: string, atStart: bool)
    requires !rule.ItalicStar? && !rule.ItalicUnderscore?
    requires Trigger(rule) !in a
    ensures Rewrite(rule, a + b, atStart) == a + Rewrite(rule, b, atStart)
    decreases |a|
  {
    if a != [] {
      var s := a + b;
      assert s[0] == a[0];
      assert s[1..] == a[1..] + b;
      assert Rewrite(rule, s, atStart) == [a[0]] + Rewrite(rule, a[1..] + b, false);
      RewriteInertPrefix(rule, a[1..], b, false);
      RewriteStartIrrelevant(rule, b);
      assert a == [a[0]] + a[1..];
      ConcatAssoc([a[0]], a[1..], Rewrite(rule, b, atStart));
    } else {
      assert a + b == b;
    }
  }

  /** Only the italic rules look at where the scan started. */
  lemma RewriteStartIrrelevant(rule: Rule, s: string)
    requires !rule.ItalicStar? && !rule.ItalicUnderscore?
    ensures Rewrite(rule, s, true) == Rewrite(rule, s, false)
  {
  }

  /** The stages between extraction and restoration leave alone text with none of `!`, `[`, `*`, `_`, `~`. */
  lemma SpanRulesInert(s: string)
    requires '!' !in s && '[' !in s && '*' !in s && '_' !in s && '~' !in s
    ensures SpanRules(s) == s
  {
    RewriteInert(Image, s, true);
    RewriteInert(Link, s, true);
    RewriteInert(BoldItalic, s, true);
    RewriteInert(Bold, s, true);
    RewriteInert(Underline, s, true);
    RewriteInert(ItalicStar, s, true);
    RewriteInert(ItalicUnderscore, s, true);
    RewriteInert(Strike, s, true);
  }

  /** No placeholder contains a character any of the rules reacts to. */
  lemma PlaceholderInert(i: nat, c: char)
    requires c == '!' || c == '[' || c == '*' || c == '_' || c == '~' || c == '@' || c == '%' || c == '`'
    ensures c !in Placeholder(i)
  {
    var d := NatToString(i);
    assert c !in d;
    assert Placeholder(i) == "\0CODE" + d + "\0";
  }

  /**
   * The reference for what extraction followed by restoration does when no rule
   * runs in between: one left-to-right pass turning each code span into `<code>`
   * + its escaped content + `</code>`.
   */
  function CodeRender(s: string): string
    decreases |s|
  {
    if s == [] then []
    else match MatchDelimited(s, "`")
      case Some(n) => "<code>" + EscapeHtml(s[1..1 + n]) + "</code>" + CodeRender(s[n + 2..])
      case None => [s[0]] + CodeRender(s[1..])
  }

  /** The restore pattern finds a placeholder exactly, whatever follows it. */
  lemma MatchPlaceholderAt(i: nat, rest: string)
    ensures MatchPlaceholder(Placeholder(i) + rest) == Some((|Placeholder(i)|, NatToString(i)))
  {
    var d := NatToString(i);
    var s := Placeholder(i) + rest;
    assert s == "\0CODE" + d + ("\0" + rest);
    assert s[..5] == "\0CODE";
    assert s[5..] == d + ("\0" + rest);
    CountDigitsPrefix(d, "\0" + rest);
    assert s[5 + |d|] == '\0';
    assert s[5..5 + |d|] == d;
  }

  /** A character that is not NUL never starts a placeholder. */
  lemma RestoreCodeChar(c: char, rest: string, spans: seq<string>)
    requires c != '\0'
    ensures RestoreCode([c] + rest, spans) ==
      match RestoreCode(rest, spans) case Some(r) => Some([c] + r) case None => None
  {
    var s := [c] + rest;
    NoPlaceholderAt(s);
    assert s[1..] == rest;
  }

  /** A placeholder starts with NUL. */
  lemma NoPlaceholderAt(s: string)
    requires s != [] && s[0] != '\0'
    ensures MatchPlaceholder(s) == None
  {
    if |s| >= 5 {
      assert s[..5][0] == s[0];
    }
  }

  /** Restoring a placeholder whose index is in the table. */
  lemma RestoreCodeToken(i: nat, rest: string, spans: seq<string>)
    requires i < |spans|
    ensures RestoreCode(Placeholder(i) + rest, spans) ==
      match RestoreCode(rest, spans)
      case Some(r) => Some("<code>" + EscapeHtml(spans[i]) + "</code>" + r)
      case None => None
  {
    MatchPlaceholderAt(i, rest);
    CanonicalIndexRoundTrip(i);
    assert (Placeholder(i) + rest)[|Placeholder(i)|..] == rest;
  }

  /**
   * Every code span is given back exactly once, in place, as `<code>` + its
   * escaped content + `</code>`: restoration undoes extraction for text
   * without NUL characters.
   */
  lemma {:induction false} ExtractThenRestore(s: string, spans: seq<string>)
    requires '\0' !in s
    ensures RestoreCode(ExtractCode(s, spans).0, ExtractCode(s, spans).1) == Some(CodeRender(s))
    decreases |s|
  {
    if s != [] {
      match MatchDelimited(s, "`")
      case Some(n) =>
        var spans' := spans + [s[1..1 + n]];
        var rest := ExtractCode(s[n + 2..], spans');
        assert ExtractCode(s, spans) == (Placeholder(|spans|) + rest.0, rest.1);
        ExtractThenRestore(s[n + 2..], spans');
        assert rest.1[..|spans'|] == spans';
        assert rest.1[|spans|] == spans'[|spans|] == s[1..1 + n];
        RestoreCodeToken(|spans|, rest.0, rest.1);
      case None =>
        var rest := ExtractCode(s[1..], spans);
        assert ExtractCode(s, spans) == ([s[0]] + rest.0, rest.1);
        ExtractThenRestore(s[1..], spans);
        RestoreCodeChar(s[0], rest.0, rest.1);
    }
  }

  /** A piece of an inline text: plain text, or a code span given by its content. */
  datatype Piece = Text(text: string) | Code(code: string)

  /** The Markdown for a sequence of pieces: code wrapped in backticks. */
  function Source(ps: seq<Piece>): string {
    if ps == [] then []
    else
      (match ps[0] case Text(t) => t case Code(c) => "`" + c + "`") + Source(ps[1..])
  }

  /** The HTML they should become: escaped text, and code escaped twice inside `<code>`. */
  function Rendered(ps: seq<Piece>): string {
    if ps == [] then []
    else
      (match ps[0]
       case Text(t) => EscapeHtml(t)
       case Code(c) => "<code>" + EscapeHtml(EscapeHtml(c)) + "</code>") + Rendered(ps[1..])
  }

  /**
   * Text pieces hold none of the inline syntax characters, code pieces are
   * non-empty; no piece holds NUL, and code holds no `@` or `%` (the colour and
   * highlight rules run after restoration and so do reach into code).
   */
  predicate Protectable(ps: seq<Piece>) {
    forall k :: 0 <= k < |ps| ==>
      match ps[k]
      case Text(t) =>
        '`' !in t && '!' !in t && '[' !in t && '*' !in t && '_' !in t && '~' !in t
        && '@' !in t && '%' !in t && '\0' !in t
      case Code(c) => c != [] && '`' !in c && '\0' !in c && '@' !in c && '%' !in c
  }

  /** Text after the first escape: code still inside backticks. */
  function EscapedSource(ps: seq<Piece>): string {
    if ps == [] then []
    else
      (match ps[0] case Text(t) => EscapeHtml(t) case Code(c) => "`" + EscapeHtml(c) + "`")
      + EscapedSource(ps[1..])
  }

  /** Text after extraction: code replaced by placeholders numbered from `k`. */
  function Holed(ps: seq<Piece>, k: nat): string {
    if ps == [] then []
    else
      match ps[0]
      case Text(t) => EscapeHtml(t) + Holed(ps[1..], k)
      case Code(c) => Placeholder(k) + Holed(ps[1..], k + 1)
  }

  /** The side table extraction builds: each code piece once escaped. */
  function EscapedCodes(ps: seq<Piece>): seq<string> {
    if ps == [] then []
    else
      match ps[0]
      case Text(t) => EscapedCodes(ps[1..])
      case Code(c) => [EscapeHtml(c)] + EscapedCodes(ps[1..])
  }

  lemma {:induction false} EscapeSource(ps: seq<Piece>)
    ensures EscapeHtml(Source(ps)) == EscapedSource(ps)
  {
    if ps != [] {
      EscapeSource(ps[1..]);
      match ps[0]
      case Text(t) =>
        EscapeHtmlAppend(t, Source(ps[1..]));
      case Code(c) =>
        EscapeHtmlPlain("`");
        EscapeHtmlAppend("`" + c + "`", Source(ps[1..]));
        EscapeHtmlAppend("`" + c, "`");
        EscapeHtmlAppend("`", c);
    } else {
      assert EscapeHtml([]) == [] by { EscapeHtmlPlain([]); }
    }
  }

  /** Extraction copies text without backticks. */
  lemma {:induction false} ExtractPlain(a: string, rest: string, spans: seq<string>)
    requires '`' !in a
    ensures ExtractCode(a + rest, spans) == (a + ExtractCode(rest, spans).0, ExtractCode(rest, spans).1)
    decreases |a|
  {
    var e := ExtractCode(rest, spans);
    if a != [] {
      var s := a + rest;
      assert s[0] == a[0];
      assert s[1..] == a[1..] + rest;
      assert MatchDelimited(s, "`") == None;
      ExtractPlain(a[1..], rest, spans);
      assert ExtractCode(s, spans) == ([a[0]] + (a[1..] + e.0), e.1);
      assert [a[0]] + (a[1..] + e.0) == a + e.0;
    } else {
      assert a + rest == rest;
      assert a + e.0 == e.0;
    }
  }

  /** Extraction of one code span whose content has no backtick. */
  lemma ExtractSpan(e: string, rest: string, spans: seq<string>)
    requires e != [] && '`' !in e
    ensures ExtractCode("`" + e + "`" + rest, spans) ==
      (Placeholder(|spans|) + ExtractCode(rest, spans + [e]).0, ExtractCode(rest, spans + [e]).1)
  {
    var s := "`" + e + "`" + rest;
    var n := |e|;
    assert s[..1] == "`";
    assert s[1..1 + n] == e;
    assert s[1 + n..2 + n] == "`";
    MatchDelimitedComplete(s, "`", n);
    assert s[n + 2..] == rest;
    assert s != [];
  }

  lemma {:induction false} ExtractPieces(ps: seq<Piece>, spans: seq<string>)
    requires Protectable(ps)
    ensures ExtractCode(EscapedSource(ps), spans) == (Holed(ps, |spans|), spans + EscapedCodes(ps))
  {
    if ps == [] {
      assert spans + [] == spans;
    } else {
      ProtectableTail(ps);
      match ps[0]
      case Text(t) =>
        assert '`' !in t;
        ExtractPieces(ps[1..], spans);
        ExtractText(t, EscapedSource(ps[1..]), spans, Holed(ps[1..], |spans|), EscapedCodes(ps[1..]));
      case Code(c) =>
        assert c != [] && '`' !in c;
        ExtractPieces(ps[1..], spans + [EscapeHtml(c)]);
        ExtractCodePiece(c, EscapedSource(ps[1..]), spans, Holed(ps[1..], |spans| + 1), EscapedCodes(ps[1..]));
    }
  }

  /** Escaping neither adds nor removes a backtick. */
  lemma BacktickKept(s: string)
    ensures '`' in EscapeHtml(s) <==> '`' in s
  {
    EscapeHtmlKeeps(s, '`');
  }

  /** The pieces after the first are protectable too. */
  lemma ProtectableTail(ps: seq<Piece>)
    requires ps != [] && Protectable(ps)
    ensures Protectable(ps[1..])
  {
    forall k | 0 <= k < |ps[1..]| ensures ps[1..][k] == ps[k + 1] { }
  }

  /** Escaped text in front of the rest is copied by the extraction. */
  lemma ExtractText(t: string, rest: string, spans: seq<string>, holed: string, codes: seq<string>)
    requires '`' !in t
    requires ExtractCode(rest, spans) == (holed, spans + codes)
    ensures ExtractCode(EscapeHtml(t) + rest, spans) == (EscapeHtml(t) + holed, spans + codes)
  {
    BacktickKept(t);
    ExtractPlain(EscapeHtml(t), rest, spans);
  }

  /** An escaped code piece in front of the rest becomes the next placeholder, and joins the side table. */
  lemma ExtractCodePiece(c: string, rest: string, spans: seq<string>, holed: string, codes: seq<string>)
    requires c != [] && '`' !in c
    requires ExtractCode(rest, spans + [EscapeHtml(c)]) == (holed, spans + [EscapeHtml(c)] + codes)
    ensures ExtractCode("`" + EscapeHtml(c) + "`" + rest, spans) == (Placeholder(|spans|) + holed, spans + ([EscapeHtml(c)] + codes))
  {
    BacktickKept(c);
    EscapeLonger(c);
    ExtractSpan(EscapeHtml(c), rest, spans);
    Render.AppendAssoc(spans, [EscapeHtml(c)], codes);
  }

  /** Escaping never shortens a string. */
  lemma {:induction false} EscapeLonger(s: string)
    ensures |EscapeHtml(s)| >= |s|
  {
    EscapeHtmlIsEscapeEach(s);
    EscapeEachLonger(s);
  }

  lemma {:induction false} EscapeEachLonger(s: string)
    ensures |EscapeEach(s)| >= |s|
  {
    if s != [] {
      EscapeEachLonger(s[1..]);
    }
  }

  lemma {:induction false} HoledInert(ps: seq<Piece>, k: nat, c: char)
    requires Protectable(ps)
    requires c == '!' || c == '[' || c == '*' || c == '_' || c == '~'
    ensures c !in Holed(ps, k)
  {
    if ps != [] {
      assert Protectable(ps[1..]) by {
        forall j | 0 <= j < |ps[1..]| ensures ps[1..][j] == ps[j + 1] { }
      }
      match ps[0]
      case Text(t) =>
        assert c !in t;
        EscapeHtmlKeeps(t, c);
        HoledInert(ps[1..], k, c);
      case Code(_) =>
        PlaceholderInert(k, c);
        HoledInert(ps[1..], k + 1, c);
    }
  }

  /** Restoring the placeholders of `Holed` against the table extraction built. */
  lemma {:induction false} RestorePieces(ps: seq<Piece>, prefix: seq<string>)
    requires Protectable(ps)
    ensures RestoreCode(Holed(ps, |prefix|), prefix + EscapedCodes(ps)) == Some(Rendered(ps))
  {
    var table := prefix + EscapedCodes(ps);
    if ps == [] {
    } else {
      assert Protectable(ps[1..]) by {
        forall j | 0 <= j < |ps[1..]| ensures ps[1..][j] == ps[j + 1] { }
      }
      match ps[0]
      case Text(t) =>
        assert '\0' !in t;
        EscapeHtmlKeeps(t, '\0');
        RestorePieces(ps[1..], prefix);
        RestorePlain(EscapeHtml(t), Holed(ps[1..], |prefix|), table);
      case Code(c) =>
        var prefix' := prefix + [EscapeHtml(c)];
        assert table == prefix' + EscapedCodes(ps[1..]);
        RestorePieces(ps[1..], prefix');
        assert table[|prefix|] == EscapeHtml(c);
        RestoreCodeToken(|prefix|, Holed(ps[1..], |prefix| + 1), table);
    }
  }

  /** Restoration copies text without NUL characters. */
  lemma {:induction false} RestorePlain(a: string, rest: string, spans: seq<string>)
    requires '\0' !in a
    ensures RestoreCode(a + rest, spans) ==
      match RestoreCode(rest, spans) case Some(r) => Some(a + r) case None => None
    decreases |a|
  {
    if a != [] {
      var tail := a[1..] + rest;
      assert a + rest == [a[0]] + tail;
      RestoreCodeChar(a[0], tail, spans);
      RestorePlain(a[1..], rest, spans);
      var t := RestoreCode(rest, spans);
      if t.Some? {
        assert RestoreCode(tail, spans) == Some(a[1..] + t.value);
        assert [a[0]] + a[1..] == a;
        ConcatAssoc([a[0]], a[1..], t.value);
      }
    } else {
      assert a + rest == rest;
      match RestoreCode(rest, spans)
      case Some(r) => assert a + r == r;
      case None =>
    }
  }

  lemma {:induction false} RenderedCalm(ps: seq<Piece>, c: char)
    requires Protectable(ps)
    requires c == '@' || c == '%'
    ensures c !in Rendered(ps)
  {
    if ps != [] {
      assert Protectable(ps[1..]) by {
        forall j | 0 <= j < |ps[1..]| ensures ps[1..][j] == ps[j + 1] { }
      }
      RenderedCalm(ps[1..], c);
      var head :=
        match ps[0]
        case Text(t) => EscapeHtml(t)
        case Code(code) => "<code>" + EscapeHtml(EscapeHtml(code)) + "</code>";
      assert Rendered(ps) == head + Rendered(ps[1..]);
      match ps[0]
      case Text(t) =>
        assert c !in t;
        EscapeHtmlKeeps(t, c);
      case Code(code) =>
        assert c !in code;
        EscapeHtmlKeeps(code, c);
        EscapeHtmlKeeps(EscapeHtml(code), c);
        assert c !in "<code>" && c !in "</code>";
    }
  }

  /**
   * Code spans are protected: whatever `*`, `_`, `~`, `[` or `!` their content
   * holds, each comes out literally as `<code>` + its content escaped twice
   * (once with the whole line, once on restoration) + `</code>`.
   */
  lemma CodeSpansProtected(ps: seq<Piece>)
    requires Protectable(ps)
    ensures InlineMarkdown(Source(ps)) == Some(Rendered(ps))
  {
    var text := Source(ps);
    if text == [] {
      EscapeSource(ps);
      EscapeHtmlPlain([]);
      ExtractPieces(ps, []);
      assert Holed(ps, 0) == [] by {
        assert ExtractCode(EscapedSource(ps), []).0 == Holed(ps, 0);
      }
      RestorePieces(ps, []);
    } else {
      EscapeSource(ps);
      ExtractPieces(ps, []);
      var holed := Holed(ps, 0);
      HoledInert(ps, 0, '!');
      HoledInert(ps, 0, '[');
      HoledInert(ps, 0, '*');
      HoledInert(ps, 0, '_');
      HoledInert(ps, 0, '~');
      SpanRulesInert(holed);
      assert [] + EscapedCodes(ps) == EscapedCodes(ps);
      RestorePieces(ps, []);
      RenderedCalm(ps, '@');
      RenderedCalm(ps, '%');
      RewriteInert(Colour, Rendered(ps), true);
      RewriteInert(Highlight, Rendered(ps), true);
    }
  }

  /** The empty line stays empty. */
  lemma InlineEmpty()
    ensures InlineMarkdown("") == Some("")
  {
  }

  /**
   * A code span alone on the line: emphasis, link and strikethrough syntax in
   * it is not rendered, and its content is escaped twice.
   */
  lemma CodeSpanAlone(c: string)
    requires c != [] && '`' !in c && '\0' !in c && '@' !in c && '%' !in c
    ensures InlineMarkdown("`" + c + "`") == Some("<code>" + EscapeHtml(EscapeHtml(c)) + "</code>")
  {
    var ps := [Code(c)];
    assert ps[0] == Code(c);
    assert ps[1..] == [];
    assert Source(ps[1..]) == [];
    assert Rendered(ps[1..]) == [];
    assert Source(ps) == "`" + c + "`" + [];
    assert "`" + c + "`" + [] == "`" + c + "`";
    assert Protectable(ps);
    CodeSpansProtected(ps);
    var r := "<code>" + EscapeHtml(EscapeHtml(c)) + "</code>";
    assert Rendered(ps) == r + [];
    assert r + [] == r;
  }

  /** Content without HTML special characters comes out of a code span verbatim, `*` and `_` included. */
  lemma CodeKeepsSyntax(c: string)
    requires c != [] && '`' !in c && '\0' !in c && '@' !in c && '%' !in c
    requires forall k :: 0 <= k < |c| ==> !IsMeta(c[k])
    ensures InlineMarkdown("`" + c + "`") == Some("<code>" + c + "</code>")
  {
    CodeSpanAlone(c);
    EscapeHtmlPlain(c);
    EscapeHtmlPlain(c);
  }

  /** The double escape made visible: a `<` in code is shown as the text `&lt;`, not as `<`. */
  lemma CodeEscapedTwice(c: string)
    requires c == "<"
    ensures InlineMarkdown("`" + c + "`") == Some("<code>" + ("&amp;" + "lt;") + "</code>")
  {
    CodeSpanAlone(c);
    var tail := "lt;";
    DoubleEscapeLt(c, "&", tail);
    var shown := EscapeHtml(EscapeHtml(c));
    assert shown == "&amp;" + tail;
  }

  /** Code that passes through extraction and both escapes unchanged: no HTML special character, backtick or NUL. */
  predicate Quiet(s: string) {
    forall k :: 0 <= k < |s| ==> !IsMeta(s[k]) && s[k] != '`' && s[k] != '\0'
  }

  /** Text the colour rule copies: quiet, with no `@` or `%`. */
  predicate Calm(x: string) {
    Quiet(x) && '@' !in x && '%' !in x
  }

  lemma QuietConcat(a: string, b: string)
    requires Quiet(a) && Quiet(b)
    ensures Quiet(a + b)
  {
    forall k | 0 <= k < |a + b| ensures !IsMeta((a + b)[k]) && (a + b)[k] != '`' && (a + b)[k] != '\0' {
      if k >= |a| { assert (a + b)[k] == b[k - |a|]; }
    }
  }

  /** A quiet code span alone is extracted into placeholder 0. */
  lemma ExtractSingle(code: string, text: string)
    requires code != [] && Quiet(code) && text == "`" + code + "`"
    ensures ExtractCode(EscapeHtml(text), []) == (Placeholder(0), [code])
  {
    assert forall k :: 0 <= k < |text| ==> !IsMeta(text[k]) by {
      forall k | 0 <= k < |text| ensures !IsMeta(text[k]) {
        if 1 <= k < 1 + |code| { assert text[k] == code[k - 1]; }
      }
    }
    EscapeHtmlPlain(text);
    assert text[1..1 + |code|] == code;
    assert DelimitedAt(text, "`", |code|);
    MatchDelimitedComplete(text, "`", |code|);
    assert text[|code| + 2..] == [];
    assert Placeholder(0) + [] == Placeholder(0);
  }

  /** A lone placeholder passes the span rules and is restored as its quiet code. */
  lemma RestoreSingle(i: nat, spans: seq<string>)
    requires i < |spans| && Quiet(spans[i])
    ensures RestoreCode(SpanRules(Placeholder(i)), spans) == Some("<code>" + spans[i] + "</code>")
  {
    var p := Placeholder(i);
    assert SpanRules(p) == p by {
      PlaceholderInert(i, '!');
      PlaceholderInert(i, '[');
      PlaceholderInert(i, '*');
      PlaceholderInert(i, '_');
      PlaceholderInert(i, '~');
      SpanRulesInert(p);
    }
    var code := "<code>" + EscapeHtml(spans[i]) + "</code>";
    assert RestoreCode(p, spans) == Some(code) by {
      RestoreCodeToken(i, [], spans);
      assert p + [] == p && code + [] == code;
    }
    assert EscapeHtml(spans[i]) == spans[i] by {
      EscapeHtmlPlain(spans[i]);
    }
  }

  /** The colour rule matches `@@x@@` at the start of `y` and renders it with the default colour. */
  lemma ColourMatch(y: string, x: string, span: string)
    requires x != [] && '@' !in x && x[0] != '#' && |x| + 4 <= |y|
    requires y[..2] == "@@" && y[2..2 + |x|] == x && y[2 + |x|..4 + |x|] == "@@"
    requires span == "<span style=\"color:#f00\">" + x + "</span>"
    ensures MatchRule(Colour, y, true) == Some(Hit(|x| + 4, span))
  {
    assert DelimitedAt(y, "@@", |x|);
    MatchDelimitedComplete(y, "@@", |x|);
    StyledSpanDefault(x, "color", "#f00");
    assert "<span style=\"" + "color" + ":" + "#f00" + "\">" == "<span style=\"color:#f00\">";
  }

  /** The colour rule on `@@x@@` followed by text without `@`. */
  lemma ColourAt(x: string, delim: string, tail: string, span: string)
    requires x != [] && '@' !in x && x[0] != '#' && delim == "@@" && '@' !in tail
    requires span == "<span style=\"color:#f00\">" + x + "</span>"
    ensures Rewrite(Colour, delim + x + delim + tail, true) == span + tail
  {
    var y := delim + x + delim + tail;
    assert MatchRule(Colour, y, true) == Some(Hit(|x| + 4, span)) by {
      assert y[..2] == delim && y[2..2 + |x|] == x && y[2 + |x|..4 + |x|] == delim;
      ColourMatch(y, x, span);
    }
    assert y[|x| + 4..] == tail;
    RewriteInert(Colour, tail, false);
  }

  /**
   * The colour and highlight rules run after the code spans are restored, so
   * they reach into code: `` `@@x@@` `` shows a coloured span inside `<code>`.
   */
  lemma ColourInCode(x: string)
    requires x != [] && Calm(x) && x[0] != '#'
    ensures InlineMarkdown("`" + "@@" + x + "@@" + "`")
      == Some("<code>" + "<span style=\"color:#f00\">" + x + "</span>" + "</code>")
  {
    var delim, open, close := "@@", "<code>", "</code>";
    var code := delim + x + delim;
    var text := "`" + delim + x + delim + "`";
    assert Quiet(code) by {
      assert Quiet(delim);
      QuietConcat(delim, x);
      QuietConcat(delim + x, delim);
    }
    assert ExtractCode(EscapeHtml(text), []) == (Placeholder(0), [code]) by {
      assert text == "`" + code + "`";
      ExtractSingle(code, text);
    }
    assert RestoreCode(SpanRules(Placeholder(0)), [code]) == Some(open + code + close) by {
      RestoreSingle(0, [code]);
    }
    ColourCodeRewrite(x, code, open, close);
  }

  /** The colour rule styles `@@x@@` inside the restored `<code>` element, and the highlight rule leaves the result alone. */
  lemma ColourCodeRewrite(x: string, code: string, open: string, close: string)
    requires x != [] && Calm(x) && x[0] != '#' && code == "@@" + x + "@@"
    requires open == "<code>" && close == "</code>"
    ensures Rewrite(Highlight, Rewrite(Colour, open + code + close, true), true)
      == open + "<span style=\"color:#f00\">" + x + "</span>" + close
  {
    var lead, shut := "<span style=\"color:#f00\">", "</span>";
    var span := lead + x + shut;
    var out := open + (span + close);
    ColourCode(x, code, open, close, span);
    HighlightSkips(out, open, lead, x, shut, close);
  }

  /** The colour step: the `@@x@@` run between the code tags becomes a span. */
  lemma ColourCode(x: string, code: string, open: string, close: string, span: string)
    requires x != [] && '@' !in x && x[0] != '#' && code == "@@" + x + "@@"
    requires open == "<code>" && close == "</code>"
    requires span == "<span style=\"color:#f00\">" + x + "</span>"
    ensures Rewrite(Colour, open + code + close, true) == open + (span + close)
  {
    RewriteInertPrefix(Colour, open, code + close, true);
    assert open + code + close == open + (code + close);
    ColourAt(x, "@@", close, span);
  }

  /** The highlight step finds no `%` in the coloured code. */
  lemma HighlightSkips(out: string, open: string, lead: string, x: string, shut: string, close: string)
    requires '%' !in x && out == open + (lead + x + shut + close)
    requires open == "<code>" && lead == "<span style=\"color:#f00\">" && shut == "</span>" && close == "</code>"
    ensures Rewrite(Highlight, out, true) == out == open + lead + x + shut + close
  {
    assert '%' !in out by {
      MarkupFree(open, lead, shut, close);
    }
    RewriteInert(Highlight, out, true);
    Assoc5(open, lead, x, shut, close);
  }

  lemma Assoc5(a: string, b: string, c: string, d: string, e: string)
    ensures a + (b + c + d + e) == a + b + c + d + e
  {
  }

  /** The markup the colour example adds holds no `%`. */
  lemma MarkupFree(open: string, lead: string, shut: string, close: string)
    requires open == "<code>" && lead == "<span style=\"color:#f00\">" && shut == "</span>" && close == "</code>"
    ensures '%' !in open && '%' !in lead && '%' !in shut && '%' !in close
  {
  }

  /** A placeholder typed by the user names no code span, so the source throws. */
  lemma StrayPlaceholderThrows(i: nat)
    ensures InlineMarkdown(Placeholder(i)) == None
  {
    var text := Placeholder(i);
    var d := NatToString(i);
    assert text == "\0CODE" + d + "\0";
    assert forall k :: 0 <= k < |text| ==> !IsMeta(text[k]) by {
      forall k | 0 <= k < |text| ensures !IsMeta(text[k]) {
        if 5 <= k < 5 + |d| {
          assert text[k] == d[k - 5];
        }
      }
    }
    EscapeHtmlPlain(text);
    PlaceholderInert(i, '`');
    ExtractPlain(text, [], []);
    assert text + [] == text;
    PlaceholderInert(i, '!');
    PlaceholderInert(i, '[');
    PlaceholderInert(i, '*');
    PlaceholderInert(i, '_');
    PlaceholderInert(i, '~');
    SpanRulesInert(text);
    MatchPlaceholderAt(i, []);
    CanonicalIndexRoundTrip(i);
    assert MatchPlaceholder(text) == Some((|text|, d));
  }
}
