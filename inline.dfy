/**
 * `inlineMarkdown` (converter.js:13-71). Each regular expression of the source
 * is replaced by a hand-written matcher for that one pattern, and each global
 * `replace` by `Rewrite`, which scans left to right, tries the matcher at every
 * position and resumes after the match, as a `/g` replacement does.
 */
module Inline {
  import opened Wrappers
  import opened Strings
  import opened Escape

  /** A successful match: how many characters it consumed and what replaces them. */
  datatype Hit = Hit(len: nat, out: string)

  /** The rules applied by `Rewrite`, one per stateless `replace` of the source. */
  datatype Rule =
    | Image             // converter.js:22
    | Link              // converter.js:25
    | BoldItalic        // converter.js:28
    | Bold              // converter.js:30
    | Underline         // converter.js:33
    | ItalicStar        // converter.js:36
    | ItalicUnderscore  // converter.js:37
    | Strike            // converter.js:40
    | Colour            // converter.js:46-56
    | Highlight         // converter.js:59-68

  /** The character every match of the rule contains; text without it is left alone. */
  function Trigger(rule: Rule): char {
    match rule
    case Image => '!'
    case Link => '['
    case BoldItalic => '*'
    case Bold => '*'
    case Underline => '_'
    case ItalicStar => '*'
    case ItalicUnderscore => '_'
    case Strike => '~'
    case Colour => '@'
    case Highlight => '%'
  }

  /** What the pattern `D([^x]+)D` asks of `s` at its start (`D` the delimiter, `x` its first character), for a content length `n`. */
  predicate DelimitedAt(s: string, delim: string, n: nat)
    requires |delim| >= 1
  {
    && n >= 1 && 2 * |delim| + n <= |s|
    && s[..|delim|] == delim
    && delim[0] !in s[|delim|..|delim| + n]
    && s[|delim| + n..2 * |delim| + n] == delim
  }

  /**
   * Greedy matcher for `D([^x]+)D`: the content run stops at the first `x`, and
   * since the closing delimiter also starts with `x` no shorter run can match.
   */
  function MatchDelimited(s: string, delim: string): (r: Option<nat>)
    requires |delim| >= 1
    ensures r.Some? ==> DelimitedAt(s, delim, r.value)
  {
    if StartsWith(s, delim) then
      var n := IndexOf(s[|delim|..], delim[0]);
      if n >= 1 && 2 * |delim| + n <= |s| && s[|delim| + n..2 * |delim| + n] == delim then Some(n) else None
    else None
  }

  /** The greedy matcher finds every match the pattern has, and the match is unique. */
  lemma MatchDelimitedComplete(s: string, delim: string, n: nat)
    requires |delim| >= 1
    requires DelimitedAt(s, delim, n)
    ensures MatchDelimited(s, delim) == Some(n)
  {
    var t := s[|delim|..];
    var i := IndexOf(t, delim[0]);
    assert t[..n] == s[|delim|..|delim| + n];
    assert t[n] == s[|delim| + n] == delim[0];
    assert delim[0] !in t[..n];
  }

  /**
   * What `!\[([^\]]*)\]\(([^)]+)\)` asks of `s` at its start, for an alt text
   * of `a` characters and a URL of `u`: both runs stop at the first character
   * they exclude, so the match is unique.
   */
  predicate ImageAt(s: string, a: nat, u: nat) {
    && u >= 1 && a + u + 5 <= |s|
    && s[0] == '!' && s[1] == '[' && ']' !in s[2..2 + a] && s[2 + a] == ']'
    && s[3 + a] == '(' && ')' !in s[4 + a..4 + a + u] && s[4 + a + u] == ')'
  }

  /** The alt and URL lengths of the image at the start of `s`. */
  function ImageSpan(s: string): (r: Option<(nat, nat)>)
    ensures r.Some? ==> ImageAt(s, r.value.0, r.value.1)
  {
    if |s| >= 2 && s[0] == '!' && s[1] == '[' then
      var a := IndexOf(s[2..], ']');
      if a + 3 < |s| && s[a + 3] == '(' then
        var u := IndexOf(s[a + 4..], ')');
        if u >= 1 && a + 4 + u < |s| then
          assert s[2..2 + a] == s[2..][..a];
          assert s[4 + a..4 + a + u] == s[a + 4..][..u];
          Some((a, u))
        else None
      else None
    else None
  }

  /** Every image the pattern matches is found. */
  lemma ImageSpanComplete(s: string, a: nat, u: nat)
    requires ImageAt(s, a, u)
    ensures ImageSpan(s) == Some((a, u))
  {
    assert s[2..][..a] == s[2..2 + a] && s[2..][a] == ']';
    assert s[a + 4..][..u] == s[4 + a..4 + a + u] && s[a + 4..][u] == ')';
  }

  /** The image at the start of `s`, replaced by `<img src="$2" alt="$1">`. */
  function MatchImage(s: string): Option<Hit> {
    match ImageSpan(s)
    case Some((a, u)) => Some(Hit(a + u + 5, "<img src=\"" + s[4 + a..4 + a + u] + "\" alt=\"" + s[2..2 + a] + "\">"))
    case None => None
  }

  /** What `\[([^\]]+)\]\(([^)]+)\)` asks of `s` at its start, for a link text of `a` characters and a URL of `u`. */
  predicate LinkAt(s: string, a: nat, u: nat) {
    && a >= 1 && u >= 1 && a + u + 4 <= |s|
    && s[0] == '[' && ']' !in s[1..1 + a] && s[1 + a] == ']'
    && s[2 + a] == '(' && ')' !in s[3 + a..3 + a + u] && s[3 + a + u] == ')'
  }

  /** The text and URL lengths of the link at the start of `s`. */
  function LinkSpan(s: string): (r: Option<(nat, nat)>)
    ensures r.Some? ==> LinkAt(s, r.value.0, r.value.1)
  {
    if |s| >= 1 && s[0] == '[' then
      var a := IndexOf(s[1..], ']');
      if a >= 1 && a + 2 < |s| && s[a + 2] == '(' then
        var u := IndexOf(s[a + 3..], ')');
        if u >= 1 && a + 3 + u < |s| then
          assert s[1..1 + a] == s[1..][..a];
          assert s[3 + a..3 + a + u] == s[a + 3..][..u];
          Some((a, u))
        else None
      else None
    else None
  }

  /** Every link the pattern matches is found. */
  lemma LinkSpanComplete(s: string, a: nat, u: nat)
    requires LinkAt(s, a, u)
    ensures LinkSpan(s) == Some((a, u))
  {
    assert s[1..][..a] == s[1..1 + a] && s[1..][a] == ']';
    assert s[a + 3..][..u] == s[3 + a..3 + a + u] && s[a + 3..][u] == ')';
  }

  /** The link at the start of `s`, replaced by `<a href="$2">$1</a>`. */
  function MatchLink(s: string): Option<Hit> {
    match LinkSpan(s)
    case Some((a, u)) => Some(Hit(a + u + 4, "<a href=\"" + s[3 + a..3 + a + u] + "\">" + s[1..1 + a] + "</a>"))
    case None => None
  }

  /** A delimited run replaced by `open` + content + `close`. */
  function MatchWrapped(s: string, delim: string, open: string, close: string): Option<Hit>
    requires |delim| >= 1
  {
    match MatchDelimited(s, delim)
    case Some(n) => Some(Hit(2 * |delim| + n, open + s[|delim|..|delim| + n] + close))
    case None => None
  }

  /** Every run of the pattern is matched, whole, and becomes `open` + its content + `close`. */
  lemma MatchWrappedAt(s: string, delim: string, open: string, close: string, n: nat)
    requires |delim| >= 1 && DelimitedAt(s, delim, n)
    ensures MatchWrapped(s, delim, open, close) == Some(Hit(2 * |delim| + n, open + s[|delim|..|delim| + n] + close))
  {
    MatchDelimitedComplete(s, delim, n);
  }

  /**
   * `(^|[^d])d([^d]+)d(?!d)` at the start of `s`, replaced by the prefix character
   * followed by `<em>$2</em>`. The `^` alternative applies only where the scan
   * started (`atStart`); otherwise the prefix is one consumed non-`d` character.
   */
  function MatchItalic(s: string, d: char, atStart: bool): Option<Hit> {
    if atStart && |s| >= 1 && s[0] == d then
      MatchEm(s, d, "")
    else if |s| >= 2 && s[0] != d then
      MatchEm(s[1..], d, [s[0]])
    else None
  }

  /** What an italic match is: one of the two alternatives of `(^|[^d])`, then an emphasis. */
  lemma MatchItalicSound(s: string, d: char, atStart: bool)
    requires MatchItalic(s, d, atStart).Some?
    ensures var h := MatchItalic(s, d, atStart).value;
      || (atStart && h.len >= 3 && EmAt(s, d, h.len - 2) && h.out == "<em>" + s[1..h.len - 1] + "</em>")
      || (s[0] != d && h.len >= 4 && EmAt(s[1..], d, h.len - 3) && h.out == [s[0]] + "<em>" + s[2..h.len - 1] + "</em>")
  {
    var h := MatchItalic(s, d, atStart).value;
    if atStart && s[0] == d {
      assert "" + "<em>" == "<em>";
    } else {
      var n := EmSpan(s[1..], d).value;
      assert s[1..][1..1 + n] == s[2..h.len - 1];
    }
  }

  /** Conversely, an emphasis at the scan's start, or after one non-`d` character, is matched. */
  lemma MatchItalicComplete(s: string, d: char, atStart: bool, n: nat)
    ensures atStart && EmAt(s, d, n) ==>
      MatchItalic(s, d, atStart) == Some(Hit(n + 2, "<em>" + s[1..1 + n] + "</em>"))
    ensures s != [] && s[0] != d && EmAt(s[1..], d, n) ==>
      MatchItalic(s, d, atStart) == Some(Hit(n + 3, [s[0]] + "<em>" + s[2..2 + n] + "</em>"))
  {
    if atStart && EmAt(s, d, n) {
      EmSpanComplete(s, d, n);
      assert "" + "<em>" == "<em>";
    }
    if s != [] && s[0] != d && EmAt(s[1..], d, n) {
      EmSpanComplete(s[1..], d, n);
      assert s[1..][1..1 + n] == s[2..2 + n];
    }
  }

  /**
   * What `d([^d]+)d(?!d)` asks of `t` at its start, for a content of `n`
   * characters: the content stops at the first `d`, which must not be doubled.
   */
  predicate EmAt(t: string, d: char, n: nat) {
    && n >= 1 && n + 2 <= |t|
    && t[0] == d && d !in t[1..1 + n] && t[1 + n] == d
    && (n + 2 == |t| || t[n + 2] != d)
  }

  /** The content length of the emphasis at the start of `t`. */
  function EmSpan(t: string, d: char): (r: Option<nat>)
    ensures r.Some? ==> EmAt(t, d, r.value)
  {
    if |t| >= 1 && t[0] == d then
      var n := IndexOf(t[1..], d);
      if n >= 1 && 1 + n < |t| && (2 + n == |t| || t[2 + n] != d) then
        assert t[1..1 + n] == t[1..][..n];
        Some(n)
      else None
    else None
  }

  /** Every emphasis the pattern matches is found. */
  lemma EmSpanComplete(t: string, d: char, n: nat)
    requires EmAt(t, d, n)
    ensures EmSpan(t, d) == Some(n)
  {
    assert t[1..][..n] == t[1..1 + n] && t[1..][n] == d;
  }

  /** The emphasis at the start of `t`, with a prefix already consumed. */
  function MatchEm(t: string, d: char, prefix: string): (r: Option<Hit>)
    ensures r.Some? ==> var n := r.value.len - |prefix| - 2;
      && n >= 1 && EmAt(t, d, n) && r.value.out == prefix + "<em>" + t[1..1 + n] + "</em>"
  {
    match EmSpan(t, d)
    case Some(n) => Some(Hit(|prefix| + 2 + n, prefix + "<em>" + t[1..1 + n] + "</em>"))
    case None => None
  }

  /** `^#([0-9A-Fa-f]{3}|[0-9A-Fa-f]{6})\b`: the length of the colour at the start of `inner`. */
  function HexColour(inner: string): (r: Option<nat>)
    ensures r.Some? ==> (r.value == 4 || r.value == 7) && r.value <= |inner| && inner[0] == '#'
    ensures r.Some? ==> forall k :: 1 <= k < r.value ==> IsHexDigit(inner[k])
    ensures r.Some? ==> r.value == |inner| || !IsWordChar(inner[r.value])
  {
    if |inner| >= 4 && inner[0] == '#' && IsHexDigit(inner[1]) && IsHexDigit(inner[2]) && IsHexDigit(inner[3])
       && (|inner| == 4 || !IsWordChar(inner[4]))
    then Some(4)
    else if |inner| >= 7 && inner[0] == '#' && (forall k :: 1 <= k < 7 ==> IsHexDigit(inner[k]))
       && (|inner| == 7 || !IsWordChar(inner[7]))
    then Some(7)
    else None
  }

  /** Conversely, `#` and three hex digits at a word boundary is a colour; failing that, six are. */
  lemma HexColourComplete(inner: string, k: nat)
    requires k == 4 || k == 7
    requires k <= |inner| && inner[0] == '#' && forall j :: 1 <= j < k ==> IsHexDigit(inner[j])
    requires k == |inner| || !IsWordChar(inner[k])
    ensures HexColour(inner) == Some(k)
  {
    if k == 7 {
      assert IsHexDigit(inner[4]);
    }
  }

  /** The span a colour (`property` = `color`) or highlight (`background-color`) run becomes. */
  function StyledSpan(inner: string, property: string, default: string): string {
    match HexColour(inner)
    case Some(k) => "<span style=\"" + property + ":" + inner[..k] + "\">" + TrimStart(inner[k..]) + "</span>"
    case None => "<span style=\"" + property + ":" + default + "\">" + inner + "</span>"
  }

  /** A run that opens with a colour: the colour styles the span, and the blanks after it are dropped. */
  lemma StyledSpanColour(colour: string, gap: string, text: string, property: string, default: string)
    requires (|colour| == 4 || |colour| == 7) && colour[0] == '#'
    requires forall j :: 1 <= j < |colour| ==> IsHexDigit(colour[j])
    requires AllSpace(gap) && (text == [] || !IsSpace(text[0]))
    requires gap + text == [] || !IsWordChar((gap + text)[0])
    ensures StyledSpan(colour + (gap + text), property, default)
      == "<span style=\"" + property + ":" + colour + "\">" + text + "</span>"
  {
    var inner := colour + (gap + text);
    var k := |colour|;
    assert inner[..k] == colour && inner[k..] == gap + text;
    assert forall j :: 1 <= j < k ==> IsHexDigit(inner[j]) by {
      forall j | 1 <= j < k ensures IsHexDigit(inner[j]) { assert inner[j] == colour[j]; }
    }
    if k < |inner| {
      assert inner[k] == (gap + text)[0];
    }
    HexColourComplete(inner, k);
    TrimStartFrame(gap, text);
  }

  /** A run that does not open with `#` keeps all its text and takes the default colour. */
  lemma StyledSpanDefault(inner: string, property: string, default: string)
    requires inner == [] || inner[0] != '#'
    ensures StyledSpan(inner, property, default)
      == "<span style=\"" + property + ":" + default + "\">" + inner + "</span>"
  {
  }

  /** `@@([^@]+)@@` / `%%([^%]+)%%` at the start of `s`, rendered by `StyledSpan`. */
  function MatchStyled(s: string, delim: string, property: string, default: string): Option<Hit>
    requires |delim| >= 1
  {
    match MatchDelimited(s, delim)
    case Some(n) => Some(Hit(2 * |delim| + n, StyledSpan(s[|delim|..|delim| + n], property, default)))
    case None => None
  }

  /** The matcher of each rule at the start of `s`; a match consumes at least one character. */
  function MatchRule(rule: Rule, s: string, atStart: bool): (r: Option<Hit>)
    ensures r.Some? ==> 1 <= r.value.len <= |s|
    ensures r.Some? ==> Trigger(rule) in s
    ensures r.Some? && !rule.ItalicStar? && !rule.ItalicUnderscore? ==> s[0] == Trigger(rule)
  {
    match rule
    case Image => MatchImage(s)
    case Link => MatchLink(s)
    case BoldItalic => MatchWrapped(s, "***", "<strong><em>", "</em></strong>")
    case Bold => MatchWrapped(s, "**", "<strong>", "</strong>")
    case Underline => MatchWrapped(s, "__", "<u>", "</u>")
    case ItalicStar => MatchItalic(s, '*', atStart)
    case ItalicUnderscore => MatchItalic(s, '_', atStart)
    case Strike => MatchWrapped(s, "~~", "<del>", "</del>")
    case Colour => MatchStyled(s, "@@", "color", "#f00")
    case Highlight => MatchStyled(s, "%%", "background-color", "#FFA500")
  }

  /**
   * `s.replace(/pattern/g, …)`: try the rule at each position from left to right,
   * copy a character where it does not match, and resume after each match.
   * `atStart` is true only for the first position of the whole string.
   */
  function Rewrite(rule: Rule, s: string, atStart: bool): string
    decreases |s|
  {
    if s == [] then []
    else match MatchRule(rule, s, atStart)
      case Some(h) => h.out + Rewrite(rule, s[h.len..], false)
      case None => [s[0]] + Rewrite(rule, s[1..], false)
  }

  /** Stages 3 to 7 of the pipeline, in source order (converter.js:22-40). */
  function SpanRules(s: string): string {
    var image := Rewrite(Image, s, true);
    var link := Rewrite(Link, image, true);
    var boldItalic := Rewrite(BoldItalic, link, true);
    var bold := Rewrite(Bold, boldItalic, true);
    var underline := Rewrite(Underline, bold, true);
    var italicStar := Rewrite(ItalicStar, underline, true);
    var italicUnderscore := Rewrite(ItalicUnderscore, italicStar, true);
    Rewrite(Strike, italicUnderscore, true)
  }

  /** The token left in place of code span `i`: `\u0000CODE<i>\u0000`. */
  function Placeholder(i: nat): string {
    "\0CODE" + NatToString(i) + "\0"
  }

  /** A code span found at the start of `s` has a content that is not empty and holds no backtick. */
  lemma CodeSpanAt(s: string, n: nat)
    requires DelimitedAt(s, "`", n)
    ensures n + 2 <= |s| && s[1..1 + n] != [] && '`' !in s[1..1 + n]
  {
  }

  /**
   * `` s.replace(/`([^`]+)`/g, …) `` with the side table: each code span's content is
   * appended to `spans` and replaced by the placeholder of its index.
   */
  function ExtractCode(s: string, spans: seq<string>): (r: (string, seq<string>))
    ensures |r.1| >= |spans| && r.1[..|spans|] == spans
    ensures forall k :: |spans| <= k < |r.1| ==> r.1[k] != [] && '`' !in r.1[k]
    decreases |s|
  {
    if s == [] then (s, spans)
    else match MatchDelimited(s, "`")
      case Some(n) =>
        CodeSpanAt(s, n);
        var code := s[1..1 + n];
        var rest := ExtractCode(s[n + 2..], spans + [code]);
        assert rest.1[..|spans| + 1] == spans + [code];
        assert rest.1[..|spans|] == (spans + [code])[..|spans|];
        assert rest.1[|spans|] == code;
        (Placeholder(|spans|) + rest.0, rest.1)
      case None =>
        var rest := ExtractCode(s[1..], spans);
        ([s[0]] + rest.0, rest.1)
  }

  /** `\u0000CODE(\d+)\u0000` at the start of `s`: the length of the token and its digits. */
  function MatchPlaceholder(s: string): (r: Option<(nat, string)>)
    ensures r.Some? ==> 7 <= r.value.0 <= |s| && s[..5] == "\0CODE" && s[r.value.0 - 1] == '\0'
    ensures r.Some? ==> r.value.1 == s[5..r.value.0 - 1] && forall k :: 0 <= k < |r.value.1| ==> IsDigit(r.value.1[k])
  {
    if |s| >= 5 && s[..5] == "\0CODE" then
      var d := CountDigits(s[5..]);
      if d >= 1 && 5 + d < |s| && s[5 + d] == '\0' then Some((6 + d, s[5..5 + d])) else None
    else None
  }

  /**
   * converter.js:43: every placeholder becomes `<code>` + the escaped span + `</code>`.
   * `None` is the `TypeError` the source throws when a token names no span:
   * `codeSpans[idx]` is then `undefined` and `escapeHtml` calls `replace` on it.
   */
  function RestoreCode(s: string, spans: seq<string>): Option<string>
    decreases |s|
  {
    if s == [] then Some([])
    else match MatchPlaceholder(s)
      case Some(p) =>
        (match CanonicalIndex(p.1)
         case Some(i) =>
           if i < |spans| then
             match RestoreCode(s[p.0..], spans)
             case Some(rest) => Some("<code>" + EscapeHtml(spans[i]) + "</code>" + rest)
             case None => None
           else None
         case None => None)
      case None =>
        match RestoreCode(s[1..], spans)
        case Some(rest) => Some([s[0]] + rest)
        case None => None
  }

  /** `inlineMarkdown(text)`: the whole pipeline, in the order of converter.js:14-70. */
  function InlineMarkdown(text: string): Option<string> {
    if text == [] then Some([])
    else
      var extracted := ExtractCode(EscapeHtml(text), []);
      match RestoreCode(SpanRules(extracted.0), extracted.1)
      case Some(restored) => Some(Rewrite(Highlight, Rewrite(Colour, restored, true), true))
      case None => None
  }
}
