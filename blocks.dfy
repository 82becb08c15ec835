/**
 * The line classifiers of `markdownToPrettyHtml` (converter.js:74-248): which
 * of the block patterns a line matches, and what each match captures. The
 * regular expressions are written out as hand matchers over the ECMAScript
 * `\s` class; each matcher states the decomposition its pattern describes.
 */
module Blocks {
  import opened Wrappers
  import opened Strings

  /** The text between the markers of a horizontal rule. */
  predicate IsRuleMark(m: string) {
    m == "***" || m == "---" || m == "___"
  }

  /** `^\s*(\*\*\*|---|___)\s*$` (converter.js:125). */
  predicate IsHorizontalRule(line: string) {
    IsRuleMark(Trim(line))
  }

  /** Every line of the regular expression's shape is a rule ... */
  lemma HorizontalRuleFrame(pre: string, m: string, post: string)
    requires AllSpace(pre) && AllSpace(post) && IsRuleMark(m)
    ensures IsHorizontalRule(pre + m + post)
  {
    TrimFrame(pre, m, post);
  }

  /** ... and every rule has that shape: blanks, three equal markers, blanks. */
  lemma HorizontalRuleShape(line: string)
    requires IsHorizontalRule(line)
    ensures var i := |line| - |TrimStart(line)|;
      && i + 3 <= |line| && AllSpace(line[..i]) && IsRuleMark(line[i..i + 3]) && AllSpace(line[i + 3..])
  {
    TrimShape(line);
    var t := Trim(line);
    assert |t| == 3;
    var i := |line| - |TrimStart(line)|;
    assert line[i..i + 3] == t;
  }

  /** `^```` (converter.js:132): the line opens or closes a fenced code block. */
  predicate IsFence(line: string) {
    StartsWith(line, "```")
  }

  /** `line.replace(/^```/, '').trim()` (converter.js:135). */
  function FenceLanguage(line: string): (lang: string)
    requires IsFence(line)
    ensures var r := line[3..]; var i := |r| - |TrimStart(r)|;
      && i + |lang| <= |r| && AllSpace(r[..i]) && r[i..i + |lang|] == lang && AllSpace(r[i + |lang|..])
    ensures lang == [] || (!IsSpace(lang[0]) && !IsSpace(lang[|lang| - 1]))
  {
    TrimShape(line[3..]);
    Trim(line[3..])
  }

  /** Conversely, the language of a fence is whatever the blanks after the backticks and at the end enclose. */
  lemma FenceLanguageFrame(pre: string, lang: string, post: string)
    requires AllSpace(pre) && AllSpace(post)
    requires lang == [] || (!IsSpace(lang[0]) && !IsSpace(lang[|lang| - 1]))
    ensures IsFence("```" + pre + lang + post) && FenceLanguage("```" + pre + lang + post) == lang
  {
    var line := "```" + pre + lang + post;
    assert line[..3] == "```";
    assert line[3..] == pre + lang + post;
    if lang == [] {
      assert pre + lang + post == pre + post;
      assert AllSpace(pre + post) by {
        forall k | 0 <= k < |pre + post| ensures IsSpace((pre + post)[k]) {
          if k >= |pre| { assert (pre + post)[k] == post[k - |pre|]; }
        }
      }
      TrimEmpty(pre + post);
    } else {
      TrimFrame(pre, lang, post);
    }
  }

  /** A heading: its level and its text before inline rendering. */
  datatype Heading = Heading(level: nat, text: string)

  /** `^(#{1,6})\s+(.*)$` matches with `k` hashes. */
  predicate HeadingAt(line: string, k: nat) {
    && 1 <= k <= 6 && k < |line|
    && (forall j :: 0 <= j < k ==> line[j] == '#')
    && IsSpace(line[k])
    && NoLineTerminator(TrimStart(line[k..]))
  }

  /**
   * The heading pattern (converter.js:140-143): one to six `#`, at least one
   * blank, then text without a line terminator; the text is trimmed.
   */
  function MatchHeading(line: string): (r: Option<Heading>)
    ensures r.Some? ==> HeadingAt(line, r.value.level) && r.value.text == Trim(TrimStart(line[r.value.level..]))
    ensures forall k: nat :: HeadingAt(line, k) ==> r == Some(Heading(k, Trim(TrimStart(line[k..]))))
  {
    var n := CountLeading(line, '#');
    HeadingLevelUnique(line);
    if 1 <= n <= 6 && n < |line| && IsSpace(line[n]) && NoLineTerminator(TrimStart(line[n..]))
    then Some(Heading(n, Trim(TrimStart(line[n..]))))
    else None
  }

  /** Only the whole run of leading `#` can be the heading's marker. */
  lemma HeadingLevelUnique(line: string)
    ensures forall k: nat :: HeadingAt(line, k) ==> k == CountLeading(line, '#')
  {
    var n := CountLeading(line, '#');
    forall k: nat | HeadingAt(line, k) ensures k == n {
      assert line[k] != '#';
      assert n <= k < |line|;
      assert line[n] != '#';
    }
  }

  /** A list's tag. */
  datatype ListKind = Ul | Ol

  function TagName(kind: ListKind): string {
    match kind
    case Ul => "ul"
    case Ol => "ol"
  }

  /** A list item: the width of its leading blank run, its kind and its text. */
  datatype Item = Item(indent: nat, kind: ListKind, text: string)

  /** The nesting level of an item: `Math.floor(indent / 2) + 1` (converter.js:160). */
  function ItemLevel(indent: nat): (level: nat)
    ensures level >= 1
    ensures 2 * (level - 1) <= indent < 2 * level
  {
    indent / 2 + 1
  }

  predicate IsBullet(c: char) { c == '-' || c == '*' || c == '+' }

  /** `m` is a whole list marker of the kind: one bullet, or digits and a dot. */
  predicate MarkerOf(m: string, kind: ListKind) {
    match kind
    case Ul => |m| == 1 && IsBullet(m[0])
    case Ol => |m| >= 2 && m[|m| - 1] == '.' && forall k :: 0 <= k < |m| - 1 ==> IsDigit(m[k])
  }

  /** `[-*+]|\d+\.` at the start of `t`: the marker's length and the kind it selects. */
  function ListMarker(t: string): (r: Option<(nat, ListKind)>)
    ensures r.Some? ==> 1 <= r.value.0 <= |t| && MarkerOf(t[..r.value.0], r.value.1)
    ensures r.Some? ==> (r.value.1 == Ul <==> IsBullet(t[0]))
  {
    if t != [] && IsBullet(t[0]) then Some((1, Ul))
    else
      var d := CountDigits(t);
      if 1 <= d < |t| && t[d] == '.' then Some((d + 1, Ol)) else None
  }

  /** Every marker is found, whatever follows it, with its kind. */
  lemma ListMarkerComplete(m: string, rest: string, kind: ListKind)
    requires MarkerOf(m, kind)
    ensures ListMarker(m + rest) == Some((|m|, kind))
  {
    var t := m + rest;
    assert t[0] == m[0];
    if kind == Ol {
      var d := m[..|m| - 1];
      assert t == d + ("." + rest);
      CountDigitsPrefix(d, "." + rest);
      assert t[|d|] == '.';
    }
  }

  /** A line's marker, what precedes it and what follows it: the shape of a list item. */
  predicate ItemShape(line: string, it: Item, w: nat) {
    var j := |line| - |it.text|;
    && it.indent + w < j <= |line|
    && AllSpace(line[..it.indent])
    && MarkerOf(line[it.indent..it.indent + w], it.kind)
    && AllSpace(line[it.indent + w..j])
    && line[j..] == it.text
    && (it.text == [] || !IsSpace(it.text[0]))
    && NoLineTerminator(it.text)
  }

  /**
   * The list pattern `^(\s*)([-*+]|\d+\.)\s+(.*)$` (converter.js:156-162): the
   * whole leading blank run is the indentation, then the marker, at least one
   * blank, and text without a line terminator.
   */
  function MatchListItem(line: string): Option<Item> {
    var t := TrimStart(line);
    var marker := ListMarker(t);
    if marker.None? then None
    else
      var after := t[marker.value.0..];
      var text := TrimStart(after);
      if after != [] && IsSpace(after[0]) && NoLineTerminator(text) then Some(Item(|line| - |t|, marker.value.1, text))
      else None
  }

  /** A list match's indentation is the whole leading blank run ... */
  lemma ListItemIndent(line: string)
    requires MatchListItem(line).Some?
    ensures var it := MatchListItem(line).value;
      it.indent < |line| && AllSpace(line[..it.indent]) && !IsSpace(line[it.indent])
  {
    var t := TrimStart(line);
    TrimStartShape(line);
    assert t[0] == line[|line| - |t|];
  }

  /** ... its marker selects the kind ... */
  lemma ListItemKind(line: string)
    requires MatchListItem(line).Some?
    ensures var it := MatchListItem(line).value;
      && it.indent < |line|
      && (it.kind == Ul <==> IsBullet(line[it.indent]))
      && (it.kind == Ol ==> IsDigit(line[it.indent]))
  {
    var t := TrimStart(line);
    TrimStartShape(line);
    assert t[0] == line[|line| - |t|];
  }

  /**
   * ... and its text is the rest of the line after the marker and the whole
   * run of blanks (at least one) that follows the marker.
   */
  lemma ListItemText(line: string)
    requires MatchListItem(line).Some?
    ensures var it := MatchListItem(line).value;
      exists w :: ItemShape(line, it, w)
  {
    var it := MatchListItem(line).value;
    var t := TrimStart(line);
    var mk := ListMarker(t).value;
    var after := t[mk.0..];
    var text := TrimStart(after);
    assert it == Item(|line| - |t|, mk.1, text);
    assert after != [] && IsSpace(after[0]) && NoLineTerminator(text);
    TrimStartShorter(after);
    TrimStartShape(line);
    TrimStartShape(after);
    var pre := line[..|line| - |t|];
    var gap := after[..|after| - |text|];
    SplitAt(line, |line| - |t|);
    SplitAt(t, mk.0);
    SplitAt(after, |after| - |text|);
    ItemShapeFrame(line, pre, t[..mk.0], gap, text, mk.1);
  }

  /** The shape of a decomposed item line. */
  lemma ItemShapeFrame(line: string, pre: string, m: string, gap: string, text: string, kind: ListKind)
    requires line == pre + (m + (gap + text))
    requires AllSpace(pre) && MarkerOf(m, kind)
    requires gap != [] && AllSpace(gap)
    requires NoLineTerminator(text) && (text == [] || !IsSpace(text[0]))
    ensures ItemShape(line, Item(|pre|, kind, text), |m|)
  {
    assert line[..|pre|] == pre;
    assert line[|pre|..|pre| + |m|] == m;
    assert line[|pre| + |m|..|line| - |text|] == gap;
    assert line[|line| - |text|..] == text;
  }

  /** Conversely, every line of the list pattern's shape is an item, with that indentation, kind and text. */
  lemma ListItemFrame(pre: string, m: string, gap: string, text: string, kind: ListKind)
    requires AllSpace(pre) && MarkerOf(m, kind)
    requires gap != [] && AllSpace(gap)
    requires NoLineTerminator(text) && (text == [] || !IsSpace(text[0]))
    ensures MatchListItem(pre + m + gap + text) == Some(Item(|pre|, kind, text))
  {
    var line := pre + m + gap + text;
    var t := m + (gap + text);
    assert line == pre + t;
    assert !IsSpace(m[0]);
    TrimStartFrame(pre, t);
    ListMarkerComplete(m, gap + text, kind);
    assert t[|m|..] == gap + text;
    TrimStartFrame(gap, text);
  }

  /**
   * The quote pattern `^\s*>+\s*(.*)$` (converter.js:196, 198, 211): blanks,
   * one or more `>`, blanks; the rest of the line, which may hold no line
   * terminator, is the content.
   */
  function QuoteContent(line: string): Option<string> {
    var rest := QuoteRest(line);
    if rest.Some? && NoLineTerminator(rest.value) then rest else None
  }

  /**
   * The replacement of the quote marker `^\s*>+\s*` by nothing
   * (converter.js:198): the line after its marker, or the whole line when it
   * has none.
   */
  function StripQuote(line: string): string {
    var rest := QuoteRest(line);
    if rest.Some? then rest.value else line
  }

  /** The contents of a run of quote lines, in order. */
  function QuoteContents(ls: seq<string>): seq<string> {
    seq(|ls|, k requires 0 <= k < |ls| => StripQuote(ls[k]))
  }

  /** One more line at the end of a run adds its content last. */
  lemma QuoteContentsStep(ls: seq<string>, a: nat, b: nat)
    requires a <= b < |ls|
    ensures QuoteContents(ls[a..b + 1]) == QuoteContents(ls[a..b]) + [StripQuote(ls[b])]
  {
    assert ls[a..b + 1] == ls[a..b] + [ls[b]];
  }

  /** `^\s*>+\s*`: what follows the leading blanks, the run of `>` and the blanks after it. */
  function QuoteRest(line: string): Option<string> {
    var t := TrimStart(line);
    var g := CountLeading(t, '>');
    if g == 0 then None else Some(TrimStart(t[g..]))
  }

  /** What follows the quote marker is a proper suffix of the line, without leading blank. */
  lemma QuoteRestSuffix(line: string)
    requires QuoteRest(line).Some?
    ensures var c := QuoteRest(line).value;
      |c| < |line| && EndsWith(line, c) && (c == [] || !IsSpace(c[0]))
  {
    var t := TrimStart(line);
    var g := CountLeading(t, '>');
    var rest := t[g..];
    var c := TrimStart(rest);
    TrimStartShape(line);
    TrimStartShape(rest);
    assert EndsWith(t, rest);
    SuffixTrans(line, t, rest);
    SuffixTrans(line, rest, c);
  }

  /** The content of a quote line is a proper suffix of it, without line terminator or leading blank ... */
  lemma QuoteContentSuffix(line: string)
    requires QuoteContent(line).Some?
    ensures var c := QuoteContent(line).value;
      && |c| < |line| && EndsWith(line, c)
      && NoLineTerminator(c) && (c == [] || !IsSpace(c[0]))
  {
    QuoteRestSuffix(line);
  }

  /**
   * The decomposition of a quote line around its content `c`: `w` blanks, the
   * whole run of `g >= 1` characters `>`, blanks, then `c`.
   */
  predicate QuoteShape(line: string, c: string, w: nat, g: nat) {
    var j := |line| - |c|;
    && g >= 1 && w + g <= j && |c| <= |line| && line[j..] == c
    && AllSpace(line[..w])
    && (forall k :: w <= k < w + g ==> line[k] == '>')
    && (w + g < |line| ==> line[w + g] != '>')
    && AllSpace(line[w + g..j])
  }

  /** ... and what precedes it is blanks, one run of `>` and blanks. */
  lemma QuoteContentPrefix(line: string)
    requires QuoteContent(line).Some?
    ensures var c := QuoteContent(line).value;
      exists w, g :: QuoteShape(line, c, w, g)
  {
    var t := TrimStart(line);
    var g := CountLeading(t, '>');
    TrimStartShape(line);
    QuoteShapeOf(line, t, g);
    assert QuoteShape(line, QuoteContent(line).value, |line| - |t|, g);
  }

  /** The run of `>` after the leading blanks, the blanks after it, and the rest. */
  lemma QuoteShapeOf(line: string, t: string, g: nat)
    requires EndsWith(line, t) && AllSpace(line[..|line| - |t|])
    requires 1 <= g <= |t| && (forall k :: 0 <= k < g ==> t[k] == '>') && (g < |t| ==> t[g] != '>')
    ensures QuoteShape(line, TrimStart(t[g..]), |line| - |t|, g)
  {
    var rest := t[g..];
    var c := TrimStart(rest);
    var gap := rest[..|rest| - |c|];
    assert rest == gap + c && AllSpace(gap) by {
      TrimStartShape(rest);
      SplitAt(rest, |rest| - |c|);
    }
    SplitAt(line, |line| - |t|);
    SplitAt(t, g);
    QuoteShapeFrame(line[..|line| - |t|], t[..g], rest, gap, c);
  }

  /** The shape of a decomposed quote line. */
  lemma QuoteShapeFrame(pre: string, marks: string, rest: string, gap: string, c: string)
    requires rest == gap + c
    requires AllSpace(pre) && AllSpace(gap)
    requires marks != [] && forall k :: 0 <= k < |marks| ==> marks[k] == '>'
    requires rest == [] || rest[0] != '>'
    ensures QuoteShape(pre + (marks + rest), c, |pre|, |marks|)
  {
    var line := pre + (marks + rest);
    assert line[..|pre|] == pre;
    assert line[|line| - |c|..] == c;
    assert line[|pre| + |marks|..|line| - |c|] == gap;
    forall k | |pre| <= k < |pre| + |marks| ensures line[k] == '>' {
      assert line[k] == marks[k - |pre|];
    }
    if |pre| + |marks| < |line| {
      assert line[|pre| + |marks|] == rest[0];
    }
  }

  /** Conversely, blanks, a run of `>` and blanks in front of text that starts with a non-blank give that text. */
  lemma QuoteRestFrame(pre: string, marks: string, mid: string, u: string)
    requires AllSpace(pre) && AllSpace(mid)
    requires marks != [] && forall k :: 0 <= k < |marks| ==> marks[k] == '>'
    requires mid + u == [] || (mid + u)[0] != '>'
    requires u == [] || !IsSpace(u[0])
    ensures QuoteRest(pre + marks + mid + u) == Some(u)
  {
    var x := mid + u;
    var t := marks + x;
    assert pre + marks + mid + u == pre + t;
    assert !IsSpace(t[0]);
    TrimStartFrame(pre, t);
    CountLeadingPrefix(marks, '>', x);
    assert t[|marks|..] == x;
    TrimStartFrame(mid, u);
  }

  /** The five alert types of GitHub-flavoured Markdown. */
  datatype AlertKind = Note | Tip | Important | Warning | Caution

  /** The tag as the alert pattern spells it. */
  function AlertTag(kind: AlertKind): string {
    match kind
    case Note => "NOTE"
    case Tip => "TIP"
    case Important => "IMPORTANT"
    case Warning => "WARNING"
    case Caution => "CAUTION"
  }

  /** `alertMatch[1].toLowerCase()` (converter.js:183). */
  function AlertType(kind: AlertKind): string {
    match kind
    case Note => "note"
    case Tip => "tip"
    case Important => "important"
    case Warning => "warning"
    case Caution => "caution"
  }

  /** `t` begins with the tag of `kind`, in any ASCII case, followed by `]`. */
  predicate TagMatches(t: string, kind: AlertKind) {
    var tag := AlertTag(kind);
    |tag| < |t| && EqualsIgnoringCase(t[..|tag|], tag) && t[|tag|] == ']'
  }

  /** The alternation `(NOTE|TIP|IMPORTANT|WARNING|CAUTION)\]` of converter.js:180, under the `i` flag. */
  function MatchTag(t: string): (r: Option<AlertKind>)
    ensures r.Some? ==> TagMatches(t, r.value)
    ensures r.None? ==> forall kind :: !TagMatches(t, kind)
  {
    if TagMatches(t, Note) then Some(Note)
    else if TagMatches(t, Tip) then Some(Tip)
    else if TagMatches(t, Important) then Some(Important)
    else if TagMatches(t, Warning) then Some(Warning)
    else if TagMatches(t, Caution) then Some(Caution)
    else None
  }

  /** The first line of an alert: its kind and the text after the tag. */
  datatype Callout = Callout(kind: AlertKind, first: string)

  /** `^\s*>+\s*\[!(NOTE|TIP|IMPORTANT|WARNING|CAUTION)\]\s*(.*)$` with the `i` flag (converter.js:180). */
  function MatchCallout(line: string): Option<Callout> {
    var rest := QuoteRest(line);
    if rest.None? then None
    else
      var tagged := TagPart(rest.value);
      if tagged.None? then None else AlertFirst(tagged.value.0, tagged.value.1)
  }

  /** `\[!(NOTE|TIP|IMPORTANT|WARNING|CAUTION)\]`: the kind, and what follows the closing bracket. */
  function TagPart(u: string): Option<(AlertKind, string)> {
    if !StartsWith(u, "[!") then None
    else
      var kind := MatchTag(u[2..]);
      if kind.None? then None else Some((kind.value, u[2..][|AlertTag(kind.value)| + 1..]))
  }

  /** `\s*(.*)$` after the tag. */
  function AlertFirst(kind: AlertKind, after: string): Option<Callout> {
    var first := TrimStart(after);
    if NoLineTerminator(first) then Some(Callout(kind, first)) else None
  }

  /** The five tags begin with five different letters, so at most one of them matches. */
  lemma TagUnique(t: string, a: AlertKind, b: AlertKind)
    requires TagMatches(t, a) && TagMatches(t, b)
    ensures a == b
  {
    assert AsciiUpper(t[0]) == AsciiUpper(AlertTag(a)[0]) == AlertTag(a)[0];
    assert AsciiUpper(t[0]) == AsciiUpper(AlertTag(b)[0]) == AlertTag(b)[0];
  }

  /**
   * Every line of the alert pattern's shape is an alert of the tag's kind,
   * whatever the ASCII case of the tag, and its first text is what follows
   * the tag and the blanks after it.
   */
  lemma CalloutFrame(pre: string, marks: string, mid: string, tag: string, gap: string, text: string, kind: AlertKind)
    requires AllSpace(pre) && AllSpace(mid) && AllSpace(gap)
    requires marks != [] && forall k :: 0 <= k < |marks| ==> marks[k] == '>'
    requires EqualsIgnoringCase(tag, AlertTag(kind))
    requires NoLineTerminator(text) && (text == [] || !IsSpace(text[0]))
    ensures MatchCallout(pre + marks + mid + ("[!" + tag + "]" + (gap + text))) == Some(Callout(kind, text))
  {
    var u := "[!" + tag + "]" + (gap + text);
    assert mid + u == [] || (mid + u)[0] != '>' by {
      if mid == [] { assert mid + u == u; }
    }
    QuoteRestFrame(pre, marks, mid, u);
    TagPartFrame(tag, gap + text, kind);
    TrimStartFrame(gap, text);
  }

  lemma TagPartFrame(tag: string, rest: string, kind: AlertKind)
    requires EqualsIgnoringCase(tag, AlertTag(kind))
    ensures TagPart("[!" + tag + "]" + rest) == Some((kind, rest))
  {
    var v := tag + "]" + rest;
    var u := "[!" + tag + "]" + rest;
    assert u == "[!" + v;
    assert u[..2] == "[!";
    assert u[2..] == v;
    assert v[..|tag|] == tag;
    assert TagMatches(v, kind);
    forall other | TagMatches(v, other) ensures other == kind {
      TagUnique(v, other, kind);
    }
    assert MatchTag(v) == Some(kind);
    assert v[|tag| + 1..] == rest;
  }

  /** What follows the tag is a suffix of the quote's text. */
  lemma TagPartSuffix(u: string)
    requires TagPart(u).Some?
    ensures EndsWith(u, TagPart(u).value.1)
  {
    var kind := MatchTag(u[2..]).value;
    assert TagPart(u).value.1 == u[|AlertTag(kind)| + 3..];
    EndsWithDrop(u, |AlertTag(kind)| + 3);
  }

  lemma AlertFirstSuffix(kind: AlertKind, after: string)
    requires AlertFirst(kind, after).Some?
    ensures var c := AlertFirst(kind, after).value.first;
      EndsWith(after, c) && NoLineTerminator(c) && (c == [] || !IsSpace(c[0]))
  {
    TrimStartShape(after);
  }

  /** The first text of an alert is a suffix of its line, without line terminator or leading blank. */
  lemma CalloutFirstSuffix(line: string)
    requires MatchCallout(line).Some?
    ensures var c := MatchCallout(line).value.first;
      EndsWith(line, c) && NoLineTerminator(c) && (c == [] || !IsSpace(c[0]))
  {
    QuoteRestSuffix(line);
    var u := QuoteRest(line).value;
    TagPartSuffix(u);
    var tagged := TagPart(u).value;
    AlertFirstSuffix(tagged.0, tagged.1);
    SuffixTrans(line, u, tagged.1);
    SuffixTrans(line, tagged.1, MatchCallout(line).value.first);
  }

  /** `^\s*\|(.+)\|\s*$` (converter.js:225), stated on the trimmed line. */
  predicate IsTableRow(line: string) {
    var t := Trim(line);
    |t| >= 3 && t[0] == '|' && t[|t| - 1] == '|' && NoLineTerminator(t[1..|t| - 1])
  }

  /**
   * Every line of the regular expression's shape is a table row; conversely
   * `TrimShape` frames every row's trimmed text, `|` ... `|`, by blanks.
   */
  lemma TableRowFrame(pre: string, inner: string, post: string)
    requires AllSpace(pre) && AllSpace(post)
    requires inner != [] && NoLineTerminator(inner)
    ensures IsTableRow(pre + "|" + inner + "|" + post)
  {
    var m := "|" + inner + "|";
    assert pre + "|" + inner + "|" + post == pre + m + post;
    TrimFrame(pre, m, post);
    assert m[1..|m| - 1] == inner;
  }

  /** `^\s*$` (converter.js:236). */
  predicate IsBlank(line: string) {
    AllSpace(line)
  }
}
