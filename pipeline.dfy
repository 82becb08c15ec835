/**
 * The block parser with the real inline transformer plugged in. The parser
 * counts `<details>`, `<ul>` and `<ol>` from the first four characters of each
 * output line (`Parser.Classify`); what it asks of the transformer
 * (`Parser.SafeInline`) is that none of its results could be mistaken for such
 * a line. Here this is proved of `inlineMarkdown`: every replacement its rules
 * write starts with a tag that is not counted (`<img`, `<a h`, `<str`, `<u>`,
 * `<em>`, `<del`, `<spa`, `<cod`), and the escaped text it starts from has no `<`.
 */
module Pipeline {
  import opened Wrappers
  import opened Strings
  import opened Escape
  import opened Inline
  import Parser

  /** A line the parser counts as text: once dedented, it opens and closes nothing. */
  predicate Untagged(line: string) {
    Parser.Classify(Dedent(line)) == Parser.Text
  }

  /** The class of a line is read from its first four characters. */
  lemma ClassifyExtend(x: string, a: string)
    requires |x| >= 4
    ensures Parser.Classify(x + a) == Parser.Classify(x)
  {
    assert (x + a)[1] == x[1] && (x + a)[2] == x[2] && (x + a)[3] == x[3];
  }

  /** A `<` among the second to fourth characters makes a line text. */
  lemma ClassifyInnerLt(x: string, j: nat)
    requires 1 <= j <= 3 && j < |x| && x[j] == '<'
    ensures Parser.Classify(x) == Parser.Text
  {
  }

  /** A line without `<` is text. */
  lemma NoLtUntagged(x: string)
    requires '<' !in x
    ensures Untagged(x)
  {
    DedentSuffix(x);
    var d := Dedent(x);
    if d != [] {
      assert d[0] == x[|x| - |d|];
    }
  }

  /** The start of a replacement: a tag that is none of the counted ones. */
  predicate TagStart(w: string) {
    |w| >= 4 && w[0] == '<' && Parser.Classify(w) == Parser.Text
  }

  /** A replacement of the text `s`: a tag, or the prefix character it consumed and then a tag. */
  predicate HitStart(s: string, out: string) {
    || TagStart(out)
    || (s != [] && out != [] && out[0] == s[0] && TagStart(out[1..]))
  }

  /**
   * Replacing the front of `s` by a tag-led `out`, behind output `pre`, keeps
   * the line uncounted: either `out` leads the line, or the first four
   * characters are those of `pre + s`, or a `<` falls among them.
   */
  lemma SpliceUntagged(pre: string, s: string, out: string, tail: string)
    requires Untagged(pre + s) && HitStart(s, out)
    ensures Untagged(pre + out + tail)
  {
    assert pre + out + tail == pre + (out + tail);
    DedentAppend(pre, out + tail);
    DedentAppend(pre, s);
    if Dedent(pre) == [] {
      LeadUntagged(out, tail);
    } else {
      BehindUntagged(Dedent(pre), s, out, tail);
    }
  }

  /** A replacement at the start of the line: its tag, perhaps after a space, leads the line. */
  lemma LeadUntagged(out: string, tail: string)
    requires TagStart(out) || (out != [] && TagStart(out[1..]))
    ensures Untagged(out + tail)
  {
    var line := out + tail;
    if TagStart(out) {
      assert Dedent(line) == line;
      ClassifyExtend(out, tail);
    } else {
      assert line[1..] == out[1..] + tail;
      if out[0] == ' ' {
        assert Dedent(line) == Dedent(out[1..] + tail) == out[1..] + tail;
        ClassifyExtend(out[1..], tail);
      } else {
        assert Dedent(line) == line;
        ClassifyInnerLt(line, 1);
      }
    }
  }

  /** A replacement behind text `d`: the first four characters are those of `d + s`, or hold a `<` after the first. */
  lemma BehindUntagged(d: string, s: string, out: string, tail: string)
    requires d != [] && Parser.Classify(d + s) == Parser.Text && HitStart(s, out)
    ensures Parser.Classify(d + (out + tail)) == Parser.Text
  {
    var line := d + (out + tail);
    if |d| >= 4 {
      ClassifyExtend(d, out + tail);
      ClassifyExtend(d, s);
    } else if TagStart(out) {
      ClassifyInnerLt(line, |d|);
    } else if |d| < 3 {
      assert line[|d| + 1] == out[1];
      ClassifyInnerLt(line, |d| + 1);
    } else {
      assert line == (d + [s[0]]) + (out[1..] + tail);
      assert d + s == (d + [s[0]]) + s[1..];
      ClassifyExtend(d + [s[0]], out[1..] + tail);
      ClassifyExtend(d + [s[0]], s[1..]);
    }
  }

  /** Every rule's replacement starts with an uncounted tag, or with the consumed prefix character and one. */
  lemma MatchRuleStart(rule: Rule, s: string, atStart: bool)
    requires MatchRule(rule, s, atStart).Some?
    ensures HitStart(s, MatchRule(rule, s, atStart).value.out)
  {
    match rule
    case Image => ImageStart(s);
    case Link => LinkStart(s);
    case BoldItalic => WrappedStart(s, "***", "<strong><em>", "</em></strong>");
    case Bold => WrappedStart(s, "**", "<strong>", "</strong>");
    case Underline => WrappedStart(s, "__", "<u>", "</u>");
    case ItalicStar => ItalicStart(s, '*', atStart);
    case ItalicUnderscore => ItalicStart(s, '_', atStart);
    case Strike => WrappedStart(s, "~~", "<del>", "</del>");
    case Colour => StyledStart(s, "@@", "color", "#f00");
    case Highlight => StyledStart(s, "%%", "background-color", "#FFA500");
  }

  /** An image becomes `<img ...>`. */
  lemma ImageStart(s: string)
    requires MatchImage(s).Some?
    ensures TagStart(MatchImage(s).value.out)
  {
    var out := MatchImage(s).value.out;
    assert out[0] == '<' && out[1] == 'i' && out[2] == 'm' && out[3] == 'g';
  }

  /** A link becomes `<a href=...>`. */
  lemma LinkStart(s: string)
    requires MatchLink(s).Some?
    ensures TagStart(MatchLink(s).value.out)
  {
    var out := MatchLink(s).value.out;
    assert out[0] == '<' && out[1] == 'a' && out[2] == ' ' && out[3] == 'h';
  }

  /** A delimited run becomes `open` + content + `close`, for an opening tag that is not counted. */
  lemma WrappedStart(s: string, delim: string, open: string, close: string)
    requires |delim| >= 1 && MatchWrapped(s, delim, open, close).Some?
    requires |open| >= 3 && open[0] == '<' && Parser.Classify(open + "x") == Parser.Text
    requires |open| >= 4 || (open[1] != 'd' && open[1] != '/' && open[2] != 'l')
    ensures TagStart(MatchWrapped(s, delim, open, close).value.out)
  {
    var out := MatchWrapped(s, delim, open, close).value.out;
    var n := MatchDelimited(s, delim).value;
    var rest := s[|delim|..|delim| + n] + close;
    assert out == open + rest && |rest| >= 1;
    if |open| >= 4 {
      ClassifyExtend(open, "x");
      ClassifyExtend(open, rest);
    } else {
      assert out[1] == open[1] && out[2] == open[2];
    }
  }

  /** A colour or highlight run becomes `<span style=...>`. */
  lemma StyledStart(s: string, delim: string, property: string, default: string)
    requires |delim| >= 1 && MatchStyled(s, delim, property, default).Some?
    ensures TagStart(MatchStyled(s, delim, property, default).value.out)
  {
    var out := MatchStyled(s, delim, property, default).value.out;
    assert out[0] == '<' && out[1] == 's' && out[2] == 'p' && out[3] == 'a';
  }

  /** An italic replacement: `<em>`, or the consumed prefix character and `<em>`. */
  lemma ItalicStart(s: string, d: char, atStart: bool)
    requires MatchItalic(s, d, atStart).Some?
    ensures HitStart(s, MatchItalic(s, d, atStart).value.out)
  {
    var out := MatchItalic(s, d, atStart).value.out;
    if atStart && s[0] == d {
      assert out[..4] == "<em>";
    } else {
      assert out[0] == s[0];
      assert out[1..][..4] == "<em>";
    }
  }

  /** A rule's scan keeps an uncounted line uncounted, whatever precedes it. */
  lemma {:induction false} RewriteUntagged(rule: Rule, pre: string, s: string, atStart: bool)
    requires Untagged(pre + s)
    ensures Untagged(pre + Rewrite(rule, s, atStart))
    decreases |s|, 1
  {
    if s == [] {
      assert Rewrite(rule, s, atStart) == s;
    } else if MatchRule(rule, s, atStart).Some? {
      HitUntagged(rule, pre, s, atStart, MatchRule(rule, s, atStart).value);
    } else {
      CopyUntagged(rule, pre, s, atStart);
    }
  }

  /** A match: its replacement, then the scan of the rest. */
  lemma {:induction false} HitUntagged(rule: Rule, pre: string, s: string, atStart: bool, h: Hit)
    requires Untagged(pre + s) && s != [] && MatchRule(rule, s, atStart) == Some(h)
    ensures Untagged(pre + Rewrite(rule, s, atStart))
    decreases |s|, 0
  {
    MatchRuleStart(rule, s, atStart);
    var rest := s[h.len..];
    SpliceUntagged(pre, s, h.out, rest);
    RewriteUntagged(rule, pre + h.out, rest, false);
    assert Rewrite(rule, s, atStart) == h.out + Rewrite(rule, rest, false);
    assert pre + (h.out + Rewrite(rule, rest, false)) == (pre + h.out) + Rewrite(rule, rest, false);
  }

  /** No match: the character, then the scan of the rest. */
  lemma {:induction false} CopyUntagged(rule: Rule, pre: string, s: string, atStart: bool)
    requires Untagged(pre + s) && s != [] && MatchRule(rule, s, atStart).None?
    ensures Untagged(pre + Rewrite(rule, s, atStart))
    decreases |s|, 0
  {
    UntaggedShift(pre, s);
    RewriteUntagged(rule, pre + [s[0]], s[1..], false);
    UntaggedUnshift(pre, s[0], Rewrite(rule, s[1..], false));
  }

  /** The first character of the text moves behind the output. */
  lemma UntaggedShift(pre: string, s: string)
    requires s != [] && Untagged(pre + s)
    ensures Untagged((pre + [s[0]]) + s[1..])
  {
    assert (pre + [s[0]]) + s[1..] == pre + s;
  }

  /** ... and back in front of the rest of the output. */
  lemma UntaggedUnshift(pre: string, c: char, r: string)
    requires Untagged((pre + [c]) + r)
    ensures Untagged(pre + ([c] + r))
  {
    assert (pre + [c]) + r == pre + ([c] + r);
  }

  /** One rule on a whole line. */
  lemma RuleUntagged(rule: Rule, s: string)
    requires Untagged(s)
    ensures Untagged(Rewrite(rule, s, true))
  {
    UntaggedNil(s);
    RewriteUntagged(rule, [], s, true);
    UntaggedNil(Rewrite(rule, s, true));
  }

  /** Nothing in front of a line changes nothing. */
  lemma UntaggedNil(s: string)
    ensures Untagged([] + s) == Untagged(s)
  {
    assert [] + s == s;
  }

  /** Restoring the code spans writes `<code>` tags only, so an uncounted line stays uncounted. */
  lemma {:induction false} RestoreUntagged(pre: string, s: string, spans: seq<string>)
    requires Untagged(pre + s) && RestoreCode(s, spans).Some?
    ensures Untagged(pre + RestoreCode(s, spans).value)
    decreases |s|
  {
    if s == [] {
      assert pre + RestoreCode(s, spans).value == pre + s;
    } else {
      match MatchPlaceholder(s)
      case Some(p) =>
        var i := CanonicalIndex(p.1).value;
        var out := "<code>" + EscapeHtml(spans[i]) + "</code>";
        var rest := s[p.0..];
        RestoreHit(s, spans);
        assert out[..4] == "<cod";
        SpliceUntagged(pre, s, out, rest);
        RestoreUntagged(pre + out, rest, spans);
        UntaggedRegroup(pre, out, RestoreCode(rest, spans).value);
      case None =>
        RestoreCopy(s, spans);
        UntaggedShift(pre, s);
        RestoreUntagged(pre + [s[0]], s[1..], spans);
        UntaggedUnshift(pre, s[0], RestoreCode(s[1..], spans).value);
    }
  }

  /** One placeholder restored: its span in `<code>`, then the rest. */
  lemma RestoreHit(s: string, spans: seq<string>)
    requires s != [] && MatchPlaceholder(s).Some? && RestoreCode(s, spans).Some?
    ensures var p := MatchPlaceholder(s).value;
      && CanonicalIndex(p.1).Some? && CanonicalIndex(p.1).value < |spans|
      && RestoreCode(s[p.0..], spans).Some?
      && RestoreCode(s, spans).value
         == "<code>" + EscapeHtml(spans[CanonicalIndex(p.1).value]) + "</code>" + RestoreCode(s[p.0..], spans).value
  {
  }

  /** No placeholder: the character, then the rest. */
  lemma RestoreCopy(s: string, spans: seq<string>)
    requires s != [] && MatchPlaceholder(s).None? && RestoreCode(s, spans).Some?
    ensures RestoreCode(s[1..], spans).Some?
      && RestoreCode(s, spans).value == [s[0]] + RestoreCode(s[1..], spans).value
  {
  }

  /** Output and replacement regrouped around the rest. */
  lemma UntaggedRegroup(pre: string, out: string, r: string)
    requires Untagged((pre + out) + r)
    ensures Untagged(pre + (out + r))
  {
    assert (pre + out) + r == pre + (out + r);
  }

  /** Extraction writes placeholders, which hold no `<`. */
  lemma {:induction false} ExtractNoLt(s: string, spans: seq<string>)
    requires '<' !in s
    ensures '<' !in ExtractCode(s, spans).0
    decreases |s|
  {
    if s != [] {
      match MatchDelimited(s, "`")
      case Some(n) =>
        ExtractNoLt(s[n + 2..], spans + [s[1..1 + n]]);
        var digits := NatToString(|spans|);
        assert '<' !in digits by {
          forall k | 0 <= k < |digits| ensures digits[k] != '<' { assert IsDigit(digits[k]); }
        }
      case None =>
        ExtractNoLt(s[1..], spans);
    }
  }

  /** `inlineMarkdown`'s result, where there is one, never opens or closes a section or a list. */
  lemma InlineUntagged(text: string)
    requires InlineMarkdown(text).Some?
    ensures Untagged(InlineMarkdown(text).value)
  {
    if text != [] {
      var escaped := EscapeHtml(text);
      EscapeHtmlNoRawMeta(text);
      var extracted := ExtractCode(escaped, []);
      ExtractNoLt(escaped, []);
      NoLtUntagged(extracted.0);
      var image := Rewrite(Image, extracted.0, true);
      RuleUntagged(Image, extracted.0);
      var link := Rewrite(Link, image, true);
      RuleUntagged(Link, image);
      var boldItalic := Rewrite(BoldItalic, link, true);
      RuleUntagged(BoldItalic, link);
      var bold := Rewrite(Bold, boldItalic, true);
      RuleUntagged(Bold, boldItalic);
      var underline := Rewrite(Underline, bold, true);
      RuleUntagged(Underline, bold);
      var italicStar := Rewrite(ItalicStar, underline, true);
      RuleUntagged(ItalicStar, underline);
      var italicUnderscore := Rewrite(ItalicUnderscore, italicStar, true);
      RuleUntagged(ItalicUnderscore, italicStar);
      var spanned := Rewrite(Strike, italicUnderscore, true);
      RuleUntagged(Strike, italicUnderscore);
      assert spanned == SpanRules(extracted.0);
      assert [] + spanned == spanned;
      RestoreUntagged([], spanned, extracted.1);
      var restored := RestoreCode(spanned, extracted.1).value;
      assert [] + restored == restored;
      RuleUntagged(Colour, restored);
      RuleUntagged(Highlight, Rewrite(Colour, restored, true));
    }
  }

  /**
   * `inlineMarkdown` as the parser calls it. Where the source throws, which
   * aborts the whole conversion, the line is empty here.
   */
  function InlineLine(s: string): string {
    match InlineMarkdown(s)
    case Some(r) => r
    case None => []
  }

  /** The inline transformer meets what the parser asks of it. */
  lemma InlineLineSafe()
    ensures Parser.SafeInline(InlineLine)
  {
    forall s ensures Parser.Classify(Dedent(InlineLine(s))) == Parser.Text {
      if InlineMarkdown(s).Some? {
        InlineUntagged(s);
      }
    }
  }

  /**
   * `markdownToPrettyHtml` with `inlineMarkdown` plugged in: counted from the
   * output lines themselves, every section and every list is closed as often
   * as it is opened.
   */
  method Convert(md: string) returns (html: string, out: seq<string>)
    ensures html == Join(out, "\n")
    ensures forall t :: Parser.CountIn(Parser.Classes(out), Parser.Open(t)) == Parser.CountIn(Parser.Classes(out), Parser.Close(t))
  {
    InlineLineSafe();
    html, out := Parser.MarkdownToPrettyHtml(md, InlineLine);
  }
}
