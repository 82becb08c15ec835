/**
 * The code-span placeholders on their way through the span rules
 * (converter.js:19-43). The image, link, emphasis and strikethrough rules cut
 * the text only at their delimiters, which never occur inside a placeholder,
 * so they move placeholders whole and never split, invent or drop one: every
 * code span is given back exactly once, and restoration never fails on text
 * without NUL characters.
 */
module CodeTokens {
  import opened Wrappers
  import opened Strings
  import opened Escape
  import opened Inline
  import opened InlineFacts

  /** A character a placeholder is made of. */
  predicate TokenChar(c: char) {
    c == '\0' || c == 'C' || c == 'O' || c == 'D' || c == 'E' || IsDigit(c)
  }

  /**
   * The code-span indices the placeholders of `s` name, left to right; `None`
   * when a NUL starts no placeholder with a canonical index.
   */
  function Tokens(s: string): Option<seq<nat>>
    decreases |s|
  {
    if s == [] then Some([])
    else if s[0] != '\0' then Tokens(s[1..])
    else match MatchPlaceholder(s)
      case None => None
      case Some(p) =>
        if Canonical(p.1) then
          match Tokens(s[p.0..])
          case Some(t) => Some([DigitsValue(p.1)] + t)
          case None => None
        else None
  }

  /** A digit string without a leading zero, unless it is `0` itself. */
  predicate Canonical(d: string) {
    |d| >= 1 && (|d| == 1 || d[0] != '0')
  }

  /** On the digits of a placeholder, the restore step reads the index `Tokens` records. */
  lemma TokenIndex(d: string)
    requires forall k :: 0 <= k < |d| ==> IsDigit(d[k])
    ensures CanonicalIndex(d) == if Canonical(d) then Some(DigitsValue(d)) else None
  {
    if |d| == 1 && d[0] == '0' {
      assert d == "0";
    }
  }

  /** The indices `lo`, `lo + 1`, ..., `hi - 1`. */
  function Range(lo: nat, hi: nat): (r: seq<nat>)
    requires lo <= hi
    ensures |r| == hi - lo && forall k :: 0 <= k < |r| ==> r[k] == lo + k
  {
    seq(hi - lo, k requires 0 <= k < hi - lo => lo + k)
  }

  /** The first index, then the others. */
  lemma RangeCons(lo: nat, hi: nat)
    requires lo < hi
    ensures [lo] + Range(lo + 1, hi) == Range(lo, hi)
  {
  }

  /** Index lists regroup freely. */
  lemma ConsAssoc(i: nat, a: seq<nat>, b: seq<nat>)
    ensures [i] + (a + b) == [i] + a + b
  {
  }

  /** The empty index list is neutral. */
  lemma NoIndices(a: seq<nat>)
    ensures [] + a == a && a + [] == a
  {
  }

  /** Text without NUL holds no placeholder. */
  lemma {:induction false} TokensPlain(x: string)
    requires '\0' !in x
    ensures Tokens(x) == Some([])
    decreases |x|
  {
    if x != [] {
      assert '\0' !in x[1..];
      TokensPlain(x[1..]);
    }
  }

  /** A character other than NUL adds no placeholder. */
  lemma TokensChar(c: char, x: string)
    requires c != '\0'
    ensures Tokens([c] + x) == Tokens(x)
  {
    assert ([c] + x)[1..] == x;
  }

  /** Every character of a placeholder is a token character. */
  lemma TokenInside(s: string)
    requires MatchPlaceholder(s).Some?
    ensures forall k :: 0 <= k < MatchPlaceholder(s).value.0 ==> TokenChar(s[k])
  {
    var p := MatchPlaceholder(s).value;
    forall k | 0 <= k < p.0 ensures TokenChar(s[k]) {
      if k < 5 {
        assert s[k] == s[..5][k];
      } else if k < p.0 - 1 {
        assert s[k] == p.1[k - 5];
      }
    }
  }

  /** None of the rules' trigger characters is a token character. */
  lemma TriggerNotToken(rule: Rule)
    ensures !TokenChar(Trigger(rule))
  {
  }

  /** The placeholder pattern reads only the token itself. */
  lemma MatchPlaceholderPrefix(s: string, t: string)
    requires MatchPlaceholder(s).Some?
    requires MatchPlaceholder(s).value.0 <= |t| && t[..MatchPlaceholder(s).value.0] == s[..MatchPlaceholder(s).value.0]
    ensures MatchPlaceholder(t) == MatchPlaceholder(s)
  {
    var p := MatchPlaceholder(s).value;
    var d := p.0 - 6;
    assert t[..5] == t[..p.0][..5] == s[..p.0][..5] == s[..5];
    assert t[5..5 + d] == s[5..5 + d] by {
      assert t[5..5 + d] == t[..p.0][5..5 + d];
      assert s[5..5 + d] == s[..p.0][5..5 + d];
    }
    assert t[5 + d] == t[..p.0][5 + d] == s[..p.0][5 + d] == '\0';
    var u := t[5..];
    assert u == t[5..5 + d] + t[5 + d..];
    CountDigitsPrefix(t[5..5 + d], t[5 + d..]);
  }

  /** Placeholders of a prefix that holds only whole placeholders come first. */
  lemma {:induction false} TokensConcat(a: string, b: string)
    requires Tokens(a).Some?
    ensures Tokens(b).Some? ==> Tokens(a + b) == Some(Tokens(a).value + Tokens(b).value)
    ensures Tokens(b).None? ==> Tokens(a + b).None?
    decreases |a|
  {
    if a == [] {
      assert a + b == b;
      if Tokens(b).Some? { NoIndices(Tokens(b).value); }
    } else if a[0] != '\0' {
      assert (a + b)[0] == a[0];
      assert (a + b)[1..] == a[1..] + b;
      TokensConcat(a[1..], b);
    } else {
      var p := MatchPlaceholder(a).value;
      var i := DigitsValue(p.1);
      assert (a + b)[..p.0] == a[..p.0];
      MatchPlaceholderPrefix(a, a + b);
      assert (a + b)[p.0..] == a[p.0..] + b;
      TokensConcat(a[p.0..], b);
      if Tokens(b).Some? {
        ConsAssoc(i, Tokens(a[p.0..]).value, Tokens(b).value);
      }
    }
  }

  /** What a cut at `j` leaves: whole placeholders on both sides, in order. */
  predicate CutKeeps(s: string, j: nat)
    requires Tokens(s).Some? && j <= |s|
  {
    Tokens(s[..j]).Some? && Tokens(s[j..]).Some? && Tokens(s).value == Tokens(s[..j]).value + Tokens(s[j..]).value
  }

  /** Cutting in front of a character that is not a token character keeps placeholders whole. */
  lemma {:induction false} TokensCut(s: string, j: nat)
    requires Tokens(s).Some? && j < |s| && !TokenChar(s[j])
    ensures CutKeeps(s, j)
    decreases |s|
  {
    if j == 0 {
      assert s[..j] == [] && s[j..] == s;
      NoIndices(Tokens(s).value);
    } else if s[0] != '\0' {
      TokensCut(s[1..], j - 1);
      CutAfterChar(s, j);
    } else {
      var p := MatchPlaceholder(s).value;
      TokenInside(s);
      assert j >= p.0;
      assert s[p.0..][j - p.0] == s[j];
      TokensCut(s[p.0..], j - p.0);
      CutAfterToken(s, j);
    }
  }

  /** A cut behind a character other than NUL, from the cut one character further on. */
  lemma CutAfterChar(s: string, j: nat)
    requires Tokens(s).Some? && 0 < j <= |s| && s[0] != '\0'
    requires Tokens(s[1..]).Some? && CutKeeps(s[1..], j - 1)
    ensures CutKeeps(s, j)
  {
    assert Tokens(s[..j]) == Tokens(s[1..][..j - 1]) by {
      assert s[..j] == [s[0]] + s[1..][..j - 1];
      TokensChar(s[0], s[1..][..j - 1]);
    }
    assert s[j..] == s[1..][j - 1..];
  }

  /** A cut behind a leading placeholder, from the cut in the text after it. */
  lemma CutAfterToken(s: string, j: nat)
    requires Tokens(s).Some? && s != [] && s[0] == '\0'
    requires MatchPlaceholder(s).value.0 <= j <= |s|
    requires Tokens(s[MatchPlaceholder(s).value.0..]).Some?
    requires CutKeeps(s[MatchPlaceholder(s).value.0..], j - MatchPlaceholder(s).value.0)
    ensures CutKeeps(s, j)
  {
    var p := MatchPlaceholder(s).value;
    var r := s[p.0..];
    var k := j - p.0;
    var a, b := Tokens(r[..k]).value, Tokens(r[k..]).value;
    var i := DigitsValue(p.1);
    assert Tokens(s).value == [i] + Tokens(r).value && Tokens(s[..j]) == Some([i] + a) by {
      assert s[..j] == s[..p.0] + r[..k] by {
        PrefixSplit(s, p.0, j);
        assert r[..k] == s[p.0..j];
      }
      TokenThen(s, r[..k]);
    }
    assert Tokens(s[j..]) == Some(b) by {
      assert s[j..] == r[k..];
    }
    ConsAssoc(i, a, b);
  }

  /** Cutting after a character that is not a token character keeps placeholders whole. */
  lemma TokensCutAfter(s: string, j: nat)
    requires Tokens(s).Some? && 0 < j <= |s| && !TokenChar(s[j - 1])
    ensures Tokens(s[..j]).Some? && Tokens(s[j..]).Some?
    ensures Tokens(s).value == Tokens(s[..j]).value + Tokens(s[j..]).value
  {
    TokensCut(s, j - 1);
    var c := s[j - 1];
    assert Tokens(s[j - 1..]) == Tokens(s[j..]) by {
      assert s[j - 1..] == [c] + s[j..];
      TokensChar(c, s[j..]);
    }
    assert Tokens(s[..j]) == Tokens(s[..j - 1]) by {
      assert s[..j] == s[..j - 1] + [c];
      TokensPlain([c]);
      TokensConcat(s[..j - 1], [c]);
      NoIndices(Tokens(s[..j - 1]).value);
    }
  }

  /** A piece between two characters that are not token characters holds whole placeholders only. */
  lemma TokensSlice(s: string, i: nat, j: nat)
    requires Tokens(s).Some? && 0 < i <= j < |s|
    requires !TokenChar(s[i - 1]) && !TokenChar(s[j])
    ensures Tokens(s[i..j]).Some?
  {
    TokensCutAfter(s, i);
    var r := s[i..];
    assert r[j - i] == s[j];
    TokensCut(r, j - i);
    assert r[..j - i] == s[i..j];
  }

  /** Text without NUL around one piece. */
  lemma TokensWrap(a: string, x: string, b: string)
    requires '\0' !in a && '\0' !in b && Tokens(x).Some?
    ensures Tokens(a + x + b) == Tokens(x)
  {
    TokensPlain(a);
    TokensPlain(b);
    TokensConcat(a, x);
    NoIndices(Tokens(x).value);
    TokensConcat(a + x, b);
  }

  /** Text without NUL around and between two pieces. */
  lemma TokensWrap2(a: string, x: string, b: string, y: string, c: string)
    requires '\0' !in a && '\0' !in b && '\0' !in c
    requires Tokens(x).Some? && Tokens(y).Some?
    ensures Tokens(a + x + b + y + c) == Some(Tokens(x).value + Tokens(y).value)
  {
    TokensWrap(a, x, b);
    TokensPlain(c);
    TokensConcat(a + x + b, y);
    TokensConcat(a + x + b + y, c);
    NoIndices(Tokens(x).value + Tokens(y).value);
  }

  /**
   * A match that keeps one piece of the text between non-token delimiters,
   * `s[i..j]`, and replaces the rest of `s[..len]` by text without NUL: the
   * replacement holds the same placeholders as what it replaces.
   */
  lemma HitWrap(s: string, i: nat, j: nat, len: nat, out: string, open: string, close: string)
    requires Tokens(s).Some? && 0 < i <= j < len <= |s|
    requires !TokenChar(s[i - 1]) && !TokenChar(s[j]) && !TokenChar(s[len - 1])
    requires '\0' !in s[..i] && '\0' !in s[j..len]
    requires out == open + s[i..j] + close && '\0' !in open && '\0' !in close
    ensures HitKept(s, Hit(len, out))
  {
    TokensSlice(s, i, j);
    TokensWrap(open, s[i..j], close);
    TokensCutAfter(s, len);
    PrefixSplit(s, j, len);
    PrefixSplit(s, i, j);
    TokensWrap(s[..i], s[i..j], s[j..len]);
  }

  /** A match that keeps two pieces, `s[i1..j1]` and `s[i2..j2]`, and puts them back in swapped order. */
  lemma HitSwap(s: string, i1: nat, j1: nat, i2: nat, j2: nat, len: nat, out: string, a: string, b: string, c: string)
    requires Tokens(s).Some? && 0 < i1 <= j1 < i2 <= j2 < len <= |s|
    requires !TokenChar(s[i1 - 1]) && !TokenChar(s[j1]) && !TokenChar(s[i2 - 1]) && !TokenChar(s[j2])
    requires !TokenChar(s[len - 1])
    requires '\0' !in s[..i1] && '\0' !in s[j1..i2] && '\0' !in s[j2..len]
    requires out == a + s[i2..j2] + b + s[i1..j1] + c && '\0' !in a && '\0' !in b && '\0' !in c
    ensures HitKept(s, Hit(len, out))
  {
    TokensSlice(s, i1, j1);
    TokensSlice(s, i2, j2);
    TokensWrap2(a, s[i2..j2], b, s[i1..j1], c);
    TokensCutAfter(s, len);
    PrefixSplit(s, j2, len);
    PrefixSplit(s, i2, j2);
    PrefixSplit(s, j1, i2);
    PrefixSplit(s, i1, j1);
    TokensWrap2(s[..i1], s[i1..j1], s[j1..i2], s[i2..j2], s[j2..len]);
  }

  /** No NUL in a piece of the text that equals a literal without NUL. */
  lemma NoNulIn(x: string, lit: string)
    requires x == lit && '\0' !in lit
    ensures '\0' !in x
  {
  }

  /** A delimited run (`***`, `**`, `__`, `~~`) keeps its content's placeholders. */
  lemma WrappedHit(s: string, delim: string, n: nat, open: string, close: string)
    requires |delim| >= 1 && '\0' !in open && '\0' !in close
    requires !TokenChar(delim[0]) && !TokenChar(delim[|delim| - 1]) && '\0' !in delim
    requires Tokens(s).Some? && DelimitedAt(s, delim, n)
    ensures HitKept(s, Hit(2 * |delim| + n, open + s[|delim|..|delim| + n] + close))
  {
    var m := |delim|;
    assert s[m - 1] == s[..m][m - 1];
    assert s[m + n] == s[m + n..2 * m + n][0];
    assert s[2 * m + n - 1] == s[m + n..2 * m + n][m - 1];
    HitWrap(s, m, m + n, 2 * m + n, open + s[m..m + n] + close, open, close);
  }

  /** An emphasis at the start of the scan keeps the placeholders of its content. */
  lemma EmHitStart(s: string, d: char, n: nat)
    requires !TokenChar(d) && Tokens(s).Some? && EmAt(s, d, n)
    ensures HitKept(s, Hit(n + 2, "<em>" + s[1..1 + n] + "</em>"))
  {
    assert '\0' !in s[..1] by { assert s[..1] == [d]; }
    assert '\0' !in s[1 + n..n + 2] by { assert s[1 + n..n + 2] == [d]; }
    HitWrap(s, 1, 1 + n, n + 2, "<em>" + s[1..1 + n] + "</em>", "<em>", "</em>");
  }

  /** An emphasis after one consumed character other than NUL keeps the placeholders of its content. */
  lemma EmHitAfter(s: string, d: char, n: nat)
    requires !TokenChar(d) && Tokens(s).Some? && s != [] && s[0] != '\0' && EmAt(s[1..], d, n)
    ensures HitKept(s, Hit(n + 3, [s[0]] + "<em>" + s[2..2 + n] + "</em>"))
  {
    var t := s[1..];
    assert t[0] == s[1] && t[1 + n] == s[2 + n] && t[1..1 + n] == s[2..2 + n];
    assert '\0' !in s[..2] by { assert s[..2] == [s[0], d]; }
    assert '\0' !in s[2 + n..n + 3] by { assert s[2 + n..n + 3] == [d]; }
    HitWrap(s, 2, 2 + n, n + 3, [s[0]] + "<em>" + s[2..2 + n] + "</em>", [s[0]] + "<em>", "</em>");
  }

  /** An italic match keeps its content's placeholders; its prefix character is not NUL. */
  lemma ItalicKeeps(s: string, d: char, atStart: bool, h: Hit)
    requires !TokenChar(d) && s != [] && s[0] != '\0'
    requires Tokens(s).Some? && MatchItalic(s, d, atStart) == Some(h)
    ensures HitKept(s, h)
  {
    if atStart && s[0] == d {
      var n := EmSpan(s, d).value;
      MatchItalicComplete(s, d, atStart, n);
      EmHitStart(s, d, n);
    } else {
      var n := EmSpan(s[1..], d).value;
      MatchItalicComplete(s, d, atStart, n);
      EmHitAfter(s, d, n);
    }
  }

  /** An image at the start of `s` keeps its placeholders, URL first and alt text second. */
  lemma ImageHit(s: string, a: nat, u: nat)
    requires Tokens(s).Some? && ImageAt(s, a, u)
    ensures HitKept(s, Hit(a + u + 5, "<img src=\"" + s[4 + a..4 + a + u] + "\" alt=\"" + s[2..2 + a] + "\">"))
  {
    assert '\0' !in s[..2] by { assert s[..2] == [s[0], s[1]]; }
    assert '\0' !in s[2 + a..4 + a] by { assert s[2 + a..4 + a] == [s[2 + a], s[3 + a]]; }
    assert '\0' !in s[4 + a + u..a + u + 5] by { assert s[4 + a + u..a + u + 5] == [s[4 + a + u]]; }
    var out := "<img src=\"" + s[4 + a..4 + a + u] + "\" alt=\"" + s[2..2 + a] + "\">";
    HitSwap(s, 2, 2 + a, 4 + a, 4 + a + u, a + u + 5, out, "<img src=\"", "\" alt=\"", "\">");
  }

  /** The image the matcher found, as a hit. */
  lemma MatchImageAt(s: string, a: nat, u: nat)
    requires ImageSpan(s) == Some((a, u))
    ensures MatchImage(s) == Some(Hit(a + u + 5, "<img src=\"" + s[4 + a..4 + a + u] + "\" alt=\"" + s[2..2 + a] + "\">"))
  {
  }

  /** An image match keeps its placeholders. */
  lemma ImageKeeps(s: string, h: Hit)
    requires Tokens(s).Some? && MatchImage(s) == Some(h)
    ensures HitKept(s, h)
  {
    var span := ImageSpan(s).value;
    var a, u := span.0, span.1;
    assert ImageAt(s, a, u) && h == Hit(a + u + 5, "<img src=\"" + s[4 + a..4 + a + u] + "\" alt=\"" + s[2..2 + a] + "\">") by {
      MatchImageAt(s, a, u);
    }
    ImageHit(s, a, u);
  }

  /** A link at the start of `s` keeps its placeholders, URL first and link text second. */
  lemma LinkHit(s: string, a: nat, u: nat)
    requires Tokens(s).Some? && LinkAt(s, a, u)
    ensures HitKept(s, Hit(a + u + 4, "<a href=\"" + s[3 + a..3 + a + u] + "\">" + s[1..1 + a] + "</a>"))
  {
    assert '\0' !in s[..1] by { assert s[..1] == [s[0]]; }
    assert '\0' !in s[1 + a..3 + a] by { assert s[1 + a..3 + a] == [s[1 + a], s[2 + a]]; }
    assert '\0' !in s[3 + a + u..a + u + 4] by { assert s[3 + a + u..a + u + 4] == [s[3 + a + u]]; }
    var out := "<a href=\"" + s[3 + a..3 + a + u] + "\">" + s[1..1 + a] + "</a>";
    HitSwap(s, 1, 1 + a, 3 + a, 3 + a + u, a + u + 4, out, "<a href=\"", "\">", "</a>");
  }

  /** The link the matcher found, as a hit. */
  lemma MatchLinkAt(s: string, a: nat, u: nat)
    requires LinkSpan(s) == Some((a, u))
    ensures MatchLink(s) == Some(Hit(a + u + 4, "<a href=\"" + s[3 + a..3 + a + u] + "\">" + s[1..1 + a] + "</a>"))
  {
  }

  /** A link match keeps its placeholders. */
  lemma LinkKeeps(s: string, h: Hit)
    requires Tokens(s).Some? && MatchLink(s) == Some(h)
    ensures HitKept(s, h)
  {
    var span := LinkSpan(s).value;
    var a, u := span.0, span.1;
    assert LinkAt(s, a, u) && h == Hit(a + u + 4, "<a href=\"" + s[3 + a..3 + a + u] + "\">" + s[1..1 + a] + "</a>") by {
      MatchLinkAt(s, a, u);
    }
    LinkHit(s, a, u);
  }

  /** The eight rules that run while the code spans are out of the text. */
  predicate SpanRule(rule: Rule) {
    !rule.Colour? && !rule.Highlight?
  }

  /** A hit at the start of `s` replaces its text by text with the same placeholders, and leaves a tail whose placeholders are whole. */
  predicate HitKept(s: string, h: Hit)
    requires Tokens(s).Some? && h.len <= |s|
  {
    && Tokens(h.out).Some? && Tokens(s[h.len..]).Some?
    && multiset(Tokens(s).value) == multiset(Tokens(h.out).value) + multiset(Tokens(s[h.len..]).value)
  }

  /** A `***` match keeps the placeholders of its content. */
  lemma BoldItalicKeeps(s: string, atStart: bool, h: Hit)
    requires Tokens(s).Some? && MatchRule(BoldItalic, s, atStart) == Some(h)
    ensures HitKept(s, h)
  {
    WrappedHit(s, "***", MatchDelimited(s, "***").value, "<strong><em>", "</em></strong>");
  }

  /** A `**` match keeps the placeholders of its content. */
  lemma BoldKeeps(s: string, atStart: bool, h: Hit)
    requires Tokens(s).Some? && MatchRule(Bold, s, atStart) == Some(h)
    ensures HitKept(s, h)
  {
    WrappedHit(s, "**", MatchDelimited(s, "**").value, "<strong>", "</strong>");
  }

  /** A `__` match keeps the placeholders of its content. */
  lemma UnderlineKeeps(s: string, atStart: bool, h: Hit)
    requires Tokens(s).Some? && MatchRule(Underline, s, atStart) == Some(h)
    ensures HitKept(s, h)
  {
    WrappedHit(s, "__", MatchDelimited(s, "__").value, "<u>", "</u>");
  }

  /** A `~~` match keeps the placeholders of its content. */
  lemma StrikeKeeps(s: string, atStart: bool, h: Hit)
    requires Tokens(s).Some? && MatchRule(Strike, s, atStart) == Some(h)
    ensures HitKept(s, h)
  {
    WrappedHit(s, "~~", MatchDelimited(s, "~~").value, "<del>", "</del>");
  }

  /** Any match of a span rule at a character other than NUL keeps the placeholders it covers. */
  lemma HitKeeps(rule: Rule, s: string, atStart: bool, h: Hit)
    requires SpanRule(rule) && s != [] && s[0] != '\0'
    requires Tokens(s).Some? && MatchRule(rule, s, atStart) == Some(h)
    ensures HitKept(s, h)
  {
    if rule.Image? {
      ImageKeeps(s, h);
    } else if rule.Link? {
      LinkKeeps(s, h);
    } else if rule.ItalicStar? || rule.ItalicUnderscore? {
      assert MatchRule(rule, s, atStart) == MatchItalic(s, Trigger(rule), atStart);
      ItalicKeeps(s, Trigger(rule), atStart, h);
    } else if rule.BoldItalic? {
      BoldItalicKeeps(s, atStart, h);
    } else if rule.Bold? {
      BoldKeeps(s, atStart, h);
    } else if rule.Underline? {
      UnderlineKeeps(s, atStart, h);
    } else {
      StrikeKeeps(s, atStart, h);
    }
  }

  /**
   * An italic rule copies a prefix without its delimiter and resumes after it
   * as if at the start: the prefix's last character is not the delimiter, so
   * it satisfies `[^d]` wherever `^` would.
   */
  lemma {:induction false} ItalicSkip(rule: Rule, x: string, rest: string, atStart: bool)
    requires rule.ItalicStar? || rule.ItalicUnderscore?
    requires x != [] && Trigger(rule) !in x
    ensures Rewrite(rule, x + rest, atStart) == x + Rewrite(rule, rest, true)
    decreases |x|
  {
    var d := Trigger(rule);
    var s := x + rest;
    assert s[0] == x[0];
    if |x| == 1 {
      assert s == [x[0]] + rest && s[1..] == rest;
      ItalicAfter(rule, x[0], rest);
    } else {
      assert s[1] == x[1] && s[1..] == x[1..] + rest;
      assert MatchRule(rule, s, atStart) == None;
      ItalicSkip(rule, x[1..], rest, false);
      assert x == [x[0]] + x[1..];
      ConcatAssoc([x[0]], x[1..], Rewrite(rule, rest, true));
    }
  }

  /** One character other than the delimiter, then the rest scanned as from the start. */
  lemma ItalicAfter(rule: Rule, c: char, rest: string)
    requires rule.ItalicStar? || rule.ItalicUnderscore?
    requires c != Trigger(rule)
    ensures Rewrite(rule, [c] + rest, false) == [c] + Rewrite(rule, rest, true)
  {
    var d := Trigger(rule);
    var s := [c] + rest;
    assert s[0] == c && s[1..] == rest;
    if rest != [] {
      match EmSpan(rest, d)
      case Some(n) =>
        var em := "<em>" + rest[1..1 + n] + "</em>";
        assert MatchRule(rule, s, false) == Some(Hit(n + 3, [c] + em)) by {
          MatchItalicComplete(s, d, false, n);
          assert s[2..2 + n] == rest[1..1 + n];
          assert [c] + "<em>" + rest[1..1 + n] + "</em>" == [c] + em;
        }
        assert MatchRule(rule, rest, true) == Some(Hit(n + 2, em)) by {
          MatchItalicComplete(rest, d, true, n);
        }
        assert s[n + 3..] == rest[n + 2..];
        ConcatAssoc([c], em, Rewrite(rule, rest[n + 2..], false));
      case None =>
        assert MatchRule(rule, s, false) == None;
        assert MatchRule(rule, rest, true) == MatchRule(rule, rest, false);
    }
  }

  /** Where a rule's scan resumes after a copied placeholder: the italic rules act as at the start. */
  function Resume(rule: Rule, atStart: bool): bool {
    if rule.ItalicStar? || rule.ItalicUnderscore? then true else atStart
  }

  /** A span rule copies a placeholder at the front of the text unchanged. */
  lemma TokenSkipped(rule: Rule, s: string, atStart: bool)
    requires SpanRule(rule) && Tokens(s).Some? && s != [] && s[0] == '\0'
    ensures MatchPlaceholder(s).Some?
    ensures var p := MatchPlaceholder(s).value;
      Rewrite(rule, s, atStart) == s[..p.0] + Rewrite(rule, s[p.0..], Resume(rule, atStart))
  {
    var p := MatchPlaceholder(s).value;
    var x := s[..p.0];
    var rest := s[p.0..];
    TokenInside(s);
    TriggerNotToken(rule);
    assert Trigger(rule) !in x by {
      forall k | 0 <= k < |x| ensures x[k] != Trigger(rule) { assert x[k] == s[k]; }
    }
    assert s == x + rest;
    if rule.ItalicStar? || rule.ItalicUnderscore? {
      ItalicSkip(rule, x, rest, atStart);
    } else {
      RewriteInertPrefix(rule, x, rest, atStart);
    }
  }

  /** A placeholder at the front of the text names the first index, whatever follows it. */
  lemma TokenThen(s: string, y: string)
    requires Tokens(s).Some? && s != [] && s[0] == '\0' && Tokens(y).Some?
    ensures MatchPlaceholder(s).Some? && Canonical(MatchPlaceholder(s).value.1)
    ensures var p := MatchPlaceholder(s).value;
      var i := DigitsValue(p.1);
      && Tokens(s).value == [i] + Tokens(s[p.0..]).value
      && Tokens(s[..p.0] + y) == Some([i] + Tokens(y).value)
  {
    var p := MatchPlaceholder(s).value;
    var t := s[..p.0] + y;
    assert t[..p.0] == s[..p.0];
    MatchPlaceholderPrefix(s, t);
    assert t[0] == '\0' && t[p.0..] == y;
  }

  /**
   * Each span rule keeps the placeholders of any text whose NULs all start
   * placeholders: the same indices, each as often, perhaps in another order.
   */
  lemma {:induction false} RewriteKeeps(rule: Rule, s: string, atStart: bool)
    requires SpanRule(rule) && Tokens(s).Some?
    ensures Tokens(Rewrite(rule, s, atStart)).Some?
    ensures multiset(Tokens(Rewrite(rule, s, atStart)).value) == multiset(Tokens(s).value)
    decreases |s|
  {
    if s == [] {
    } else if s[0] == '\0' {
      TokenSkipped(rule, s, atStart);
      var p := MatchPlaceholder(s).value;
      var resume := Resume(rule, atStart);
      RewriteKeeps(rule, s[p.0..], resume);
      TokenThen(s, Rewrite(rule, s[p.0..], resume));
    } else {
      match MatchRule(rule, s, atStart)
      case None =>
        RewriteKeeps(rule, s[1..], false);
        TokensChar(s[0], Rewrite(rule, s[1..], false));
      case Some(h) =>
        HitKeeps(rule, s, atStart, h);
        RewriteKeeps(rule, s[h.len..], false);
        TokensConcat(h.out, Rewrite(rule, s[h.len..], false));
    }
  }

  /** The span rules together keep every placeholder. */
  lemma SpanRulesKeeps(s: string)
    requires Tokens(s).Some?
    ensures Tokens(SpanRules(s)).Some?
    ensures multiset(Tokens(SpanRules(s)).value) == multiset(Tokens(s).value)
  {
    var image := Rewrite(Image, s, true);
    RewriteKeeps(Image, s, true);
    var link := Rewrite(Link, image, true);
    RewriteKeeps(Link, image, true);
    var boldItalic := Rewrite(BoldItalic, link, true);
    RewriteKeeps(BoldItalic, link, true);
    var bold := Rewrite(Bold, boldItalic, true);
    RewriteKeeps(Bold, boldItalic, true);
    var underline := Rewrite(Underline, bold, true);
    RewriteKeeps(Underline, bold, true);
    var italicStar := Rewrite(ItalicStar, underline, true);
    RewriteKeeps(ItalicStar, underline, true);
    var italicUnderscore := Rewrite(ItalicUnderscore, italicStar, true);
    RewriteKeeps(ItalicUnderscore, italicStar, true);
    RewriteKeeps(Strike, italicUnderscore, true);
  }

  /** A placeholder written by extraction reads back as its index. */
  lemma TokensToken(i: nat, rest: string)
    ensures Tokens(Placeholder(i) + rest) == match Tokens(rest) case Some(t) => Some([i] + t) case None => None
  {
    MatchPlaceholderAt(i, rest);
    CanonicalIndexRoundTrip(i);
    TokenIndex(NatToString(i));
    var s := Placeholder(i) + rest;
    assert s[0] == '\0';
    assert s[|Placeholder(i)|..] == rest;
  }

  /** Extraction from text without NUL leaves one placeholder per new span, numbered in order. */
  lemma {:induction false} ExtractTokens(s: string, spans: seq<string>)
    requires '\0' !in s
    ensures Tokens(ExtractCode(s, spans).0) == Some(Range(|spans|, |ExtractCode(s, spans).1|))
    decreases |s|
  {
    if s != [] {
      match MatchDelimited(s, "`")
      case Some(n) =>
        var spans' := spans + [s[1..1 + n]];
        var rest := ExtractCode(s[n + 2..], spans');
        assert ExtractCode(s, spans) == (Placeholder(|spans|) + rest.0, rest.1);
        assert '\0' !in s[n + 2..];
        ExtractTokens(s[n + 2..], spans');
        TokensToken(|spans|, rest.0);
        RangeCons(|spans|, |rest.1|);
      case None =>
        var rest := ExtractCode(s[1..], spans);
        assert ExtractCode(s, spans) == ([s[0]] + rest.0, rest.1);
        assert '\0' !in s[1..];
        ExtractTokens(s[1..], spans);
        TokensChar(s[0], rest.0);
    }
  }

  /** Restoration succeeds when every placeholder names a span of the table. */
  lemma {:induction false} RestoreTotal(s: string, spans: seq<string>)
    requires Tokens(s).Some? && forall k :: 0 <= k < |Tokens(s).value| ==> Tokens(s).value[k] < |spans|
    ensures RestoreCode(s, spans).Some?
    decreases |s|
  {
    if s == [] {
    } else if s[0] != '\0' {
      assert s == [s[0]] + s[1..];
      RestoreTotal(s[1..], spans);
      RestoreCodeChar(s[0], s[1..], spans);
    } else {
      var p := MatchPlaceholder(s).value;
      var i := DigitsValue(p.1);
      var t := Tokens(s[p.0..]).value;
      assert Tokens(s).value == [i] + t;
      assert i < |spans| by { assert Tokens(s).value[0] == i; }
      TokenIndex(p.1);
      assert forall k :: 0 <= k < |t| ==> t[k] == Tokens(s).value[k + 1];
      RestoreTotal(s[p.0..], spans);
    }
  }

  /** Every element of a permutation of `0 .. m - 1` is below `m`. */
  lemma RangeBound(t: seq<nat>, m: nat)
    requires multiset(t) == multiset(Range(0, m))
    ensures forall k :: 0 <= k < |t| ==> t[k] < m
  {
    forall k | 0 <= k < |t| ensures t[k] < m {
      assert t[k] in multiset(t);
      assert t[k] in Range(0, m);
    }
  }

  /**
   * Whatever the text around them, each code span's placeholder is still in
   * the text exactly once when the span rules are done, so restoration
   * (`RestoreCodeToken`) gives every span back exactly once.
   */
  lemma CodeSpansSurvive(text: string)
    requires '\0' !in text
    ensures var extracted := ExtractCode(EscapeHtml(text), []);
      && Tokens(SpanRules(extracted.0)).Some?
      && multiset(Tokens(SpanRules(extracted.0)).value) == multiset(Range(0, |extracted.1|))
  {
    var e := EscapeHtml(text);
    EscapeHtmlKeeps(text, '\0');
    var extracted := ExtractCode(e, []);
    ExtractTokens(e, []);
    SpanRulesKeeps(extracted.0);
  }

  /** `inlineMarkdown` never throws on text without NUL characters. */
  lemma InlineTotal(text: string)
    requires '\0' !in text
    ensures InlineMarkdown(text).Some?
  {
    if text != [] {
      var extracted := ExtractCode(EscapeHtml(text), []);
      CodeSpansSurvive(text);
      var t := Tokens(SpanRules(extracted.0)).value;
      RangeBound(t, |extracted.1|);
      RestoreTotal(SpanRules(extracted.0), extracted.1);
    }
  }
}
