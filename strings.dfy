/**
 * The JavaScript string built-ins the converter relies on, written out for
 * `seq<char>`: the `\s` character class (which is also the set `trim` removes),
 * `trim`/`trimStart`, `split` on one character, `join`, `repeat`, decimal
 * formatting of indices and levels, and the array-index reading of a digit
 * string.
 */
module Strings {
  import opened Wrappers

  /** ECMAScript WhiteSpace or LineTerminator: the class `\s` and what `trim` strips. */
  predicate IsSpace(c: char) {
    || c == '\t' || c == '\n' || c == '\U{B}' || c == '\U{C}' || c == '\r' || c == ' '
    || c == '\U{A0}' || c == '\U{1680}' || ('\U{2000}' <= c <= '\U{200A}')
    || c == '\U{2028}' || c == '\U{2029}' || c == '\U{202F}' || c == '\U{205F}'
    || c == '\U{3000}' || c == '\U{FEFF}'
  }

  /** The characters the regular-expression `.` does not match. */
  predicate IsLineTerminator(c: char) {
    c == '\n' || c == '\r' || c == '\U{2028}' || c == '\U{2029}'
  }

  predicate IsDigit(c: char) { '0' <= c <= '9' }

  predicate IsHexDigit(c: char) { IsDigit(c) || 'a' <= c <= 'f' || 'A' <= c <= 'F' }

  /** A character of `\w`; `\b` sits between a `\w` character and anything else. */
  predicate IsWordChar(c: char) { IsDigit(c) || 'a' <= c <= 'z' || 'A' <= c <= 'Z' || c == '_' }

  /** Case folding of a case-insensitive regular expression without the `u` flag: ASCII letters only. */
  function AsciiUpper(c: char): (u: char)
    ensures 'a' <= c <= 'z' ==> 'A' <= u <= 'Z'
    ensures !('a' <= c <= 'z') ==> u == c
  {
    if 'a' <= c <= 'z' then (c as int - 32) as char else c
  }

  predicate EqualsIgnoringCase(s: string, t: string) {
    |s| == |t| && forall k :: 0 <= k < |s| ==> AsciiUpper(s[k]) == AsciiUpper(t[k])
  }

  /** No character of `s` is a line terminator. */
  predicate NoLineTerminator(s: string) {
    '\n' !in s && '\r' !in s && '\U{2028}' !in s && '\U{2029}' !in s
  }

  predicate AllSpace(s: string) {
    forall k :: 0 <= k < |s| ==> IsSpace(s[k])
  }

  predicate StartsWith(s: string, prefix: string) {
    |prefix| <= |s| && s[..|prefix|] == prefix
  }

  lemma ConcatAssoc(a: string, b: string, c: string)
    ensures a + (b + c) == (a + b) + c
  {
  }

  /** A string is its prefix followed by the rest. */
  lemma SplitAt(s: string, k: nat)
    requires k <= |s|
    ensures s == s[..k] + s[k..]
  {
  }

  /** A concatenation starts with its first part, and what follows it is the second. */
  /** A prefix is a shorter prefix and the piece between. */
  lemma PrefixSplit(s: string, i: nat, j: nat)
    requires i <= j <= |s|
    ensures s[..j] == s[..i] + s[i..j]
  {
  }

  lemma StartsWithConcat(p: string, rest: string)
    ensures StartsWith(p + rest, p) && (p + rest)[|p|..] == rest
  {
    assert (p + rest)[..|p|] == p;
  }

  /** One differing character at position `k` rules a prefix out. */
  lemma NotStartsWithAt(s: string, p: string, k: nat)
    requires k < |p| && k < |s| && s[k] != p[k]
    ensures !StartsWith(s, p)
  {
    if |p| <= |s| {
      assert s[..|p|][k] != p[k];
    }
  }

  predicate EndsWith(s: string, suffix: string) {
    |suffix| <= |s| && s[|s| - |suffix|..] == suffix
  }

  /** `s.trimStart()`: the suffix left after every leading `\s` character is removed. */
  function TrimStart(s: string): (r: string)
    ensures |r| <= |s|
  {
    if s != [] && IsSpace(s[0]) then TrimStart(s[1..]) else s
  }

  /** `trimStart` removes a run of blanks from the front and leaves a suffix that starts with a non-blank. */
  lemma {:induction false} TrimStartShape(s: string)
    ensures EndsWith(s, TrimStart(s))
    ensures AllSpace(s[..|s| - |TrimStart(s)|])
    ensures TrimStart(s) == [] || !IsSpace(TrimStart(s)[0])
  {
    if s != [] && IsSpace(s[0]) {
      TrimStartShape(s[1..]);
      var r := TrimStart(s);
      assert r == TrimStart(s[1..]);
      assert s[|s| - |r|..] == s[1..][|s| - 1 - |r|..];
      forall k | 0 <= k < |s| - |r| ensures IsSpace(s[k]) {
        if k > 0 {
          assert s[k] == s[1..][..|s| - 1 - |r|][k - 1];
        }
      }
    } else {
      assert s[..0] == [];
    }
  }

  /** The trailing half of `s.trim()`: the prefix left after every trailing `\s` character is removed. */
  function TrimEnd(s: string): (r: string)
    ensures |r| <= |s|
  {
    if s != [] && IsSpace(s[|s| - 1]) then TrimEnd(s[..|s| - 1]) else s
  }

  /** The trailing half of `trim` removes a run of blanks from the end and leaves a prefix that ends with a non-blank. */
  lemma {:induction false} TrimEndShape(s: string)
    ensures TrimEnd(s) == s[..|TrimEnd(s)|]
    ensures AllSpace(s[|TrimEnd(s)|..])
    ensures TrimEnd(s) == [] || !IsSpace(TrimEnd(s)[|TrimEnd(s)| - 1])
  {
    if s != [] && IsSpace(s[|s| - 1]) {
      var p := s[..|s| - 1];
      TrimEndShape(p);
      var r := TrimEnd(s);
      assert r == TrimEnd(p);
      assert s[..|r|] == p[..|r|];
      forall k | |r| <= k < |s| ensures IsSpace(s[k]) {
        if k < |s| - 1 {
          assert s[k] == p[|r|..][k - |r|];
        }
      }
      assert AllSpace(s[|r|..]);
    } else {
      assert s[|s|..] == [];
    }
  }

  /** `s.trim()`. */
  function Trim(s: string): string {
    TrimEnd(TrimStart(s))
  }

  /** What `trim` keeps: the piece of `s` between its leading and its trailing whitespace runs. */
  lemma TrimShape(s: string)
    ensures var i := |s| - |TrimStart(s)|;
      && i + |Trim(s)| <= |s| && Trim(s) == s[i..i + |Trim(s)|]
      && AllSpace(s[..i]) && AllSpace(s[i + |Trim(s)|..])
    ensures Trim(s) == [] || (!IsSpace(Trim(s)[0]) && !IsSpace(Trim(s)[|Trim(s)| - 1]))
  {
    TrimPiece(s);
    TrimEdges(s);
  }

  lemma TrimPiece(s: string)
    ensures var i := |s| - |TrimStart(s)|;
      && i + |Trim(s)| <= |s| && Trim(s) == s[i..i + |Trim(s)|]
      && AllSpace(s[..i]) && AllSpace(s[i + |Trim(s)|..])
  {
    TrimMiddle(s);
    TrimBlanks(s);
  }

  lemma TrimMiddle(s: string)
    ensures var i := |s| - |TrimStart(s)|;
      i + |Trim(s)| <= |s| && Trim(s) == s[i..i + |Trim(s)|]
  {
    var t := TrimStart(s);
    var i := |s| - |t|;
    var e := TrimEnd(t);
    TrimStartShape(s);
    TrimEndShape(t);
    assert t == s[i..];
    assert e == t[..|e|];
  }

  lemma TrimBlanks(s: string)
    ensures var i := |s| - |TrimStart(s)|;
      AllSpace(s[..i]) && AllSpace(s[i + |Trim(s)|..])
  {
    var t := TrimStart(s);
    var i := |s| - |t|;
    var e := TrimEnd(t);
    TrimStartShape(s);
    assert AllSpace(s[..i]);
    TrimEndShape(t);
    assert t == s[i..];
    assert s[i + |e|..] == t[|e|..];
    assert AllSpace(s[i + |e|..]);
  }

  lemma TrimEdges(s: string)
    ensures Trim(s) == [] || (!IsSpace(Trim(s)[0]) && !IsSpace(Trim(s)[|Trim(s)| - 1]))
  {
    var t := TrimStart(s);
    var e := TrimEnd(t);
    TrimStartShape(s);
    TrimEndShape(t);
    if e != [] {
      assert e[0] == t[0];
    }
  }

  /** `trim` gives the empty string exactly for all-whitespace text. */
  lemma TrimEmpty(s: string)
    ensures Trim(s) == [] <==> AllSpace(s)
  {
    var t := TrimStart(s);
    var i := |s| - |t|;
    TrimStartShape(s);
    TrimEndShape(t);
    if Trim(s) == [] {
      assert AllSpace(t) by { assert t[0..] == t; }
      assert t == [];
      assert s[..i] == s;
    } else {
      TrimShape(s);
      assert s[i] == Trim(s)[0];
    }
  }

  /** Text without surrounding whitespace is its own trimmed form. */
  lemma {:induction false} TrimTrimmed(s: string)
    requires s == [] || (!IsSpace(s[0]) && !IsSpace(s[|s| - 1]))
    ensures Trim(s) == s
  {
  }

  /** Dropping a prefix leaves a suffix. */
  lemma EndsWithDrop(s: string, k: nat)
    requires k <= |s|
    ensures EndsWith(s, s[k..])
  {
  }

  /** A suffix of a suffix is a suffix. */
  lemma SuffixTrans(a: string, b: string, c: string)
    requires EndsWith(a, b) && EndsWith(b, c)
    ensures EndsWith(a, c)
  {
    forall k | 0 <= k < |c| ensures c[k] == a[|a| - |c| + k] {
      assert c[k] == b[|b| - |c| + k];
    }
  }

  /** A leading blank is always removed. */
  lemma TrimStartShorter(s: string)
    requires s != [] && IsSpace(s[0])
    ensures |TrimStart(s)| < |s|
  {
  }

  /** Whitespace in front of text that starts with a non-blank is what `trimStart` removes. */
  lemma {:induction false} TrimStartFrame(pre: string, x: string)
    requires AllSpace(pre)
    requires x == [] || !IsSpace(x[0])
    ensures TrimStart(pre + x) == x
  {
    if pre != [] {
      assert (pre + x)[0] == pre[0];
      assert (pre + x)[1..] == pre[1..] + x;
      TrimStartFrame(pre[1..], x);
    } else {
      assert pre + x == x;
    }
  }

  /** Whitespace after text that ends with a non-blank is what the trailing half of `trim` removes. */
  lemma {:induction false} TrimEndFrame(x: string, post: string)
    requires AllSpace(post)
    requires x == [] || !IsSpace(x[|x| - 1])
    ensures TrimEnd(x + post) == x
    decreases |post|
  {
    var s := x + post;
    if post != [] {
      assert s[|s| - 1] == post[|post| - 1];
      assert s[..|s| - 1] == x + post[..|post| - 1];
      TrimEndFrame(x, post[..|post| - 1]);
    } else {
      assert s == x;
      if x != [] {
        assert !IsSpace(s[|s| - 1]);
      }
    }
  }

  /** `trim` gives back exactly the text framed by two whitespace runs. */
  lemma TrimFrame(pre: string, m: string, post: string)
    requires AllSpace(pre) && AllSpace(post)
    requires m != [] && !IsSpace(m[0]) && !IsSpace(m[|m| - 1])
    ensures Trim(pre + m + post) == m
  {
    assert pre + m + post == pre + (m + post);
    TrimStartFrame(pre, m + post);
    TrimEndFrame(m, post);
  }

  /** For non-empty lists, joining a concatenation puts one separator at the seam. */
  lemma {:induction false} JoinAppend(a: seq<string>, b: seq<string>, sep: string)
    requires a != [] && b != []
    ensures Join(a + b, sep) == Join(a, sep) + sep + Join(b, sep)
  {
    if |a| == 1 {
      assert (a + b)[1..] == b;
    } else {
      assert (a + b)[1..] == a[1..] + b;
      JoinAppend(a[1..], b, sep);
    }
  }

  /** Number of leading copies of `c` in `s`. */
  function CountLeading(s: string, c: char): (n: nat)
    ensures n <= |s|
    ensures forall k :: 0 <= k < n ==> s[k] == c
    ensures n < |s| ==> s[n] != c
  {
    if s != [] && s[0] == c then 1 + CountLeading(s[1..], c) else 0
  }

  /** A run of `c` followed by another character: the leading run is exactly that run. */
  lemma {:induction false} CountLeadingPrefix(run: string, c: char, x: string)
    requires forall k :: 0 <= k < |run| ==> run[k] == c
    requires x == [] || x[0] != c
    ensures CountLeading(run + x, c) == |run|
  {
    if run != [] {
      assert (run + x)[1..] == run[1..] + x;
      CountLeadingPrefix(run[1..], c, x);
    } else {
      assert run + x == x;
    }
  }

  /** Number of leading decimal digits of `s`. */
  function CountDigits(s: string): (n: nat)
    ensures n <= |s|
    ensures forall k :: 0 <= k < n ==> IsDigit(s[k])
    ensures n < |s| ==> !IsDigit(s[n])
  {
    if s != [] && IsDigit(s[0]) then 1 + CountDigits(s[1..]) else 0
  }

  /** Digits followed by a non-digit: the leading run is exactly those digits. */
  lemma {:induction false} CountDigitsPrefix(d: string, x: string)
    requires forall k :: 0 <= k < |d| ==> IsDigit(d[k])
    requires x == [] || !IsDigit(x[0])
    ensures CountDigits(d + x) == |d|
  {
    if d != [] {
      assert (d + x)[1..] == d[1..] + x;
      CountDigitsPrefix(d[1..], x);
    } else {
      assert d + x == x;
    }
  }

  /** Position of the first `c` in `s`, or `|s|` when there is none. */
  function IndexOf(s: string, c: char): (i: nat)
    ensures i <= |s|
    ensures c !in s[..i]
    ensures i < |s| ==> s[i] == c
  {
    if s == [] then 0 else if s[0] == c then 0 else 1 + IndexOf(s[1..], c)
  }

  /** `s.split(sep)` for a one-character separator: always at least one piece. */
  function Split(s: string, sep: char): (parts: seq<string>)
    ensures |parts| >= 1
    ensures forall k :: 0 <= k < |parts| ==> sep !in parts[k]
    decreases |s|
  {
    var i := IndexOf(s, sep);
    if i == |s| then [s] else [s[..i]] + Split(s[i + 1..], sep)
  }

  /** `parts.join(sep)`. */
  function Join(parts: seq<string>, sep: string): string {
    if |parts| == 0 then ""
    else if |parts| == 1 then parts[0]
    else parts[0] + sep + Join(parts[1..], sep)
  }

  /** Joining the pieces of a split with the separator gives the string back. */
  lemma {:induction false} JoinSplit(s: string, sep: char)
    ensures Join(Split(s, sep), [sep]) == s
    decreases |s|
  {
    var i := IndexOf(s, sep);
    if i < |s| {
      var rest := Split(s[i + 1..], sep);
      var parts := [s[..i]] + rest;
      assert Split(s, sep) == parts;
      assert parts[1..] == rest;
      JoinSplit(s[i + 1..], sep);
      assert Join(parts, [sep]) == s[..i] + [sep] + s[i + 1..];
      assert s == s[..i] + [sep] + s[i + 1..];
    }
  }

  /** Splitting a join of separator-free pieces gives the pieces back. */
  lemma {:induction false} SplitJoin(parts: seq<string>, sep: char)
    requires |parts| >= 1
    requires forall k :: 0 <= k < |parts| ==> sep !in parts[k]
    ensures Split(Join(parts, [sep]), sep) == parts
  {
    if |parts| == 1 {
      IndexOfAbsent(parts[0], sep);
    } else {
      var s := Join(parts, [sep]);
      var rest := Join(parts[1..], [sep]);
      assert s == parts[0] + [sep] + rest;
      IndexOfAfter(parts[0], sep, rest);
      assert s[..|parts[0]|] == parts[0];
      assert s[|parts[0]| + 1..] == rest;
      SplitJoin(parts[1..], sep);
      assert Split(s, sep) == [parts[0]] + Split(rest, sep);
      assert parts == [parts[0]] + parts[1..];
    }
  }

  lemma IndexOfAbsent(s: string, c: char)
    requires c !in s
    ensures IndexOf(s, c) == |s|
  {
  }

  lemma {:induction false} IndexOfAfter(a: string, c: char, b: string)
    requires c !in a
    ensures IndexOf(a + [c] + b, c) == |a|
  {
    if a != [] {
      assert (a + [c] + b)[1..] == a[1..] + [c] + b;
      IndexOfAfter(a[1..], c, b);
    }
  }

  /** `' '.repeat(n)`. */
  function Spaces(n: nat): (r: string)
    ensures |r| == n && forall k :: 0 <= k < n ==> r[k] == ' '
  {
    seq(n, _ => ' ')
  }

  /** Strips the leading `' '` characters: undoes the indentation the converter adds. */
  function Dedent(s: string): (r: string)
    ensures r == [] || r[0] != ' '
  {
    if s != [] && s[0] == ' ' then Dedent(s[1..]) else s
  }

  /** What is left once the spaces are stripped is a suffix of the line. */
  lemma {:induction false} DedentSuffix(s: string)
    ensures |Dedent(s)| <= |s| && Dedent(s) == s[|s| - |Dedent(s)|..]
  {
    if s != [] && s[0] == ' ' {
      DedentSuffix(s[1..]);
    }
  }

  /** An indented line whose text does not start with a space gives back the text. */
  lemma {:induction false} DedentSpaces(n: nat, t: string)
    requires t == [] || t[0] != ' '
    ensures Dedent(Spaces(n) + t) == t
  {
    var s := Spaces(n) + t;
    if n > 0 {
      assert s[0] == ' ';
      var tail := Spaces(n - 1) + t;
      assert |s[1..]| == |tail|;
      forall k | 0 <= k < |tail| ensures s[1..][k] == tail[k] {
        if k < n - 1 { assert s[1..][k] == s[k + 1]; } else { assert s[1..][k] == t[k - (n - 1)]; }
      }
      assert s[1..] == tail;
      DedentSpaces(n - 1, t);
    } else {
      assert s == t;
    }
  }

  /** Padding with spaces changes nothing once the padding is stripped again. */
  lemma {:induction false} DedentPad(n: nat, t: string)
    ensures Dedent(Spaces(n) + t) == Dedent(t)
  {
    if n > 0 {
      var s := Spaces(n) + t;
      assert s[0] == ' ';
      assert s[1..] == Spaces(n - 1) + t;
      DedentPad(n - 1, t);
    } else {
      assert Spaces(n) + t == t;
    }
  }

  /** Stripping the spaces of `a + b` stops inside `a` unless `a` is all spaces. */
  lemma {:induction false} DedentAppend(a: string, b: string)
    ensures Dedent(a + b) == if Dedent(a) == [] then Dedent(b) else Dedent(a) + b
  {
    if a == [] {
      assert a + b == b;
    } else if a[0] == ' ' {
      assert (a + b)[0] == ' ' && (a + b)[1..] == a[1..] + b;
      DedentAppend(a[1..], b);
    } else {
      assert (a + b)[0] == a[0];
    }
  }

  function DigitChar(d: nat): (c: char)
    requires d < 10
    ensures IsDigit(c)
  {
    ('0' as int + d) as char
  }

  function DigitValue(c: char): (d: nat)
    requires IsDigit(c)
    ensures d < 10 && DigitChar(d) == c
  {
    c as int - '0' as int
  }

  /** Decimal form of `n`, as template literals print a number. */
  function NatToString(n: nat): (r: string)
    ensures |r| >= 1
    ensures forall k :: 0 <= k < |r| ==> IsDigit(r[k])
    ensures n >= 1 ==> r[0] != '0'
    ensures n == 0 ==> r == "0"
  {
    if n < 10 then [DigitChar(n)] else NatToString(n / 10) + [DigitChar(n % 10)]
  }

  /** Value of a digit string. */
  function DigitsValue(d: string): nat
    requires forall k :: 0 <= k < |d| ==> IsDigit(d[k])
  {
    if d == [] then 0 else 10 * DigitsValue(d[..|d| - 1]) + DigitValue(d[|d| - 1])
  }

  /**
   * Reading a digit string as an array index, as `codeSpans[idx]` does: only the
   * canonical decimal form of a number names an element (`"07"` names none).
   */
  function CanonicalIndex(d: string): (r: Option<nat>)
    ensures r.Some? ==> NatToString(r.value) == d
  {
    if |d| >= 1 && (forall k :: 0 <= k < |d| ==> IsDigit(d[k])) && (d == "0" || d[0] != '0')
    then CanonicalValue(d); Some(DigitsValue(d))
    else None
  }

  lemma {:induction false} CanonicalValue(d: string)
    requires |d| >= 1 && forall k :: 0 <= k < |d| ==> IsDigit(d[k])
    requires d == "0" || d[0] != '0'
    ensures NatToString(DigitsValue(d)) == d
  {
    var v := DigitsValue(d);
    var last := DigitValue(d[|d| - 1]);
    if |d| == 1 {
      assert d[..0] == [];
      assert DigitsValue(d[..0]) == 0;
      assert v == 10 * DigitsValue(d[..0]) + last;
    } else {
      var init := d[..|d| - 1];
      assert init[0] == d[0];
      CanonicalValue(init);
      PositiveValue(init);
      assert v / 10 == DigitsValue(init) && v % 10 == last;
      assert d == init + [d[|d| - 1]];
    }
  }

  lemma {:induction false} PositiveValue(d: string)
    requires |d| >= 1 && forall k :: 0 <= k < |d| ==> IsDigit(d[k])
    requires d[0] != '0'
    ensures DigitsValue(d) >= 1
  {
    if |d| > 1 {
      assert d[..|d| - 1][0] == d[0];
      PositiveValue(d[..|d| - 1]);
    } else {
      assert d[0] == d[|d| - 1];
    }
  }

  /** The index a placeholder carries is read back as the same number. */
  lemma {:induction false} CanonicalIndexRoundTrip(n: nat)
    ensures CanonicalIndex(NatToString(n)) == Some(n)
  {
    var d := NatToString(n);
    DigitsOfNat(n);
    assert DigitsValue(d) == n;
  }

  lemma {:induction false} DigitsOfNat(n: nat)
    ensures DigitsValue(NatToString(n)) == n
  {
    if n >= 10 {
      DigitsOfNat(n / 10);
      var d := NatToString(n);
      assert d[..|d| - 1] == NatToString(n / 10);
    }
  }

  /** `md.replace(/\r\n?/g, '\n')`: every CR LF pair and every lone CR becomes one LF. */
  function NormalizeNewlines(s: string): (r: string)
    ensures '\r' !in r
    ensures |r| <= |s|
  {
    if s == [] then []
    else if s[0] == '\r' then "\n" + NormalizeNewlines(if |s| > 1 && s[1] == '\n' then s[2..] else s[1..])
    else [s[0]] + NormalizeNewlines(s[1..])
  }

  /** Text that has no carriage return is left as it is. */
  lemma {:induction false} NormalizeWithoutCr(s: string)
    requires '\r' !in s
    ensures NormalizeNewlines(s) == s
  {
    if s != [] {
      NormalizeWithoutCr(s[1..]);
    }
  }

  /** Up to the first line break, text without CR is kept, and each kind of break becomes one LF. */
  lemma NormalizeStep(a: string, eol: string, b: string)
    requires '\r' !in a
    requires eol == "\n" || eol == "\r\n" || eol == "\r"
    requires eol == "\r" ==> b == [] || b[0] != '\n'
    ensures NormalizeNewlines(a + eol + b) == a + "\n" + NormalizeNewlines(b)
  {
    var x := eol + b;
    var n := NormalizeNewlines(b);
    ConcatAssoc(a, eol, b);
    NormalizePrefix(a, x);
    NormalizeBreak(eol, b);
    ConcatAssoc(a, "\n", n);
  }

  /** Text without CR in front of the rest is kept as it is. */
  lemma {:induction false} NormalizePrefix(a: string, t: string)
    requires '\r' !in a
    ensures NormalizeNewlines(a + t) == a + NormalizeNewlines(t)
    decreases |a|
  {
    if a == [] {
      assert a + t == t;
    } else {
      assert a + t == [a[0]] + (a[1..] + t);
      NormalizeCons(a[0], a[1..] + t);
      NormalizePrefix(a[1..], t);
      assert [a[0]] + (a[1..] + NormalizeNewlines(t)) == a + NormalizeNewlines(t);
    }
  }

  /** A line break at the start becomes one LF. */
  lemma NormalizeBreak(eol: string, b: string)
    requires eol == "\n" || eol == "\r\n" || eol == "\r"
    requires eol == "\r" ==> b == [] || b[0] != '\n'
    ensures NormalizeNewlines(eol + b) == "\n" + NormalizeNewlines(b)
  {
    var s := eol + b;
    if eol == "\n" {
      NormalizeCons('\n', b);
    } else if eol == "\r\n" {
      assert s[0] == '\r' && s[1] == '\n' && s[2..] == b;
    } else {
      assert s[0] == '\r' && s[1..] == b;
    }
  }

  /** A character other than CR is kept. */
  lemma NormalizeCons(c: char, t: string)
    requires c != '\r'
    ensures NormalizeNewlines([c] + t) == [c] + NormalizeNewlines(t)
  {
    assert ([c] + t)[1..] == t;
  }

  /** Lines joined by CR LF normalise to the same lines joined by LF. */
  lemma {:induction false} NormalizeJoin(ls: seq<string>)
    requires forall k :: 0 <= k < |ls| ==> '\r' !in ls[k]
    ensures NormalizeNewlines(Join(ls, "\r\n")) == Join(ls, "\n")
  {
    if |ls| == 1 {
      NormalizeWithoutCr(ls[0]);
    } else if |ls| > 1 {
      NormalizeStep(ls[0], "\r\n", Join(ls[1..], "\r\n"));
      NormalizeJoin(ls[1..]);
    }
  }

  /** The document's lines: normalised line breaks, then `split('\n')`. */
  function Lines(md: string): (lines: seq<string>)
    ensures |lines| >= 1
    ensures forall k :: 0 <= k < |lines| ==> '\n' !in lines[k] && '\r' !in lines[k]
  {
    var n := NormalizeNewlines(md);
    var parts := Split(n, '\n');
    forall k | 0 <= k < |parts| ensures '\r' !in parts[k] {
      SplitPiecesFrom(n, '\n', k);
    }
    parts
  }

  /** The lines joined by LF are the normalised document: nothing is lost or reordered. */
  lemma LinesJoin(md: string)
    ensures Join(Lines(md), "\n") == NormalizeNewlines(md)
  {
    JoinSplit(NormalizeNewlines(md), '\n');
  }

  /** A document written as lines separated by CR LF is read back as exactly those lines. */
  lemma LinesOfJoin(ls: seq<string>)
    requires |ls| >= 1
    requires forall k :: 0 <= k < |ls| ==> '\n' !in ls[k] && '\r' !in ls[k]
    ensures Lines(Join(ls, "\r\n")) == ls
  {
    NormalizeJoin(ls);
    SplitJoin(ls, '\n');
  }

  /** Every piece of a split is made of characters of the original string. */
  lemma {:induction false} SplitPiecesFrom(s: string, sep: char, k: nat)
    requires k < |Split(s, sep)|
    ensures forall c :: c in Split(s, sep)[k] ==> c in s
    decreases |s|
  {
    var i := IndexOf(s, sep);
    if i < |s| && k > 0 {
      SplitPiecesFrom(s[i + 1..], sep, k - 1);
    }
  }
}
