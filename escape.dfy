/**
 * `escapeHtml` (converter.js:4-10): five global replacements applied one after
 * the other, `&` first so that the ampersands of entities inserted later are
 * not escaped again.
 */
module Escape {
  import opened Strings

  /** `s.replace(/c/g, rep)` for a one-character pattern. */
  function ReplaceChar(s: string, c: char, rep: string): string {
    if s == [] then [] else (if s[0] == c then rep else [s[0]]) + ReplaceChar(s[1..], c, rep)
  }

  /** The chain of replacements, in the order the source applies them. */
  function EscapeHtml(s: string): string {
    var amp := ReplaceChar(s, '&', "&amp;");
    var lt := ReplaceChar(amp, '<', "&lt;");
    var gt := ReplaceChar(lt, '>', "&gt;");
    var quot := ReplaceChar(gt, '"', "&quot;");
    ReplaceChar(quot, '\'', "&#39;")
  }

  predicate IsMeta(c: char) { c == '&' || c == '<' || c == '>' || c == '"' || c == '\'' }

  /** Reference definition: the entity of one character (the character itself when it is not special). */
  function Entity(c: char): string {
    if c == '&' then "&amp;"
    else if c == '<' then "&lt;"
    else if c == '>' then "&gt;"
    else if c == '"' then "&quot;"
    else if c == '\'' then "&#39;"
    else [c]
  }

  /** Reference definition: every character replaced by its entity, in one pass. */
  function EscapeEach(s: string): string {
    if s == [] then [] else Entity(s[0]) + EscapeEach(s[1..])
  }

  /** The entities the escaper writes, as prefixes of `s`. */
  predicate BeginsEntity(s: string) {
    StartsWith(s, "&amp;") || StartsWith(s, "&lt;") || StartsWith(s, "&gt;")
    || StartsWith(s, "&quot;") || StartsWith(s, "&#39;")
  }

  /** Reference inverse: decodes the five entities and copies every other character. */
  function Unescape(s: string): string {
    if s == [] then []
    else if StartsWith(s, "&amp;") then "&" + Unescape(s[5..])
    else if StartsWith(s, "&lt;") then "<" + Unescape(s[4..])
    else if StartsWith(s, "&gt;") then ">" + Unescape(s[4..])
    else if StartsWith(s, "&quot;") then "\"" + Unescape(s[6..])
    else if StartsWith(s, "&#39;") then "'" + Unescape(s[5..])
    else [s[0]] + Unescape(s[1..])
  }

  lemma {:induction false} ReplaceCharAppend(a: string, b: string, c: char, rep: string)
    ensures ReplaceChar(a + b, c, rep) == ReplaceChar(a, c, rep) + ReplaceChar(b, c, rep)
  {
    if a != [] {
      assert (a + b)[1..] == a[1..] + b;
      ReplaceCharAppend(a[1..], b, c, rep);
    } else {
      assert a + b == b;
    }
  }

  lemma EscapeHtmlAppend(a: string, b: string)
    ensures EscapeHtml(a + b) == EscapeHtml(a) + EscapeHtml(b)
  {
    var amp := ReplaceChar(a, '&', "&amp;");
    var lt := ReplaceChar(amp, '<', "&lt;");
    var gt := ReplaceChar(lt, '>', "&gt;");
    var quot := ReplaceChar(gt, '"', "&quot;");
    var amp' := ReplaceChar(b, '&', "&amp;");
    var lt' := ReplaceChar(amp', '<', "&lt;");
    var gt' := ReplaceChar(lt', '>', "&gt;");
    var quot' := ReplaceChar(gt', '"', "&quot;");
    ReplaceCharAppend(a, b, '&', "&amp;");
    ReplaceCharAppend(amp, amp', '<', "&lt;");
    ReplaceCharAppend(lt, lt', '>', "&gt;");
    ReplaceCharAppend(gt, gt', '"', "&quot;");
    ReplaceCharAppend(quot, quot', '\'', "&#39;");
  }

  lemma ReplaceCharSingle(x: char, c: char, rep: string)
    ensures ReplaceChar([x], c, rep) == if x == c then rep else [x]
  {
    assert [x][1..] == [];
  }

  lemma {:induction false} ReplaceCharAbsent(s: string, c: char, rep: string)
    requires c !in s
    ensures ReplaceChar(s, c, rep) == s
  {
    if s != [] {
      ReplaceCharAbsent(s[1..], c, rep);
    }
  }

  /** The four later replacements leave a string alone that holds none of their characters. */
  lemma ChainAbsent(t: string)
    requires '<' !in t && '>' !in t && '"' !in t && '\'' !in t
    ensures ReplaceChar(ReplaceChar(ReplaceChar(ReplaceChar(t, '<', "&lt;"), '>', "&gt;"), '"', "&quot;"), '\'', "&#39;") == t
  {
    ReplaceCharAbsent(t, '<', "&lt;");
    ReplaceCharAbsent(t, '>', "&gt;");
    ReplaceCharAbsent(t, '"', "&quot;");
    ReplaceCharAbsent(t, '\'', "&#39;");
  }

  /** The chain sends one character to its entity: later replacements never touch an earlier entity. */
  lemma EscapeHtmlChar(x: char)
    ensures EscapeHtml([x]) == Entity(x)
  {
    if x == '&' { EscapeAmp(); }
    else if x == '<' { EscapeLt(); }
    else if x == '>' { EscapeGt(); }
    else if x == '"' { EscapeQuot(); }
    else if x == '\'' { EscapeApos(); }
    else { EscapeOther(x); }
  }

  lemma EscapeAmp()
    ensures EscapeHtml("&") == "&amp;"
  {
    ReplaceCharSingle('&', '&', "&amp;");
    ChainAbsent("&amp;");
  }

  lemma EscapeLt()
    ensures EscapeHtml("<") == "&lt;"
  {
    ReplaceCharSingle('<', '&', "&amp;");
    assert ReplaceChar("<", '&', "&amp;") == "<";
    ReplaceCharSingle('<', '<', "&lt;");
    assert ReplaceChar("<", '<', "&lt;") == "&lt;";
    LaterAbsent("&lt;");
  }

  /** The three replacements after `<` leave a string alone that holds none of their characters. */
  lemma LaterAbsent(t: string)
    requires '>' !in t && '"' !in t && '\'' !in t
    ensures ReplaceChar(ReplaceChar(ReplaceChar(t, '>', "&gt;"), '"', "&quot;"), '\'', "&#39;") == t
  {
    ReplaceCharAbsent(t, '>', "&gt;");
    ReplaceCharAbsent(t, '"', "&quot;");
    ReplaceCharAbsent(t, '\'', "&#39;");
  }

  lemma EscapeGt()
    ensures EscapeHtml(">") == "&gt;"
  {
    ReplaceCharSingle('>', '&', "&amp;");
    ReplaceCharSingle('>', '<', "&lt;");
    ReplaceCharSingle('>', '>', "&gt;");
    ReplaceCharAbsent("&gt;", '"', "&quot;");
    ReplaceCharAbsent("&gt;", '\'', "&#39;");
  }

  lemma EscapeQuot()
    ensures EscapeHtml("\"") == "&quot;"
  {
    ReplaceCharSingle('"', '&', "&amp;");
    ReplaceCharSingle('"', '<', "&lt;");
    ReplaceCharSingle('"', '>', "&gt;");
    ReplaceCharSingle('"', '"', "&quot;");
    ReplaceCharAbsent("&quot;", '\'', "&#39;");
  }

  lemma EscapeApos()
    ensures EscapeHtml("'") == "&#39;"
  {
    ReplaceCharSingle('\'', '&', "&amp;");
    ReplaceCharSingle('\'', '<', "&lt;");
    ReplaceCharSingle('\'', '>', "&gt;");
    ReplaceCharSingle('\'', '"', "&quot;");
    ReplaceCharSingle('\'', '\'', "&#39;");
  }

  lemma EscapeOther(x: char)
    requires !IsMeta(x)
    ensures EscapeHtml([x]) == [x]
  {
    ReplaceCharSingle(x, '&', "&amp;");
    ReplaceCharSingle(x, '<', "&lt;");
    ReplaceCharSingle(x, '>', "&gt;");
    ReplaceCharSingle(x, '"', "&quot;");
    ReplaceCharSingle(x, '\'', "&#39;");
  }

  /** The chain of five replacements equals the one-pass entity mapping. */
  lemma {:induction false} EscapeHtmlIsEscapeEach(s: string)
    ensures EscapeHtml(s) == EscapeEach(s)
  {
    if s != [] {
      assert s == [s[0]] + s[1..];
      EscapeHtmlAppend([s[0]], s[1..]);
      EscapeHtmlChar(s[0]);
      EscapeHtmlIsEscapeEach(s[1..]);
    } else {
      assert EscapeHtml(s) == [];
    }
  }

  lemma {:induction false} EscapeEachAppend(a: string, b: string)
    ensures EscapeEach(a + b) == EscapeEach(a) + EscapeEach(b)
  {
    if a != [] {
      assert (a + b)[1..] == a[1..] + b;
      EscapeEachAppend(a[1..], b);
    } else {
      assert a + b == b;
    }
  }

  /** The output holds no raw `<`, `>`, `"` or `'`. */
  lemma {:induction false} EscapeHtmlNoRawMeta(s: string)
    ensures forall k :: 0 <= k < |EscapeHtml(s)| ==>
      EscapeHtml(s)[k] != '<' && EscapeHtml(s)[k] != '>' && EscapeHtml(s)[k] != '"' && EscapeHtml(s)[k] != '\''
  {
    EscapeHtmlIsEscapeEach(s);
    EscapeEachNoRawMeta(s);
    var r := EscapeEach(s);
    forall k | 0 <= k < |r| ensures r[k] != '<' && r[k] != '>' && r[k] != '"' && r[k] != '\'' {
      assert r[k] in r;
    }
  }

  lemma {:induction false} EscapeEachNoRawMeta(s: string)
    ensures forall c :: c in EscapeEach(s) ==> c != '<' && c != '>' && c != '"' && c != '\''
  {
    if s != [] {
      EscapeEachNoRawMeta(s[1..]);
    }
  }

  /** Every `&` of the output begins one of the five entities. */
  lemma {:induction false} EscapeHtmlAmpersands(s: string)
    ensures forall k :: 0 <= k < |EscapeHtml(s)| && EscapeHtml(s)[k] == '&' ==> BeginsEntity(EscapeHtml(s)[k..])
  {
    EscapeHtmlIsEscapeEach(s);
    EscapeEachAmpersands(s);
  }

  lemma {:induction false} EscapeEachAmpersands(s: string)
    ensures forall k :: 0 <= k < |EscapeEach(s)| && EscapeEach(s)[k] == '&' ==> BeginsEntity(EscapeEach(s)[k..])
  {
    if s != [] {
      var e := Entity(s[0]);
      var rest := EscapeEach(s[1..]);
      var r := EscapeEach(s);
      assert r == e + rest;
      EscapeEachAmpersands(s[1..]);
      forall k | 0 <= k < |r| && r[k] == '&' ensures BeginsEntity(r[k..]) {
        if k < |e| {
          assert k == 0;
          assert r[..|e|] == e;
        } else {
          assert r[k..] == rest[k - |e|..];
        }
      }
    }
  }

  /** Text without any of the five characters is returned unchanged. */
  lemma {:induction false} EscapeHtmlPlain(s: string)
    requires forall k :: 0 <= k < |s| ==> !IsMeta(s[k])
    ensures EscapeHtml(s) == s
  {
    EscapeHtmlIsEscapeEach(s);
    EscapeEachPlain(s);
  }

  lemma {:induction false} EscapeEachPlain(s: string)
    requires forall k :: 0 <= k < |s| ==> !IsMeta(s[k])
    ensures EscapeEach(s) == s
  {
    if s != [] {
      EscapeEachPlain(s[1..]);
    }
  }

  /** Escaping loses nothing: decoding the five entities gives the original text back. */
  lemma {:induction false} UnescapeEscapeHtml(s: string)
    ensures Unescape(EscapeHtml(s)) == s
  {
    EscapeHtmlIsEscapeEach(s);
    UnescapeEscapeEach(s);
  }

  lemma {:induction false} UnescapeEscapeEach(s: string)
    ensures Unescape(EscapeEach(s)) == s
  {
    if s != [] {
      UnescapeEscapeEach(s[1..]);
      UnescapeEntity(s[0], EscapeEach(s[1..]));
      assert s == [s[0]] + s[1..];
    }
  }

  /** Decoding undoes the entity of one character, whatever follows it. */
  lemma UnescapeEntity(x: char, rest: string)
    ensures Unescape(Entity(x) + rest) == [x] + Unescape(rest)
  {
    if x == '&' { UnescapeAmp(rest); }
    else if x == '<' { UnescapeLt(rest); }
    else if x == '>' { UnescapeGt(rest); }
    else if x == '"' { UnescapeQuot(rest); }
    else if x == '\'' { UnescapeApos(rest); }
    else { UnescapeOther(x, rest); }
  }

  lemma UnescapeAmp(rest: string)
    ensures Unescape("&amp;" + rest) == "&" + Unescape(rest)
  {
    StartsWithConcat("&amp;", rest);
  }

  lemma UnescapeLt(rest: string)
    ensures Unescape("&lt;" + rest) == "<" + Unescape(rest)
  {
    var r := "&lt;" + rest;
    assert r[1] == 'l';
    NotStartsWithAt(r, "&amp;", 1);
    StartsWithConcat("&lt;", rest);
  }

  lemma UnescapeGt(rest: string)
    ensures Unescape("&gt;" + rest) == ">" + Unescape(rest)
  {
    var r := "&gt;" + rest;
    assert r[1] == 'g';
    NotStartsWithAt(r, "&amp;", 1);
    NotStartsWithAt(r, "&lt;", 1);
    StartsWithConcat("&gt;", rest);
  }

  lemma UnescapeQuot(rest: string)
    ensures Unescape("&quot;" + rest) == "\"" + Unescape(rest)
  {
    var r := "&quot;" + rest;
    assert r[1] == 'q';
    NotStartsWithAt(r, "&amp;", 1);
    NotStartsWithAt(r, "&lt;", 1);
    NotStartsWithAt(r, "&gt;", 1);
    StartsWithConcat("&quot;", rest);
  }

  lemma UnescapeApos(rest: string)
    ensures Unescape("&#39;" + rest) == "'" + Unescape(rest)
  {
    var r := "&#39;" + rest;
    assert r[1] == '#';
    NotStartsWithAt(r, "&amp;", 1);
    NotStartsWithAt(r, "&lt;", 1);
    NotStartsWithAt(r, "&gt;", 1);
    NotStartsWithAt(r, "&quot;", 1);
    StartsWithConcat("&#39;", rest);
  }

  lemma UnescapeOther(x: char, rest: string)
    requires !IsMeta(x)
    ensures Unescape([x] + rest) == [x] + Unescape(rest)
  {
    var r := [x] + rest;
    assert r[0] == x && r[1..] == rest;
    NotStartsWithAt(r, "&amp;", 0);
    NotStartsWithAt(r, "&lt;", 0);
    NotStartsWithAt(r, "&gt;", 0);
    NotStartsWithAt(r, "&quot;", 0);
    NotStartsWithAt(r, "&#39;", 0);
  }

  /** A character that is not special passes through the escaper as itself. */
  lemma {:induction false} EscapeEachKeeps(s: string, c: char)
    requires !IsMeta(c) && c !in "amplgtquo;#39"
    ensures c in EscapeEach(s) <==> c in s
  {
    if s != [] {
      EscapeEachKeeps(s[1..], c);
      assert EscapeEach(s) == Entity(s[0]) + EscapeEach(s[1..]);
    }
  }

  lemma EscapeHtmlKeeps(s: string, c: char)
    requires !IsMeta(c) && c !in "amplgtquo;#39"
    ensures c in EscapeHtml(s) <==> c in s
  {
    EscapeHtmlIsEscapeEach(s);
    EscapeEachKeeps(s, c);
  }

  /** Escaping twice is not escaping once: `<` becomes the text `&amp;lt;`. */
  lemma DoubleEscapeLt(lt: string, amp: string, tail: string)
    requires lt == "<" && amp == "&" && tail == "lt;"
    ensures EscapeHtml(EscapeHtml(lt)) == "&amp;" + tail
  {
    LtNamePlain(tail);
    EscapeLt();
    assert EscapeHtml(lt) == amp + tail;
    EscapeHtmlAppend(amp, tail);
    EscapeAmp();
  }

  /** The name of the `<` entity holds no special character, so the escaper keeps it. */
  lemma LtNamePlain(tail: string)
    requires tail == "lt;"
    ensures EscapeHtml(tail) == tail
  {
    forall k | 0 <= k < |tail| ensures !IsMeta(tail[k]) {
      if k == 0 { assert tail[k] == 'l'; }
      else if k == 1 { assert tail[k] == 't'; }
      else { assert tail[k] == ';'; }
    }
    EscapeHtmlPlain(tail);
  }
}
