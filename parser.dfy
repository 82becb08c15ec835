/**
 * The block parser `markdownToPrettyHtml` (converter.js:73-248) as an object
 * whose fields are the function's local state: the output lines, the heading
 * stack, the list stack, the three buffers and the flags. Each closure of the
 * source (`push`, `flushParagraph`, `flushTable`) and each branch of its main
 * loop is a method that appends exactly the lines `Render` describes.
 *
 * The inline transformer is a parameter: a total function from a line's text
 * to its HTML (see README for how it relates to `InlineMarkdown`).
 */
module Parser {
  import opened Wrappers
  import opened Strings
  import opened Escape
  import opened Blocks
  import opened Stacks
  import opened Render

  /** An element the parser opens on one line and closes on a later one. */
  datatype Tag = Details | List(kind: ListKind)

  /** What an output line does to the nesting of elements. */
  datatype Mark = Open(tag: Tag) | Close(tag: Tag) | Text

  /** How many of the marks are `m`. */
  function CountIn(ms: seq<Mark>, m: Mark): nat {
    if ms == [] then 0 else CountIn(ms[..|ms| - 1], m) + (if ms[|ms| - 1] == m then 1 else 0)
  }

  lemma CountInPush(ms: seq<Mark>, e: Mark, m: Mark)
    ensures CountIn(ms + [e], m) == CountIn(ms, m) + (if e == m then 1 else 0)
  {
    assert (ms + [e])[..|ms|] == ms;
  }

  /**
   * What a line, without its indentation, does to the nesting, read from its
   * first four characters: `<det` opens a section and `</de` closes one,
   * `<ul>` and `<ol>` open a list, `</ul` and `</ol` close one, and any other
   * line is text.
   */
  function Classify(line: string): Mark {
    if |line| < 4 || line[0] != '<' then Text
    else
      var a, b, c := line[1], line[2], line[3];
      if a == 'd' && b == 'e' && c == 't' then Open(Details)
      else if a == '/' && b == 'd' && c == 'e' then Close(Details)
      else if a == 'u' && b == 'l' && c == '>' then Open(List(Ul))
      else if a == 'o' && b == 'l' && c == '>' then Open(List(Ol))
      else if a == '/' && b == 'u' && c == 'l' then Close(List(Ul))
      else if a == '/' && b == 'o' && c == 'l' then Close(List(Ol))
      else Text
  }

  /** The tag lines the parser writes are classified as what they open or close. */
  lemma ClassifyTags(level: nat, kind: ListKind)
    ensures Classify(Dedent(DetailsOpen(level))) == Open(Details)
    ensures Classify(Dedent(DetailsClose)) == Close(Details)
    ensures Classify(Dedent(ListOpen(kind))) == Open(List(kind))
    ensures Classify(Dedent(ListClose(kind))) == Close(List(kind))
  {
    var d := DetailsOpen(level);
    assert d[..|DetailsPrefix|] == DetailsPrefix;
    assert d[1] == DetailsPrefix[1] && d[2] == DetailsPrefix[2] && d[3] == DetailsPrefix[3];
    match kind
    case Ul =>
    case Ol =>
  }

  /** A line whose first four characters are those of a line that opens or closes nothing. */
  lemma HeadText(head: string, line: string)
    requires |head| >= 4 && |line| >= 4 && head[0] == '<' && Classify(head) == Text
    requires line[0] == head[0] && line[1] == head[1] && line[2] == head[2] && line[3] == head[3]
    ensures Classify(Dedent(line)) == Text
  {
  }

  /** Text without `<`, such as escaped code, opens or closes nothing. */
  lemma EscapedText(x: string)
    requires forall k :: 0 <= k < |x| ==> x[k] != '<'
    ensures Classify(Dedent(x)) == Text
  {
    var r := Dedent(x);
    DedentSuffix(x);
    if r != [] {
      assert r[0] == x[|x| - |r|];
    }
  }

  /**
   * What the parser asks of the inline transformer: its output, stripped of
   * leading spaces, never starts like one of the tag lines the parser counts.
   */
  ghost predicate SafeInline(inline: string -> string) {
    forall s :: Classify(Dedent(inline(s))) == Text
  }

  /** A `<br>` after text that opens or closes nothing still opens or closes nothing. */
  lemma BrText(y: string)
    requires Classify(Dedent(y)) == Text
    ensures Classify(Dedent(y + "<br>")) == Text
  {
    DedentAppend(y, "<br>");
    var r := Dedent(y);
    if r != [] {
      var t := r + "<br>";
      if |r| < 4 {
        assert t[|r|] == '<';
      } else {
        assert t[..4] == r[..4];
        assert t[0] == r[0] && t[1] == r[1] && t[2] == r[2] && t[3] == r[3];
      }
    }
  }

  /** Every line of `ls` opens or closes nothing. */
  predicate AllText(ls: seq<string>) {
    forall k :: 0 <= k < |ls| ==> Classify(Dedent(ls[k])) == Text
  }

  lemma AllTextConcat(a: seq<string>, b: seq<string>)
    requires AllText(a) && AllText(b)
    ensures AllText(a + b)
  {
    forall k | 0 <= k < |a + b| ensures Classify(Dedent((a + b)[k])) == Text {
      if k >= |a| { assert (a + b)[k] == b[k - |a|]; }
    }
  }

  /** The heading line of a section. */
  lemma SummaryText(level: nat, html: string)
    ensures Classify(Dedent(Summary(level, html))) == Text
  {
    var head := "<summary><h";
    var tail := NatToString(level) + ">" + html + "</h" + NatToString(level) + "></summary>";
    assert Summary(level, html) == head + tail;
    HeadText(head, head + tail);
  }

  /** A list item line. */
  lemma ListLineText(html: string)
    ensures Classify(Dedent(ListLine(html))) == Text
  {
    HeadText("<li>", ListLine(html));
  }

  /** The line a blockquote is flushed to. */
  lemma BlockquoteText(buf: seq<string>)
    ensures Classify(Dedent(BlockquoteLine(buf))) == Text
  {
    HeadText("<blockquote>", BlockquoteLine(buf));
  }

  /** The line that opens a code block. */
  lemma FenceOpenText(lang: string)
    ensures Classify(Dedent(FenceOpen(lang))) == Text
  {
    HeadText("<pre>", FenceOpen(lang));
  }

  /** The lines of a flushed paragraph. */
  lemma ParagraphLinesText(buf: seq<string>, inline: string -> string)
    requires SafeInline(inline)
    ensures AllText(ParagraphLines(buf, inline))
  {
    if buf != [] {
      var body := BrLines(Rendered(buf, inline));
      assert AllText(body) by {
        forall k | 0 <= k < |body| ensures Classify(Dedent(body[k])) == Text {
          var y := inline(buf[k]);
          if k < |buf| - 1 {
            BrText(y);
          }
        }
      }
      AllTextConcat(["<p>"], body);
      AllTextConcat(["<p>"] + body, ["</p>"]);
    }
  }

  /** A header row of a table. */
  lemma HeaderRowText(line: string, inline: string -> string)
    ensures Classify(Dedent(HeaderRow(line, inline))) == Text
  {
    HeadText("<thead>", HeaderRow(line, inline));
  }

  /** The body rows of a table. */
  lemma BodyRowsText(ls: seq<string>, inline: string -> string)
    ensures AllText(BodyRows(ls, inline))
  {
    var rows := BodyRows(ls, inline);
    forall k | 0 <= k < |rows| ensures Classify(Dedent(rows[k])) == Text {
      HeadText("<tr>", BodyRow(ls[k], inline));
    }
  }

  /** The lines of a flushed table. */
  lemma TableText(buf: seq<string>, inline: string -> string)
    ensures AllText(TableLines(buf, inline))
  {
    if buf != [] {
      var head := ["<table>", HeaderRow(buf[0], inline)];
      assert AllText(head) by {
        HeaderRowText(buf[0], inline);
      }
      var tbody := TableBody(buf, inline);
      assert AllText(tbody) by {
        if |buf| >= 3 {
          var rows := BodyRows(buf[2..], inline);
          BodyRowsText(buf[2..], inline);
          AllTextConcat(["<tbody>"], rows);
          AllTextConcat(["<tbody>"] + rows, ["</tbody>"]);
        }
      }
      AllTextConcat(head, tbody);
      AllTextConcat(head + tbody, ["</table>"]);
    }
  }

  /** The line that opens an alert. */
  lemma AlertOpenText(kind: AlertKind)
    ensures Classify(Dedent(AlertOpenHead + AlertType(kind) + AlertOpenTail)) == Text
  {
    HeadText(AlertOpenHead, AlertOpenHead + AlertType(kind) + AlertOpenTail);
  }

  /** The title line of an alert, whatever its icon and title. */
  lemma AlertTitleText(icon: string, title: string)
    ensures Classify(Dedent(AlertTitleHead + icon + title + "</p>")) == Text
  {
    var head := AlertTitleHead;
    var line := head + icon + title + "</p>";
    assert line[0] == head[0] && line[1] == head[1] && line[2] == head[2] && line[3] == head[3];
    HeadText(head, line);
  }

  /** The body line of an alert. */
  lemma AlertBodyText(body: seq<string>, inline: string -> string)
    ensures Classify(Dedent(AlertBody(body, inline))) == Text
  {
    HeadText(AutoParagraph, AlertBody(body, inline));
  }

  /** Four lines that open or close nothing. */
  lemma FourText(a: string, b: string, c: string, d: string)
    requires Classify(Dedent(a)) == Text && Classify(Dedent(b)) == Text
    requires Classify(Dedent(c)) == Text && Classify(Dedent(d)) == Text
    ensures AllText([a, b, c, d])
  {
  }

  /** The four lines of an alert. */
  lemma AlertText(kind: AlertKind, body: seq<string>, inline: string -> string)
    ensures AllText(AlertLines(kind, body, inline))
  {
    var l0 := AlertOpenHead + AlertType(kind) + AlertOpenTail;
    var l1 := AlertTitleHead + AlertIcon(kind) + AlertTitle(kind) + "</p>";
    var l2 := AlertBody(body, inline);
    var l3 := "</div>";
    AlertOpenText(kind);
    AlertTitleText(AlertIcon(kind), AlertTitle(kind));
    AlertBodyText(body, inline);
    assert Classify(Dedent(l3)) == Text;
    FourText(l0, l1, l2, l3);
  }

  /** The class of each output line. */
  function Classes(out: seq<string>): (r: seq<Mark>)
    ensures |r| == |out|
  {
    seq(|out|, k requires 0 <= k < |out| => Classify(Dedent(out[k])))
  }

  /** Each output line has its mark, and the mark is the line's class. */
  predicate TaggedLines(ms: seq<Mark>, out: seq<string>) {
    |ms| == |out| && forall k {:trigger Dedent(out[k])} :: 0 <= k < |out| ==> Classify(Dedent(out[k])) == ms[k]
  }

  /** The marks are the classes of the output lines. */
  lemma TaggedClasses(ms: seq<Mark>, out: seq<string>)
    requires TaggedLines(ms, out)
    ensures ms == Classes(out)
  {
  }

  /** Pushing a line adds its class, whatever the indentation. */
  lemma TaggedPush(ms: seq<Mark>, out: seq<string>, m: Mark, depth: nat, line: string)
    requires TaggedLines(ms, out) && Classify(Dedent(line)) == m
    ensures TaggedLines(ms + [m], out + [Indent(depth, line)])
  {
    DedentIndent(depth, line);
    var ms', out' := ms + [m], out + [Indent(depth, line)];
    forall k | 0 <= k < |out'| ensures Classify(Dedent(out'[k])) == ms'[k] {
      if k < |out| {
        assert ms'[k] == ms[k] && out'[k] == out[k];
      }
    }
  }

  /**
   * Each section and each list has been opened once more than it has been
   * closed for every entry the stacks hold: `depth` sections and the lists
   * of `lists`.
   */
  predicate BalancedMarks(ms: seq<Mark>, depth: nat, lists: seq<ListEntry>) {
    && CountIn(ms, Open(Details)) == CountIn(ms, Close(Details)) + depth
    && CountIn(ms, Open(List(Ul))) == CountIn(ms, Close(List(Ul))) + CountKind(lists, Ul)
    && CountIn(ms, Open(List(Ol))) == CountIn(ms, Close(List(Ol))) + CountKind(lists, Ol)
  }

  /** The six counts after one more mark. */
  lemma CountsPush(ms: seq<Mark>, e: Mark)
    ensures CountIn(ms + [e], Open(Details)) == CountIn(ms, Open(Details)) + (if e == Open(Details) then 1 else 0)
    ensures CountIn(ms + [e], Close(Details)) == CountIn(ms, Close(Details)) + (if e == Close(Details) then 1 else 0)
    ensures CountIn(ms + [e], Open(List(Ul))) == CountIn(ms, Open(List(Ul))) + (if e == Open(List(Ul)) then 1 else 0)
    ensures CountIn(ms + [e], Close(List(Ul))) == CountIn(ms, Close(List(Ul))) + (if e == Close(List(Ul)) then 1 else 0)
    ensures CountIn(ms + [e], Open(List(Ol))) == CountIn(ms, Open(List(Ol))) + (if e == Open(List(Ol)) then 1 else 0)
    ensures CountIn(ms + [e], Close(List(Ol))) == CountIn(ms, Close(List(Ol))) + (if e == Close(List(Ol)) then 1 else 0)
  {
    CountInPush(ms, e, Open(Details));
    CountInPush(ms, e, Close(Details));
    CountInPush(ms, e, Open(List(Ul)));
    CountInPush(ms, e, Close(List(Ul)));
    CountInPush(ms, e, Open(List(Ol)));
    CountInPush(ms, e, Close(List(Ol)));
  }

  /** A line that opens or closes nothing leaves the balance alone. */
  lemma BalancedText(ms: seq<Mark>, depth: nat, lists: seq<ListEntry>)
    requires BalancedMarks(ms, depth, lists)
    ensures BalancedMarks(ms + [Text], depth, lists)
  {
    CountsPush(ms, Text);
  }

  /** `<details ...>` opens one more section. */
  lemma BalancedOpenSection(ms: seq<Mark>, depth: nat, lists: seq<ListEntry>)
    requires BalancedMarks(ms, depth, lists)
    ensures BalancedMarks(ms + [Open(Details)], depth + 1, lists)
  {
    CountsPush(ms, Open(Details));
  }

  /** `</details>` closes the innermost section. */
  lemma BalancedCloseSection(ms: seq<Mark>, depth: nat, lists: seq<ListEntry>)
    requires BalancedMarks(ms, depth, lists) && depth >= 1
    ensures BalancedMarks(ms + [Close(Details)], depth - 1, lists)
  {
    CountsPush(ms, Close(Details));
  }

  /** `<ul>` or `<ol>` opens one more list of that kind. */
  lemma BalancedOpenList(ms: seq<Mark>, depth: nat, lists: seq<ListEntry>, e: ListEntry)
    requires BalancedMarks(ms, depth, lists)
    ensures BalancedMarks(ms + [Open(List(e.kind))], depth, lists + [e])
  {
    CountsPush(ms, Open(List(e.kind)));
    CountKindPush(lists, e, Ul);
    CountKindPush(lists, e, Ol);
  }

  /** `</ul>` or `</ol>` closes the innermost list. */
  lemma BalancedCloseList(ms: seq<Mark>, depth: nat, lists: seq<ListEntry>)
    requires BalancedMarks(ms, depth, lists) && lists != []
    ensures BalancedMarks(ms + [Close(List(lists[|lists| - 1].kind))], depth, lists[..|lists| - 1])
  {
    var rest, top := lists[..|lists| - 1], lists[|lists| - 1];
    assert lists == rest + [top];
    CountsPush(ms, Close(List(top.kind)));
    CountKindPush(rest, top, Ul);
    CountKindPush(rest, top, Ol);
  }

  /** With both stacks empty, every tag has been closed as often as it was opened. */
  lemma BalancedClosed(ms: seq<Mark>)
    requires BalancedMarks(ms, 0, [])
    ensures forall t :: CountIn(ms, Open(t)) == CountIn(ms, Close(t))
  {
    forall t ensures CountIn(ms, Open(t)) == CountIn(ms, Close(t)) {
      match t
      case Details =>
      case List(k) =>
        match k
        case Ul =>
        case Ol =>
    }
  }

  /**
   * Which branch of the main loop (converter.js:125-177) a line takes, given
   * whether a fenced block was open before it. The rule test comes first, so
   * a rule line inside a fenced block is a rule, not code.
   */
  datatype LineKind = RuleKind | FenceKind | CodeKind | HeadingKind(h: Heading) | ItemKind(item: Item) | OtherKind

  function KindOf(line: string, inCode: bool): LineKind {
    if IsHorizontalRule(line) then RuleKind
    else if IsFence(line) then FenceKind
    else if inCode then CodeKind
    else if MatchHeading(line).Some? then HeadingKind(MatchHeading(line).value)
    else if MatchListItem(line).Some? then ItemKind(MatchListItem(line).value)
    else OtherKind
  }

  /** Inside a fenced block a rule line is still a rule, so `---` there emits `<hr>` rather than code. */
  lemma RuleInFence(pre: string, m: string, post: string)
    requires AllSpace(pre) && AllSpace(post) && IsRuleMark(m)
    ensures KindOf(pre + m + post, true) == RuleKind
  {
    HorizontalRuleFrame(pre, m, post);
  }

  /** The buffers of a paragraph, a blockquote and a table, with their flags (converter.js:79, 82-85). */
  datatype Pending = Pending(para: seq<string>, inQuote: bool, quote: seq<string>, inTable: bool, table: seq<string>)

  /**
   * What a line past the list and alert branches (converter.js:210-239) emits
   * and leaves in the buffers. A quote line flushes only the paragraph; any
   * other line first ends a pending blockquote and then goes on as `RowEffect`.
   */
  function PlainEffect(line: string, depth: nat, p: Pending, inline: string -> string): (seq<string>, Pending) {
    var q := QuoteContent(line);
    if q.Some? then
      (Indented(depth, ParagraphLines(p.para, inline)),
       p.(para := [], inQuote := true, quote := p.quote + [inline(q.value)]))
    else
      var quoted := if p.inQuote then [Indent(depth, BlockquoteLine(p.quote))] else [];
      var r := RowEffect(line, depth, if p.inQuote then p.(inQuote := false, quote := []) else p, inline);
      (quoted + r.0, r.1)
  }

  /**
   * converter.js:224-239: a table row is buffered after the paragraph is
   * flushed; any other line ends a pending table, then flushes the paragraph
   * (a blank line) or joins it (text). An empty table buffer is left as it is
   * (converter.js:102).
   */
  function RowEffect(line: string, depth: nat, p: Pending, inline: string -> string): (seq<string>, Pending) {
    if IsTableRow(line) then
      (Indented(depth, ParagraphLines(p.para, inline)), p.(para := [], inTable := true, table := p.table + [line]))
    else
      var tabled := if p.inTable then Indented(depth, TableLines(p.table, inline)) else [];
      var p2 := if p.inTable then p.(inTable := p.table == [], table := []) else p;
      (tabled + (if IsBlank(line) then Indented(depth, ParagraphLines(p.para, inline)) else []),
       p2.(para := if IsBlank(line) then [] else p.para + [line]))
  }

  /** A quote line: the paragraph's lines, and the quote joins the blockquote. */
  lemma PlainEffectQuote(line: string, depth: nat, p: Pending, inline: string -> string)
    requires QuoteContent(line).Some?
    ensures PlainEffect(line, depth, p, inline)
      == (Indented(depth, ParagraphLines(p.para, inline)),
          p.(para := [], inQuote := true, quote := p.quote + [inline(QuoteContent(line).value)]))
  {
  }

  /** Any other line: the pending blockquote's line, then what `RowEffect` emits once it is ended. */
  lemma PlainEffectNotQuote(line: string, depth: nat, p: Pending, inline: string -> string)
    requires QuoteContent(line).None?
    ensures var p1 := if p.inQuote then p.(inQuote := false, quote := []) else p;
      PlainEffect(line, depth, p, inline)
      == ((if p.inQuote then [Indent(depth, BlockquoteLine(p.quote))] else []) + RowEffect(line, depth, p1, inline).0,
          RowEffect(line, depth, p1, inline).1)
  {
  }

  /** A table row: the paragraph's lines, and the row joins the table. */
  lemma RowEffectRow(line: string, depth: nat, p: Pending, inline: string -> string)
    requires IsTableRow(line)
    ensures RowEffect(line, depth, p, inline)
      == (Indented(depth, ParagraphLines(p.para, inline)), p.(para := [], inTable := true, table := p.table + [line]))
  {
  }

  /** A line that is no table row: the pending table's lines, then the paragraph's when the line is blank. */
  lemma RowEffectNotRow(line: string, depth: nat, p: Pending, inline: string -> string)
    requires !IsTableRow(line)
    ensures RowEffect(line, depth, p, inline).0
      == (if p.inTable then Indented(depth, TableLines(p.table, inline)) else [])
        + (if IsBlank(line) then Indented(depth, ParagraphLines(p.para, inline)) else [])
    ensures RowEffect(line, depth, p, inline).1
      == p.(para := if IsBlank(line) then [] else p.para + [line],
            inTable := p.inTable && p.table == [], table := if p.inTable then [] else p.table)
  {
  }

  /** A flag is set exactly when its buffer holds a line. */
  predicate PendingValid(p: Pending) {
    (p.inQuote <==> p.quote != []) && (p.inTable <==> p.table != [])
  }

  /** Every quote, table, blank or text line keeps each flag in step with its buffer. */
  lemma PlainEffectValid(line: string, depth: nat, p: Pending, inline: string -> string)
    requires PendingValid(p)
    ensures PendingValid(PlainEffect(line, depth, p, inline).1)
  {
  }

  /** Text that is no quote, no table row and not blank. */
  predicate IsText(line: string) {
    QuoteContent(line).None? && !IsTableRow(line) && !IsBlank(line)
  }

  /** With no blockquote or table pending, a text line emits nothing and joins the paragraph. */
  lemma TextDefers(line: string, depth: nat, p: Pending, inline: string -> string)
    requires IsText(line) && !p.inQuote && !p.inTable
    ensures PlainEffect(line, depth, p, inline) == ([], p.(para := p.para + [line]))
  {
    var r := PlainEffect(line, depth, p, inline);
    assert r.0 == [];
    assert r.1 == p.(para := p.para + [line]);
  }

  /**
   * A quote line leaves a pending table in its buffer, so the text line after
   * it emits the blockquote first and the table second (`| a |`, `> q`, `z`).
   */
  lemma QuoteBeforeTable(q: string, z: string, depth: nat, p: Pending, inline: string -> string)
    requires QuoteContent(q).Some? && IsText(z)
    requires PendingValid(p) && p.para == [] && !p.inQuote && p.inTable
    ensures var mid := PlainEffect(q, depth, p, inline).1;
      PlainEffect(z, depth, mid, inline).0
      == [Indent(depth, BlockquoteLine([inline(QuoteContent(q).value)]))] + Indented(depth, TableLines(p.table, inline))
  {
    var mid := PlainEffect(q, depth, p, inline).1;
    assert mid.quote == [inline(QuoteContent(q).value)];
    assert mid.inQuote && mid.inTable && mid.table == p.table;
  }

  /** Line `i` is a callout and `last` ends the maximal run of quote lines after it (converter.js:196-200). */
  predicate AlertRun(lines: seq<string>, i: nat, last: nat) {
    && i <= last < |lines|
    && (forall k :: i < k <= last ==> QuoteContent(lines[k]).Some?)
    && (last + 1 == |lines| || QuoteContent(lines[last + 1]).None?)
  }

  /**
   * The loop of converter.js:196-200: from the callout on line `i`, consumes
   * the run of quote lines that follows it and collects their contents after
   * the callout's own text. Returns the index of the last line consumed,
   * which is never past the end of the document.
   */
  method CollectAlert(lines: seq<string>, i: nat, first: string) returns (j: nat, body: seq<string>)
    requires i < |lines|
    ensures i <= j < |lines|
    ensures forall k :: i < k <= j ==> QuoteContent(lines[k]).Some?
    ensures j + 1 == |lines| || QuoteContent(lines[j + 1]).None?
    ensures body == [first] + QuoteContents(lines[i + 1..j + 1])
  {
    j := i;
    body := [first];
    while j + 1 < |lines| && QuoteContent(lines[j + 1]).Some?
      invariant i <= j < |lines|
      invariant forall k :: i < k <= j ==> QuoteContent(lines[k]).Some?
      invariant body == [first] + QuoteContents(lines[i + 1..j + 1])
      decreases |lines| - j
    {
      j := j + 1;
      QuoteContentsStep(lines, i + 1, j);
      AppendAssoc([first], QuoteContents(lines[i + 1..j]), [StripQuote(lines[j])]);
      body := body + [StripQuote(lines[j])];
    }
  }

  class Converter {
    /** The document's lines. */
    const lines: seq<string>
    /** The inline transformer. */
    const inline: string -> string

    var out: seq<string>
    /** One mark per output line. */
    ghost var marks: seq<Mark>
    /** Levels of the open `<details>` sections. */
    var stack: seq<nat>
    var listStack: seq<ListEntry>
    var paraBuf: seq<string>
    var inCodeBlock: bool
    var codeLang: string
    var inBlockquote: bool
    var blockquoteBuf: seq<string>
    var inTable: bool
    var tableBuf: seq<string>

    /** The heading stack and the list stack keep their invariants. */
    ghost predicate StacksValid()
      reads this`stack, this`listStack
    {
      HeadingLevels(stack) && ListLevels(listStack)
    }

    ghost predicate Valid()
      reads this`out, this`marks, this`stack, this`listStack
    {
      StacksValid() && SafeInline(inline) && TaggedLines(marks, out) && BalancedMarks(marks, |stack|, listStack)
    }

    /** The buffers and their flags. */
    function Buffers(): Pending
      reads this`paraBuf, this`inBlockquote, this`blockquoteBuf, this`inTable, this`tableBuf
    {
      Pending(paraBuf, inBlockquote, blockquoteBuf, inTable, tableBuf)
    }

    /** The parser's state before the first line (converter.js:74-86). */
    constructor (lines: seq<string>, inline: string -> string)
      requires SafeInline(inline)
      ensures this.lines == lines && this.inline == inline
      ensures Valid()
      ensures out == [] && stack == [] && listStack == [] && paraBuf == []
      ensures !inCodeBlock && codeLang == [] && !inBlockquote && blockquoteBuf == [] && !inTable && tableBuf == []
    {
      this.lines := lines;
      this.inline := inline;
      out := [];
      marks := [];
      stack := [];
      listStack := [];
      paraBuf := [];
      inCodeBlock := false;
      codeLang := [];
      inBlockquote := false;
      blockquoteBuf := [];
      inTable := false;
      tableBuf := [];
    }

    /**
     * `push` (converter.js:78): the line, indented by the heading depth. The
     * caller keeps the balance of the marks.
     */
    method Push(line: string, ghost m: Mark)
      requires TaggedLines(marks, out)
      requires Classify(Dedent(line)) == m
      modifies this`out, this`marks
      ensures TaggedLines(marks, out)
      ensures out == old(out) + [Indent(|stack|, line)]
      ensures marks == old(marks) + [m]
    {
      TaggedPush(marks, out, m, |stack|, line);
      out := out + [Indent(|stack|, line)];
      marks := marks + [m];
    }

    /** `push` of a line that opens or closes nothing. */
    method PushText(line: string)
      requires Valid() && Classify(Dedent(line)) == Text
      modifies this`out, this`marks
      ensures Valid()
      ensures out == old(out) + [Indent(|stack|, line)]
    {
      BalancedText(marks, |stack|, listStack);
      Push(line, Text);
      assert Valid();
    }

    /** `flushParagraph` (converter.js:89-98). */
    method FlushParagraph()
      requires Valid()
      modifies this`out, this`marks, this`paraBuf
      ensures Valid() && paraBuf == []
      ensures out == old(out) + Indented(|stack|, ParagraphLines(old(paraBuf), inline))
    {
      if paraBuf != [] {
        ghost var body := BrLines(Rendered(paraBuf, inline));
        ghost var d := |stack|;
        assert Indented(d, ["<p>"]) == [Indent(d, "<p>")];
        PushText("<p>");
        assert ["<p>"] + body[..0] == ["<p>"];
        var i := 0;
        while i < |paraBuf|
          invariant 0 <= i <= |paraBuf| && paraBuf == old(paraBuf) && |body| == |paraBuf|
          invariant Valid()
          modifies this`out, this`marks
          invariant out == old(out) + Indented(d, ["<p>"] + body[..i])
        {
          var line := inline(paraBuf[i]) + (if i == |paraBuf| - 1 then "" else "<br>");
          assert line == body[i];
          if i < |paraBuf| - 1 {
            BrText(inline(paraBuf[i]));
          } else {
            assert line == inline(paraBuf[i]);
          }
          IndentedExtend(old(out), d, ["<p>"] + body[..i], line);
          TakeStep(body, i);
          AppendAssoc(["<p>"], body[..i], [line]);
          PushText(line);
          i := i + 1;
        }
        assert body[..|paraBuf|] == body;
        IndentedExtend(old(out), d, ["<p>"] + body, "</p>");
        PushText("</p>");
        paraBuf := [];
      }
      assert Valid();
    }

    /** Pushes lines that open or close nothing, in order. */
    method PushTexts(ls: seq<string>)
      requires Valid() && AllText(ls)
      modifies this`out, this`marks
      ensures Valid()
      ensures out == old(out) + Indented(|stack|, ls)
    {
      var k := 0;
      while k < |ls|
        invariant 0 <= k <= |ls|
        invariant Valid()
        invariant out == old(out) + Indented(|stack|, ls[..k])
        modifies this`out, this`marks
      {
        IndentedExtend(old(out), |stack|, ls[..k], ls[k]);
        TakeStep(ls, k);
        PushText(ls[k]);
        k := k + 1;
      }
      assert ls[..|ls|] == ls;
      assert Valid();
    }

    /** `flushTable` (converter.js:101-117). */
    method FlushTable()
      requires Valid()
      modifies this`out, this`marks, this`tableBuf, this`inTable
      ensures Valid() && tableBuf == []
      ensures inTable == (old(inTable) && old(tableBuf) == [])
      ensures out == old(out) + Indented(|stack|, TableLines(old(tableBuf), inline))
    {
      if tableBuf == [] {
        return;
      }
      var header := tableBuf[0];
      var bodyLines := if |tableBuf| > 2 then tableBuf[2..] else [];
      var rows: seq<string> := [];
      var k := 0;
      while k < |bodyLines|
        invariant 0 <= k <= |bodyLines|
        invariant rows == BodyRows(bodyLines[..k], inline)
        modifies {}
      {
        BodyRowsStep(bodyLines, k, inline);
        rows := rows + [BodyRow(bodyLines[k], inline)];
        k := k + 1;
      }
      assert bodyLines[..|bodyLines|] == bodyLines;
      var tbody: seq<string> := [];
      if bodyLines != [] {
        tbody := ["<tbody>"] + rows + ["</tbody>"];
      }
      assert tbody == TableBody(tableBuf, inline);
      TableText(tableBuf, inline);
      assert ["<table>", HeaderRow(header, inline)] + tbody + ["</table>"] == TableLines(tableBuf, inline);
      PushTexts(["<table>", HeaderRow(header, inline)] + tbody + ["</table>"]);
      tableBuf := [];
      inTable := false;
    }

    /** `push(`</${listStack.pop().type}>`)`: closes the innermost list. */
    method PopList()
      requires Valid() && listStack != []
      modifies this`out, this`marks, this`listStack
      ensures Valid()
      ensures listStack == old(listStack)[..|old(listStack)| - 1]
      ensures out == old(out) + [Indent(|stack|, ListClose(old(listStack)[|old(listStack)| - 1].kind))]
    {
      var top := listStack[|listStack| - 1];
      BalancedCloseList(marks, |stack|, listStack);
      ListLevelsPop(listStack);
      ClassifyTags(0, top.kind);
      Push(ListClose(top.kind), Close(List(top.kind)));
      listStack := listStack[..|listStack| - 1];
      assert Valid();
    }

    /** Closes every open list, innermost first (converter.js:176, 243). */
    method CloseLists()
      requires Valid()
      modifies this`out, this`marks, this`listStack
      ensures Valid() && listStack == []
      ensures out == old(out) + ListClosings(old(listStack), |stack|)
    {
      assert old(listStack)[|listStack|..] == [];
      while listStack != []
        invariant Valid()
        invariant |listStack| <= |old(listStack)| && listStack == old(listStack)[..|listStack|]
        invariant out == old(out) + ListClosings(old(listStack)[|listStack|..], |stack|)
        modifies this`out, this`marks, this`listStack
        decreases |listStack|
      {
        PopListOf(old(listStack), old(out));
      }
      assert Valid();
    }

    /** One turn of a list pop loop: the innermost list's closing tag follows those already closed. */
    method PopListOf(ghost lists: seq<ListEntry>, ghost start: seq<string>)
      requires Valid() && listStack != []
      requires |listStack| <= |lists| && listStack == lists[..|listStack|]
      requires out == start + ListClosings(lists[|listStack|..], |stack|)
      modifies this`out, this`marks, this`listStack
      ensures Valid()
      ensures listStack == old(listStack)[..|old(listStack)| - 1]
      ensures out == start + ListClosings(lists[|listStack|..], |stack|)
    {
      ListClosingsStep(lists, |listStack|, |stack|);
      AppendAssoc(start, ListClosings(lists[|listStack|..], |stack|),
        [Indent(|stack|, ListClose(lists[|listStack| - 1].kind))]);
      PopList();
    }

    /** One turn of a section pop loop: the innermost section's closing tag follows those already closed. */
    method PopHeadingOf(ghost levels: seq<nat>, ghost start: seq<string>)
      requires Valid() && stack != []
      requires |stack| <= |levels| && stack == levels[..|stack|]
      requires out == start + DetailsClosings(|levels|, |levels| - |stack|)
      modifies this`out, this`marks, this`stack
      ensures Valid()
      ensures stack == old(stack)[..|old(stack)| - 1]
      ensures out == start + DetailsClosings(|levels|, |levels| - |stack|)
    {
      DetailsClosingsStep(|levels|, |levels| - |stack|);
      AppendAssoc(start, DetailsClosings(|levels|, |levels| - |stack|), [Indent(|stack|, DetailsClose)]);
      PopHeading();
    }

    /** `push('</details>'); stack.pop()`: closes the innermost section. */
    method PopHeading()
      requires Valid() && stack != []
      modifies this`out, this`marks, this`stack
      ensures Valid()
      ensures stack == old(stack)[..|old(stack)| - 1]
      ensures out == old(out) + [Indent(|old(stack)|, DetailsClose)]
    {
      HeadingLevelsPop(stack);
      BalancedCloseSection(marks, |stack|, listStack);
      ClassifyTags(0, Ul);
      Push(DetailsClose, Close(Details));
      stack := stack[..|stack| - 1];
      assert Valid();
    }

    /** Closes every open section, innermost first (converter.js:244). */
    method CloseHeadings()
      requires Valid()
      modifies this`out, this`marks, this`stack
      ensures Valid() && stack == []
      ensures out == old(out) + DetailsClosings(|old(stack)|, |old(stack)|)
    {
      while stack != []
        invariant Valid()
        invariant |stack| <= |old(stack)| && stack == old(stack)[..|stack|]
        invariant out == old(out) + DetailsClosings(|old(stack)|, |old(stack)| - |stack|)
        modifies this`out, this`marks, this`stack
        decreases |stack|
      {
        PopHeadingOf(old(stack), old(out));
      }
      assert Valid();
    }

    /** A horizontal rule (converter.js:125-129). */
    method Rule()
      requires Valid()
      modifies this`out, this`marks, this`paraBuf
      ensures Valid() && paraBuf == []
      ensures out == old(out) + Indented(|stack|, ParagraphLines(old(paraBuf), inline)) + [Indent(|stack|, RuleLine)]
    {
      FlushParagraph();
      PushText(RuleLine);
      assert Valid();
    }

    /** A fence line opens a code block, or closes the open one (converter.js:132-136). */
    method Fence(line: string)
      requires Valid() && IsFence(line)
      modifies this`out, this`marks, this`paraBuf, this`inCodeBlock, this`codeLang
      ensures Valid() && paraBuf == []
      ensures inCodeBlock == !old(inCodeBlock)
      ensures codeLang == if old(inCodeBlock) then old(codeLang) else FenceLanguage(line)
      ensures out == old(out) + Indented(|stack|, ParagraphLines(old(paraBuf), inline))
        + [Indent(|stack|, if old(inCodeBlock) then FenceClose else FenceOpen(FenceLanguage(line)))]
    {
      FlushParagraph();
      if inCodeBlock {
        inCodeBlock := false;
        PushText(FenceClose);
      } else {
        codeLang := FenceLanguage(line);
        inCodeBlock := true;
        FenceOpenText(codeLang);
        PushText(FenceOpen(codeLang));
      }
      assert Valid();
    }

    /** A line inside a code block, escaped once (converter.js:137). */
    method CodeLine(line: string)
      requires Valid()
      modifies this`out, this`marks
      ensures Valid()
      ensures out == old(out) + [Indent(|stack|, EscapeHtml(line))]
    {
      EscapeHtmlNoRawMeta(line);
      EscapedText(EscapeHtml(line));
      PushText(EscapeHtml(line));
      assert Valid();
    }

    /**
     * A heading (converter.js:140-153): closes the sections of its level or
     * deeper, one `</details>` each, then opens its own section.
     */
    method OpenHeading(h: Heading)
      requires Valid() && 1 <= h.level <= 6
      modifies this`out, this`marks, this`paraBuf, this`stack
      ensures Valid() && paraBuf == []
      ensures stack == Unwind(old(stack), h.level) + [h.level]
      ensures out == old(out) + Indented(|old(stack)|, ParagraphLines(old(paraBuf), inline))
        + DetailsClosings(|old(stack)|, |old(stack)| - |Unwind(old(stack), h.level)|)
        + Indented(|Unwind(old(stack), h.level)|, [DetailsOpen(h.level), Summary(h.level, inline(h.text))])
    {
      var text := inline(h.text);
      FlushParagraph();
      assert stack == old(stack);
      ghost var flushed := out;
      EnterSection(h.level, text);
      assert paraBuf == [];
      assert out == flushed + DetailsClosings(|old(stack)|, |old(stack)| - |Unwind(old(stack), h.level)|)
        + Indented(|Unwind(old(stack), h.level)|, [DetailsOpen(h.level), Summary(h.level, text)]);
    }

    /** After the paragraph is flushed: closes the sections of the level or deeper, then opens one (converter.js:145-151). */
    method EnterSection(level: nat, html: string)
      requires Valid() && 1 <= level <= 6
      modifies this`out, this`marks, this`stack
      ensures Valid()
      ensures stack == Unwind(old(stack), level) + [level]
      ensures out == old(out) + DetailsClosings(|old(stack)|, |old(stack)| - |Unwind(old(stack), level)|)
        + Indented(|Unwind(old(stack), level)|, [DetailsOpen(level), Summary(level, html)])
    {
      CloseSectionsFrom(level);
      HeadingReplaces(old(stack), level);
      assert Indented(|stack|, [DetailsOpen(level), Summary(level, html)])
        == [Indent(|stack|, DetailsOpen(level)), Indent(|stack|, Summary(level, html))];
      PushSection(level, html);
      assert Valid();
    }

    /** `while (stack.length && stack[stack.length-1].level >= level)` closes a section (converter.js:145-148). */
    method CloseSectionsFrom(level: nat)
      requires Valid()
      modifies this`out, this`marks, this`stack
      ensures Valid()
      ensures stack == Unwind(old(stack), level)
      ensures out == old(out) + DetailsClosings(|old(stack)|, |old(stack)| - |stack|)
    {
      while stack != [] && stack[|stack| - 1] >= level
        invariant Valid()
        invariant |stack| <= |old(stack)| && stack == old(stack)[..|stack|]
        invariant forall k :: |stack| <= k < |old(stack)| ==> old(stack)[k] >= level
        invariant out == old(out) + DetailsClosings(|old(stack)|, |old(stack)| - |stack|)
        modifies this`out, this`marks, this`stack
        decreases |stack|
      {
        assert old(stack)[|stack| - 1] == stack[|stack| - 1] >= level;
        PopHeadingOf(old(stack), old(out));
      }
      UnwindPrefix(old(stack), level, |stack|);
      assert Valid();
    }

    /** Opens the section of a heading whose level is above the top of the stack (converter.js:149-151). */
    method PushSection(level: nat, html: string)
      requires Valid() && HeadingLevels(stack + [level])
      modifies this`out, this`marks, this`stack
      ensures Valid()
      ensures stack == old(stack) + [level]
      ensures out == old(out) + [Indent(|old(stack)|, DetailsOpen(level)), Indent(|old(stack)|, Summary(level, html))]
    {
      BalancedOpenSection(marks, |stack|, listStack);
      ClassifyTags(level, Ul);
      Push(DetailsOpen(level), Open(Details));
      BalancedText(marks, |stack| + 1, listStack);
      SummaryText(level, html);
      Push(Summary(level, html), Text);
      stack := stack + [level];
      assert Valid();
    }

    /**
     * A list item (converter.js:156-174): closes the lists that are deeper or
     * of the other kind, opens a list when the item is deeper than the top.
     */
    method ListItem(item: Item)
      requires Valid()
      modifies this`out, this`marks, this`paraBuf, this`listStack
      ensures Valid() && paraBuf == []
      ensures listStack == AfterItem(old(listStack), item.kind, ItemLevel(item.indent))
      ensures out == old(out) + Indented(|stack|, ParagraphLines(old(paraBuf), inline))
        + ListClosings(old(listStack)[|UnwindLists(old(listStack), item.kind, ItemLevel(item.indent))|..], |stack|)
        + (if OpensList(UnwindLists(old(listStack), item.kind, ItemLevel(item.indent)), ItemLevel(item.indent))
           then [Indent(|stack|, ListOpen(item.kind))] else [])
        + [Indent(|stack|, ListLine(inline(item.text)))]
    {
      var html := inline(item.text);
      FlushParagraph();
      PlaceItem(item.kind, ItemLevel(item.indent), html);
    }

    /**
     * After the paragraph is flushed: closes the lists that are deeper or of
     * the other kind, opens a list when the item is deeper than the top, and
     * writes the item (converter.js:164-173).
     */
    method PlaceItem(kind: ListKind, level: nat, html: string)
      requires Valid() && level >= 1
      modifies this`out, this`marks, this`listStack
      ensures Valid()
      ensures listStack == AfterItem(old(listStack), kind, level)
      ensures out == old(out)
        + ListClosings(old(listStack)[|UnwindLists(old(listStack), kind, level)|..], |stack|)
        + (if OpensList(UnwindLists(old(listStack), kind, level), level) then [Indent(|stack|, ListOpen(kind))] else [])
        + [Indent(|stack|, ListLine(html))]
    {
      CloseListsFor(kind, level);
      UnwindListsKind(old(listStack), kind, level);
      OpenListFor(kind, level);
      ListLineText(html);
      PushText(ListLine(html));
      assert Valid();
    }

    /** converter.js:168-171: opens a list when none is open or the open one is shallower. */
    method OpenListFor(kind: ListKind, level: nat)
      requires Valid() && level >= 1
      requires forall k :: 0 <= k < |listStack| ==> listStack[k].kind == kind
      modifies this`out, this`marks, this`listStack
      ensures Valid()
      ensures listStack == if OpensList(old(listStack), level) then old(listStack) + [ListEntry(kind, level)] else old(listStack)
      ensures out == old(out) + (if OpensList(old(listStack), level) then [Indent(|stack|, ListOpen(kind))] else [])
    {
      if listStack == [] || listStack[|listStack| - 1].level < level {
        PushList(kind, level);
      }
    }

    /** The pop loop of converter.js:164-166: closes the lists that are deeper or of the other kind. */
    method CloseListsFor(kind: ListKind, level: nat)
      requires Valid()
      modifies this`out, this`marks, this`listStack
      ensures Valid()
      ensures listStack == UnwindLists(old(listStack), kind, level)
      ensures out == old(out) + ListClosings(old(listStack)[|listStack|..], |stack|)
    {
      assert listStack[|listStack|..] == [];
      while listStack != [] && Pops(listStack[|listStack| - 1], kind, level)
        invariant Valid()
        invariant |listStack| <= |old(listStack)| && listStack == old(listStack)[..|listStack|]
        invariant forall k :: |listStack| <= k < |old(listStack)| ==> Pops(old(listStack)[k], kind, level)
        invariant out == old(out) + ListClosings(old(listStack)[|listStack|..], |stack|)
        modifies this`out, this`marks, this`listStack
        decreases |listStack|
      {
        PopListOf(old(listStack), old(out));
      }
      UnwindListsPrefix(old(listStack), kind, level, |listStack|);
      assert Valid();
    }

    /** Opens a list for an item deeper than the top of the stack (converter.js:168-171). */
    method PushList(kind: ListKind, level: nat)
      requires Valid() && level >= 1
      requires listStack == [] || listStack[|listStack| - 1].level < level
      requires forall k :: 0 <= k < |listStack| ==> listStack[k].kind == kind
      modifies this`out, this`marks, this`listStack
      ensures Valid()
      ensures listStack == old(listStack) + [ListEntry(kind, level)]
      ensures out == old(out) + [Indent(|stack|, ListOpen(kind))]
    {
      BalancedOpenList(marks, |stack|, listStack, ListEntry(kind, level));
      PushKeepsLists(listStack, ListEntry(kind, level));
      ClassifyTags(0, kind);
      Push(ListOpen(kind), Open(List(kind)));
      listStack := listStack + [ListEntry(kind, level)];
      assert Valid();
    }

    /**
     * An alert (converter.js:180-208): takes the maximal run of quote lines
     * after line `i` as its body and returns the index of the last line it
     * consumed, which is never past the end of the document.
     */
    method Alert(i: nat, c: Callout) returns (j: nat)
      requires Valid() && i < |lines|
      modifies this`out, this`marks, this`paraBuf
      ensures Valid() && Buffers() == old(Buffers()).(para := [])
      ensures AlertRun(lines, i, j)
      ensures out == old(out) + Indented(|stack|, ParagraphLines(old(paraBuf), inline))
        + Indented(|stack|, AlertLines(c.kind, [c.first] + QuoteContents(lines[i + 1..j + 1]), inline))
    {
      ghost var p := Buffers();
      FlushParagraph();
      var body;
      j, body := CollectAlert(lines, i, c.first);
      AlertText(c.kind, body, inline);
      PushTexts(AlertLines(c.kind, body, inline));
      assert Buffers() == p.(para := []);
      assert Valid();
    }

    /** A quote line is buffered, already transformed (converter.js:211-216). */
    method Quote(content: string)
      requires Valid()
      modifies this`out, this`marks, this`paraBuf, this`blockquoteBuf, this`inBlockquote
      ensures Valid() && paraBuf == [] && inBlockquote
      ensures blockquoteBuf == old(blockquoteBuf) + [inline(content)]
      ensures out == old(out) + Indented(|stack|, ParagraphLines(old(paraBuf), inline))
    {
      FlushParagraph();
      blockquoteBuf := blockquoteBuf + [inline(content)];
      inBlockquote := true;
      assert Valid();
    }

    /** The first line after a blockquote ends it (converter.js:217-221). */
    method FlushBlockquote()
      requires Valid()
      modifies this`out, this`marks, this`blockquoteBuf, this`inBlockquote
      ensures Valid() && blockquoteBuf == [] && !inBlockquote
      ensures out == old(out) + [Indent(|stack|, BlockquoteLine(old(blockquoteBuf)))]
    {
      BlockquoteText(blockquoteBuf);
      PushText(BlockquoteLine(blockquoteBuf));
      blockquoteBuf := [];
      inBlockquote := false;
      assert Valid();
    }

    /** A table line is buffered as it is (converter.js:225-230). */
    method TableRow(line: string)
      requires Valid()
      modifies this`out, this`marks, this`paraBuf, this`tableBuf, this`inTable
      ensures Valid() && paraBuf == [] && inTable
      ensures tableBuf == old(tableBuf) + [line]
      ensures out == old(out) + Indented(|stack|, ParagraphLines(old(paraBuf), inline))
    {
      FlushParagraph();
      tableBuf := tableBuf + [line];
      inTable := true;
      assert Valid();
    }

    /**
     * One pass of the main loop (converter.js:121-240) on line `i`, trying the
     * patterns in the source's order. Returns the last line it consumed.
     * Only a line that reaches converter.js:176 closes the open lists, and
     * only such a line touches the blockquote and table buffers.
     */
    method Step(i: nat) returns (last: nat)
      requires Valid() && i < |lines|
      modifies this`out, this`marks, this`stack, this`listStack, this`paraBuf, this`inCodeBlock, this`codeLang,
        this`blockquoteBuf, this`inBlockquote, this`tableBuf, this`inTable
      ensures Valid()
      ensures i <= last < |lines|
      ensures last > i ==> MatchCallout(lines[i]).Some?
      ensures StepEffect(i, last, old(out), old(stack), old(listStack), old(Buffers()), old(inCodeBlock), old(codeLang))
    {
      var line := lines[i];
      if IsHorizontalRule(line) {
        last := RuleStep(i);
      } else if IsFence(line) {
        last := FenceStep(i);
      } else if inCodeBlock {
        last := CodeStep(i);
      } else if MatchHeading(line).Some? {
        last := HeadingStep(i);
      } else if MatchListItem(line).Some? {
        last := ItemStep(i);
      } else {
        last := OtherStep(i);
      }
    }

    /** A horizontal rule (converter.js:125-129), as one pass of the main loop. */
    method RuleStep(i: nat) returns (last: nat)
      requires Valid() && i < |lines| && KindOf(lines[i], inCodeBlock).RuleKind?
      modifies this`out, this`marks, this`stack, this`listStack, this`paraBuf, this`inCodeBlock, this`codeLang,
        this`blockquoteBuf, this`inBlockquote, this`tableBuf, this`inTable
      ensures Valid()
      ensures RuleEffect(i, last, old(out), old(stack), old(listStack), old(Buffers()), old(inCodeBlock), old(codeLang))
    {
      ghost var p := Buffers();
      Rule();
      last := i;
      assert Buffers() == p.(para := []);
    }

    /** A fence line (converter.js:132-136), as one pass of the main loop. */
    method FenceStep(i: nat) returns (last: nat)
      requires Valid() && i < |lines| && KindOf(lines[i], inCodeBlock).FenceKind?
      modifies this`out, this`marks, this`stack, this`listStack, this`paraBuf, this`inCodeBlock, this`codeLang,
        this`blockquoteBuf, this`inBlockquote, this`tableBuf, this`inTable
      ensures Valid()
      ensures FenceEffect(i, last, old(out), old(stack), old(listStack), old(Buffers()), old(inCodeBlock), old(codeLang))
    {
      ghost var p := Buffers();
      Fence(lines[i]);
      last := i;
      assert Buffers() == p.(para := []);
    }

    /** A line inside a fenced block (converter.js:137), as one pass of the main loop. */
    method CodeStep(i: nat) returns (last: nat)
      requires Valid() && i < |lines| && KindOf(lines[i], inCodeBlock).CodeKind?
      modifies this`out, this`marks, this`stack, this`listStack, this`paraBuf, this`inCodeBlock, this`codeLang,
        this`blockquoteBuf, this`inBlockquote, this`tableBuf, this`inTable
      ensures Valid()
      ensures CodeEffect(i, last, old(out), old(stack), old(listStack), old(Buffers()), old(inCodeBlock), old(codeLang))
    {
      CodeLine(lines[i]);
      last := i;
    }

    /** A heading (converter.js:140-153), as one pass of the main loop. */
    method HeadingStep(i: nat) returns (last: nat)
      requires Valid() && i < |lines| && KindOf(lines[i], inCodeBlock).HeadingKind?
      modifies this`out, this`marks, this`stack, this`listStack, this`paraBuf, this`inCodeBlock, this`codeLang,
        this`blockquoteBuf, this`inBlockquote, this`tableBuf, this`inTable
      ensures Valid()
      ensures HeadingEffect(i, last, old(out), old(stack), old(listStack), old(Buffers()), old(inCodeBlock), old(codeLang))
    {
      ghost var p := Buffers();
      OpenHeading(MatchHeading(lines[i]).value);
      last := i;
      assert Buffers() == p.(para := []);
    }

    /** A list item (converter.js:156-174), as one pass of the main loop. */
    method ItemStep(i: nat) returns (last: nat)
      requires Valid() && i < |lines| && KindOf(lines[i], inCodeBlock).ItemKind?
      modifies this`out, this`marks, this`stack, this`listStack, this`paraBuf, this`inCodeBlock, this`codeLang,
        this`blockquoteBuf, this`inBlockquote, this`tableBuf, this`inTable
      ensures Valid()
      ensures ItemEffect(i, last, old(out), old(stack), old(listStack), old(Buffers()), old(inCodeBlock), old(codeLang))
    {
      ghost var p := Buffers();
      ListItem(MatchListItem(lines[i]).value);
      last := i;
      assert Buffers() == p.(para := []);
    }

    /** Any other line (converter.js:175-240), as one pass of the main loop. */
    method OtherStep(i: nat) returns (last: nat)
      requires Valid() && i < |lines|
      modifies this`out, this`marks, this`stack, this`listStack, this`paraBuf, this`inCodeBlock, this`codeLang,
        this`blockquoteBuf, this`inBlockquote, this`tableBuf, this`inTable
      ensures Valid()
      ensures stack == old(stack) && inCodeBlock == old(inCodeBlock) && codeLang == old(codeLang) && listStack == []
      ensures OtherEffect(i, last, old(out), old(listStack), old(Buffers()))
    {
      ghost var p := Buffers();
      last := OtherLine(i);
      assert p == old(Buffers());
    }

    /**
     * What one pass of the main loop does to the state, by the branch the line
     * takes, from the state before it. Rules, fences, code lines and headings
     * leave the list stack as it is, and only a line that reaches
     * converter.js:176 touches the blockquote and table buffers.
     */
    ghost predicate StepEffect(i: nat, last: nat, out0: seq<string>, stack0: seq<nat>, lists0: seq<ListEntry>,
                               p: Pending, inCode0: bool, lang0: string)
      requires i < |lines|
      reads this`out, this`stack, this`listStack, this`paraBuf, this`inCodeBlock, this`codeLang,
        this`inBlockquote, this`blockquoteBuf, this`inTable, this`tableBuf
    {
      match KindOf(lines[i], inCode0)
      case RuleKind => RuleEffect(i, last, out0, stack0, lists0, p, inCode0, lang0)
      case FenceKind => FenceEffect(i, last, out0, stack0, lists0, p, inCode0, lang0)
      case CodeKind => CodeEffect(i, last, out0, stack0, lists0, p, inCode0, lang0)
      case HeadingKind(_) => HeadingEffect(i, last, out0, stack0, lists0, p, inCode0, lang0)
      case ItemKind(_) => ItemEffect(i, last, out0, stack0, lists0, p, inCode0, lang0)
      case OtherKind =>
        && stack == stack0 && inCodeBlock == inCode0 && codeLang == lang0 && listStack == []
        && OtherEffect(i, last, out0, lists0, p)
    }

    /** A rule: the paragraph, then `<hr>`; the stacks and the fence state stay. */
    ghost predicate RuleEffect(i: nat, last: nat, out0: seq<string>, stack0: seq<nat>, lists0: seq<ListEntry>,
                                p: Pending, inCode0: bool, lang0: string)
      requires i < |lines|
      reads this`out, this`stack, this`listStack, this`paraBuf, this`inCodeBlock, this`codeLang,
        this`inBlockquote, this`blockquoteBuf, this`inTable, this`tableBuf
    {
      var d := |stack0|;
      && last == i && stack == stack0 && listStack == lists0 && inCodeBlock == inCode0 && codeLang == lang0
      && Buffers() == p.(para := [])
      && out == out0 + Indented(d, ParagraphLines(p.para, inline)) + [Indent(d, RuleLine)]
    }

    /** A fence: the paragraph, then the line that opens or closes the code block; the stacks stay. */
    ghost predicate FenceEffect(i: nat, last: nat, out0: seq<string>, stack0: seq<nat>, lists0: seq<ListEntry>,
                                 p: Pending, inCode0: bool, lang0: string)
      requires i < |lines|
      reads this`out, this`stack, this`listStack, this`paraBuf, this`inCodeBlock, this`codeLang,
        this`inBlockquote, this`blockquoteBuf, this`inTable, this`tableBuf
    {
      var d := |stack0|;
      && IsFence(lines[i])
      && last == i && stack == stack0 && listStack == lists0 && inCodeBlock == !inCode0
      && codeLang == (if inCode0 then lang0 else FenceLanguage(lines[i]))
      && Buffers() == p.(para := [])
      && out == out0 + Indented(d, ParagraphLines(p.para, inline))
        + [Indent(d, if inCode0 then FenceClose else FenceOpen(FenceLanguage(lines[i])))]
    }

    /** A code line: the line escaped; nothing else changes. */
    ghost predicate CodeEffect(i: nat, last: nat, out0: seq<string>, stack0: seq<nat>, lists0: seq<ListEntry>,
                                p: Pending, inCode0: bool, lang0: string)
      requires i < |lines|
      reads this`out, this`stack, this`listStack, this`paraBuf, this`inCodeBlock, this`codeLang,
        this`inBlockquote, this`blockquoteBuf, this`inTable, this`tableBuf
    {
      && last == i && stack == stack0 && listStack == lists0 && inCodeBlock == inCode0 && codeLang == lang0
      && Buffers() == p
      && out == out0 + [Indent(|stack0|, EscapeHtml(lines[i]))]
    }

    /** A heading: the paragraph, the closed sections, the new section; the list stack stays. */
    ghost predicate HeadingEffect(i: nat, last: nat, out0: seq<string>, stack0: seq<nat>, lists0: seq<ListEntry>,
                                   p: Pending, inCode0: bool, lang0: string)
      requires i < |lines|
      reads this`out, this`stack, this`listStack, this`paraBuf, this`inCodeBlock, this`codeLang,
        this`inBlockquote, this`blockquoteBuf, this`inTable, this`tableBuf
    {
      && MatchHeading(lines[i]).Some?
      && var h := MatchHeading(lines[i]).value;
      var d := |stack0|;
      && last == i && listStack == lists0 && inCodeBlock == inCode0 && codeLang == lang0
      && stack == Unwind(stack0, h.level) + [h.level]
      && Buffers() == p.(para := [])
      && out == out0 + Indented(d, ParagraphLines(p.para, inline))
        + DetailsClosings(d, d - |Unwind(stack0, h.level)|)
        + Indented(|Unwind(stack0, h.level)|, [DetailsOpen(h.level), Summary(h.level, inline(h.text))])
    }

    /** A list item: the paragraph, the closed lists, an opened list, the item; the heading stack stays. */
    ghost predicate ItemEffect(i: nat, last: nat, out0: seq<string>, stack0: seq<nat>, lists0: seq<ListEntry>,
                                p: Pending, inCode0: bool, lang0: string)
      requires i < |lines|
      reads this`out, this`stack, this`listStack, this`paraBuf, this`inCodeBlock, this`codeLang,
        this`inBlockquote, this`blockquoteBuf, this`inTable, this`tableBuf
    {
      && MatchListItem(lines[i]).Some?
      && var it := MatchListItem(lines[i]).value;
      var level := ItemLevel(it.indent);
      var kept := UnwindLists(lists0, it.kind, level);
      var d := |stack0|;
      && last == i && stack == stack0 && inCodeBlock == inCode0 && codeLang == lang0
      && listStack == AfterItem(lists0, it.kind, level)
      && Buffers() == p.(para := [])
      && out == out0 + Indented(d, ParagraphLines(p.para, inline))
        + ListClosings(lists0[|kept|..], d)
        + (if OpensList(kept, level) then [Indent(d, ListOpen(it.kind))] else [])
        + [Indent(d, ListLine(inline(it.text)))]
    }


    /**
     * What a line that reaches converter.js:176 does, from the output, the
     * list stack and the buffers before it: the lists are closed, then an
     * alert takes the quote lines after it up to `last`, or else the line
     * goes on as `PlainEffect`.
     */
    ghost predicate OtherEffect(i: nat, last: nat, out0: seq<string>, lists0: seq<ListEntry>, p: Pending)
      requires i < |lines|
      reads this`out, this`stack, this`paraBuf, this`inBlockquote, this`blockquoteBuf, this`inTable, this`tableBuf
    {
      var closed := out0 + ListClosings(lists0, |stack|);
      if MatchCallout(lines[i]).Some? then
        var c := MatchCallout(lines[i]).value;
        AlertRun(lines, i, last) && Buffers() == p.(para := [])
        && out == closed + Indented(|stack|, ParagraphLines(p.para, inline))
          + Indented(|stack|, AlertLines(c.kind, [c.first] + QuoteContents(lines[i + 1..last + 1]), inline))
      else
        last == i && Buffers() == PlainEffect(lines[i], |stack|, p, inline).1
        && out == closed + PlainEffect(lines[i], |stack|, p, inline).0
    }

    /**
     * The rest of the main loop (converter.js:175-240), for a line that is no
     * rule, fence, code, heading or list item: closes the open lists, then
     * tries alerts, blockquotes, tables, blank lines and paragraph text.
     */
    method OtherLine(i: nat) returns (last: nat)
      requires Valid() && i < |lines|
      modifies this`out, this`marks, this`listStack, this`paraBuf, this`blockquoteBuf, this`inBlockquote, this`tableBuf, this`inTable
      ensures Valid() && listStack == []
      ensures i <= last < |lines|
      ensures last > i ==> MatchCallout(lines[i]).Some?
      ensures OtherEffect(i, last, old(out), old(listStack), old(Buffers()))
    {
      CloseLists();
      ghost var p := Buffers();
      var callout := MatchCallout(lines[i]);
      if callout.Some? {
        last := Alert(i, callout.value);
      } else {
        PlainLine(lines[i]);
        last := i;
      }
      assert p == old(Buffers());
    }

    /** converter.js:210-239: a quote line, a table row, a blank line or paragraph text. */
    method PlainLine(line: string)
      requires Valid()
      modifies this`out, this`marks, this`paraBuf, this`blockquoteBuf, this`inBlockquote, this`tableBuf, this`inTable
      ensures Valid()
      ensures out == old(out) + PlainEffect(line, |stack|, old(Buffers()), inline).0
      ensures Buffers() == PlainEffect(line, |stack|, old(Buffers()), inline).1
    {
      ghost var p := Buffers();
      var quote := QuoteContent(line);
      if quote.Some? {
        PlainEffectQuote(line, |stack|, p, inline);
        Quote(quote.value);
        assert Buffers() == p.(para := [], inQuote := true, quote := p.quote + [inline(quote.value)]);
      } else {
        NotQuote(line);
      }
    }

    /** converter.js:217-239: a line that is no quote ends a pending blockquote, then goes on as a row or text line. */
    method NotQuote(line: string)
      requires Valid() && QuoteContent(line).None?
      modifies this`out, this`marks, this`paraBuf, this`blockquoteBuf, this`inBlockquote, this`tableBuf, this`inTable
      ensures Valid()
      ensures out == old(out) + PlainEffect(line, |stack|, old(Buffers()), inline).0
      ensures Buffers() == PlainEffect(line, |stack|, old(Buffers()), inline).1
    {
      ghost var p := Buffers();
      PlainEffectNotQuote(line, |stack|, p, inline);
      ghost var quoted := if inBlockquote then [Indent(|stack|, BlockquoteLine(blockquoteBuf))] else [];
      EndQuote();
      ghost var mid := out;
      assert Buffers() == if p.inQuote then p.(inQuote := false, quote := []) else p;
      RowOrText(line);
      AppendAssoc(old(out), quoted, out[|mid|..]);
      assert out == mid + out[|mid|..];
    }

    /** `else if (inBlockquote)`: the blockquote ends at the first line that is no quote (converter.js:217-222). */
    method EndQuote()
      requires Valid()
      modifies this`out, this`marks, this`blockquoteBuf, this`inBlockquote
      ensures Valid() && !inBlockquote
      ensures out == old(out) + if old(inBlockquote) then [Indent(|stack|, BlockquoteLine(old(blockquoteBuf)))] else []
      ensures blockquoteBuf == if old(inBlockquote) then [] else old(blockquoteBuf)
    {
      if inBlockquote {
        FlushBlockquote();
      }
    }

    /** converter.js:224-239: a table row, a blank line or paragraph text. */
    method RowOrText(line: string)
      requires Valid()
      modifies this`out, this`marks, this`paraBuf, this`tableBuf, this`inTable
      ensures Valid()
      ensures out == old(out) + RowEffect(line, |stack|, old(Buffers()), inline).0
      ensures Buffers() == RowEffect(line, |stack|, old(Buffers()), inline).1
    {
      ghost var p := Buffers();
      if IsTableRow(line) {
        RowEffectRow(line, |stack|, p, inline);
        TableRow(line);
        assert Buffers() == p.(para := [], inTable := true, table := p.table + [line]);
      } else {
        RowEffectNotRow(line, |stack|, p, inline);
        NotRow(line);
        assert Buffers() == p.(para := if IsBlank(line) then [] else p.para + [line],
          inTable := p.inTable && p.table == [], table := if p.inTable then [] else p.table);
      }
    }

    /** converter.js:231-239: a line that is no table row ends a pending table, then goes on as a blank or text line. */
    method NotRow(line: string)
      requires Valid() && !IsTableRow(line)
      modifies this`out, this`marks, this`paraBuf, this`tableBuf, this`inTable
      ensures Valid()
      ensures out == old(out) + RowEffect(line, |stack|, old(Buffers()), inline).0
      ensures paraBuf == if IsBlank(line) then [] else old(paraBuf) + [line]
      ensures tableBuf == (if old(inTable) then [] else old(tableBuf))
      ensures inTable == (old(inTable) && old(tableBuf) == [])
    {
      ghost var p := Buffers();
      ghost var tabled := if inTable then Indented(|stack|, TableLines(tableBuf, inline)) else [];
      ghost var blank := if IsBlank(line) then Indented(|stack|, ParagraphLines(paraBuf, inline)) else [];
      RowEffectNotRow(line, |stack|, p, inline);
      EndTable();
      ghost var mid := out;
      BlankOrText(line);
      assert out == mid + blank;
      AppendAssoc(old(out), tabled, blank);
    }

    /** converter.js:236-239: a blank line flushes the paragraph; text joins it. */
    method BlankOrText(line: string)
      requires Valid()
      modifies this`out, this`marks, this`paraBuf
      ensures Valid()
      ensures out == old(out) + if IsBlank(line) then Indented(|stack|, ParagraphLines(old(paraBuf), inline)) else []
      ensures paraBuf == if IsBlank(line) then [] else old(paraBuf) + [line]
    {
      if IsBlank(line) {
        FlushParagraph();
      } else {
        paraBuf := paraBuf + [line];
      }
    }

    /** `else if (inTable) flushTable()` (converter.js:231-233). */
    method EndTable()
      requires Valid()
      modifies this`out, this`marks, this`tableBuf, this`inTable
      ensures Valid()
      ensures out == old(out) + if old(inTable) then Indented(|stack|, TableLines(old(tableBuf), inline)) else []
      ensures tableBuf == (if old(inTable) then [] else old(tableBuf))
      ensures inTable == (old(inTable) && old(tableBuf) == [])
    {
      if inTable {
        FlushTable();
      }
    }

    /**
     * The final cleanup (converter.js:243-245): closes the lists, flushes the
     * paragraph and closes the sections. A pending blockquote or table is
     * left in its buffer and never reaches the output.
     */
    method Finish()
      requires Valid()
      modifies this`out, this`marks, this`listStack, this`paraBuf, this`stack
      ensures Valid() && stack == [] && listStack == [] && paraBuf == []
      ensures out == old(out) + ListClosings(old(listStack), |old(stack)|)
        + Indented(|old(stack)|, ParagraphLines(old(paraBuf), inline))
        + DetailsClosings(|old(stack)|, |old(stack)|)
      ensures forall t :: CountIn(marks, Open(t)) == CountIn(marks, Close(t))
    {
      CloseLists();
      FlushParagraph();
      CloseHeadings();
      BalancedClosed(marks);
    }

    /** The main loop (converter.js:121-240), then the final cleanup. */
    method Run()
      requires Valid()
      modifies this
      ensures Valid() && stack == [] && listStack == [] && paraBuf == []
      ensures forall t :: CountIn(marks, Open(t)) == CountIn(marks, Close(t))
    {
      var i := 0;
      while i < |lines|
        invariant i <= |lines|
        invariant Valid()
        decreases |lines| - i
      {
        var last := Step(i);
        i := last + 1;
      }
      Finish();
    }
  }

  /**
   * `markdownToPrettyHtml`: the output lines joined by line breaks. Read from
   * the output lines alone, every section and every list it opens is closed,
   * as often as it is opened.
   */
  method MarkdownToPrettyHtml(md: string, inline: string -> string) returns (html: string, out: seq<string>)
    requires SafeInline(inline)
    ensures html == Join(out, "\n")
    ensures forall t :: CountIn(Classes(out), Open(t)) == CountIn(Classes(out), Close(t))
  {
    var c := new Converter(Lines(md), inline);
    c.Run();
    TaggedClasses(c.marks, c.out);
    out := c.out;
    html := Join(out, "\n");
  }
}
