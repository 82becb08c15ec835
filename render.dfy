/**
 * The HTML that `markdownToPrettyHtml` emits for each kind of block, as lists
 * of output lines before `push` indents them. The parser's methods are proved
 * to append exactly these lines; the lemmas here say what the lines mean.
 */
module Render {
  import opened Strings
  import opened Blocks
  import opened Stacks

  /** Spaces of indentation per open heading (converter.js:1). */
  const IndentStep: nat := 2

  /** What `push` appends: the line indented by two spaces per open heading (converter.js:78). */
  function Indent(depth: nat, line: string): string {
    Spaces(IndentStep * depth) + line
  }

  /** Indentation is the only thing `push` adds: removing it gives a tag line back. */
  lemma IndentDedent(depth: nat, line: string)
    requires line == [] || line[0] != ' '
    ensures Dedent(Indent(depth, line)) == line
    ensures |Indent(depth, line)| == 2 * depth + |line|
  {
    DedentSpaces(IndentStep * depth, line);
  }

  /** Whatever the line, stripping the indentation `push` adds leaves the line stripped of its own leading spaces. */
  lemma DedentIndent(depth: nat, line: string)
    ensures Dedent(Indent(depth, line)) == Dedent(line)
  {
    DedentPad(IndentStep * depth, line);
  }

  /** Several lines pushed at the same depth. */
  function Indented(depth: nat, lines: seq<string>): seq<string> {
    seq(|lines|, k requires 0 <= k < |lines| => Indent(depth, lines[k]))
  }

  /** One more element taken from the front of a sequence. */
  lemma TakeStep(s: seq<string>, i: nat)
    requires i < |s|
    ensures s[..i + 1] == s[..i] + [s[i]]
  {
  }

  lemma AppendAssoc(a: seq<string>, b: seq<string>, c: seq<string>)
    ensures (a + b) + c == a + (b + c)
  {
  }

  lemma IndentedAppend(depth: nat, a: seq<string>, b: seq<string>)
    ensures Indented(depth, a + b) == Indented(depth, a) + Indented(depth, b)
  {
  }

  /** Appending one more line to lines already indented and written after `o`. */
  lemma IndentedExtend(o: seq<string>, depth: nat, a: seq<string>, x: string)
    ensures (o + Indented(depth, a)) + [Indent(depth, x)] == o + Indented(depth, a + [x])
  {
    assert Indented(depth, a + [x]) == Indented(depth, a) + [Indent(depth, x)];
    AppendAssoc(o, Indented(depth, a), [Indent(depth, x)]);
  }

  /** The inline renderer applied to each line of a buffer. */
  function Rendered(texts: seq<string>, inline: string -> string): seq<string> {
    seq(|texts|, k requires 0 <= k < |texts| => inline(texts[k]))
  }

  // ---------------------------------------------------------------- paragraphs

  /** Every line but the last ends in `<br>` (converter.js:92-94). */
  function BrLines(texts: seq<string>): seq<string> {
    seq(|texts|, k requires 0 <= k < |texts| => if k == |texts| - 1 then texts[k] else texts[k] + "<br>")
  }

  /** Joined by newlines, the `<br>`-terminated lines are the texts separated by `<br>` and a newline. */
  lemma {:induction false} BrJoin(texts: seq<string>)
    ensures Join(BrLines(texts), "\n") == Join(texts, "<br>\n")
    decreases |texts|
  {
    if |texts| >= 2 {
      var rest := BrLines(texts[1..]);
      assert BrLines(texts)[1..] == rest;
      BrJoin(texts[1..]);
      assert (texts[0] + "<br>") + "\n" == texts[0] + "<br>\n";
    }
  }

  /** `flushParagraph` (converter.js:89-98): nothing for an empty buffer, else `<p>`, the lines, `</p>`. */
  function ParagraphLines(buf: seq<string>, inline: string -> string): (r: seq<string>)
    ensures |r| == if buf == [] then 0 else |buf| + 2
  {
    if buf == [] then [] else ["<p>"] + BrLines(Rendered(buf, inline)) + ["</p>"]
  }

  /**
   * A flushed paragraph, read as text: the rendered lines in order, separated
   * by `<br>` and a line break, between `<p>` and `</p>` on lines of their own.
   */
  lemma ParagraphText(buf: seq<string>, inline: string -> string)
    requires buf != []
    ensures Join(ParagraphLines(buf, inline), "\n") == "<p>\n" + Join(Rendered(buf, inline), "<br>\n") + "\n</p>"
  {
    var body := BrLines(Rendered(buf, inline));
    JoinAppend(["<p>"], body, "\n");
    JoinAppend(["<p>"] + body, ["</p>"], "\n");
    BrJoin(Rendered(buf, inline));
    assert ParagraphLines(buf, inline) == ["<p>"] + body + ["</p>"];
  }

  // ---------------------------------------------------------------- blockquotes

  /** The single line a blockquote flushes to (converter.js:219). */
  function BlockquoteLine(buf: seq<string>): string {
    "<blockquote>" + Join(buf, "<br>\n") + "</blockquote>"
  }

  /** A blockquote carries its lines exactly as a paragraph carries its own. */
  lemma BlockquoteAsParagraph(buf: seq<string>)
    ensures BlockquoteLine(buf) == "<blockquote>" + Join(BrLines(buf), "\n") + "</blockquote>"
  {
    BrJoin(buf);
  }

  // ---------------------------------------------------------------- tables

  /** `.map(s=>s.trim())`. */
  function TrimAll(parts: seq<string>): seq<string> {
    seq(|parts|, k requires 0 <= k < |parts| => Trim(parts[k]))
  }

  /** `.filter(s=>s)`: the pieces that are not empty, in order. */
  function NonEmpty(parts: seq<string>): (r: seq<string>)
    ensures |r| <= |parts|
  {
    if parts == [] then [] else (if parts[0] == [] then [] else [parts[0]]) + NonEmpty(parts[1..])
  }

  /** The filter keeps exactly the non-empty pieces. */
  lemma {:induction false} NonEmptyMembers(parts: seq<string>)
    ensures forall x :: x in NonEmpty(parts) <==> x in parts && x != []
    decreases |parts|
  {
    if parts != [] {
      NonEmptyMembers(parts[1..]);
      assert parts == [parts[0]] + parts[1..];
    }
  }

  lemma {:induction false} NonEmptyAppend(a: seq<string>, b: seq<string>)
    ensures NonEmpty(a + b) == NonEmpty(a) + NonEmpty(b)
    decreases |a|
  {
    if a != [] {
      var head := if a[0] == [] then [] else [a[0]];
      assert (a + b)[0] == a[0] && (a + b)[1..] == a[1..] + b;
      NonEmptyAppend(a[1..], b);
      assert NonEmpty(a) == head + NonEmpty(a[1..]);
      assert NonEmpty(a + b) == head + NonEmpty(a[1..] + b);
      assert NonEmpty(a + b) == head + (NonEmpty(a[1..]) + NonEmpty(b));
    } else {
      assert a + b == b;
    }
  }

  lemma {:induction false} NonEmptyAll(parts: seq<string>)
    requires forall k :: 0 <= k < |parts| ==> parts[k] != []
    ensures NonEmpty(parts) == parts
    decreases |parts|
  {
    if parts != [] {
      NonEmptyAll(parts[1..]);
    }
  }

  /** A table cell: non-empty, without surrounding whitespace, without `|`. */
  predicate CleanCell(c: string) {
    c != [] && !IsSpace(c[0]) && !IsSpace(c[|c| - 1]) && '|' !in c
  }

  /** Clean and empty cells pass through the trim unchanged. */
  lemma TrimAllClean(cells: seq<string>)
    requires forall k :: 0 <= k < |cells| ==> cells[k] == [] || CleanCell(cells[k])
    ensures TrimAll(cells) == cells
  {
    forall k | 0 <= k < |cells| ensures Trim(cells[k]) == cells[k] {
      TrimTrimmed(cells[k]);
    }
  }

  /** The cells of a row (converter.js:103, 110). */
  function Cells(row: string): seq<string> {
    NonEmpty(TrimAll(Split(row, '|')))
  }

  /** Every cell is a trimmed, non-empty piece of the row between two bars, and every such piece is a cell. */
  lemma CellsMembers(row: string)
    ensures forall x :: x in Cells(row) <==> x != [] && exists p :: p in Split(row, '|') && x == Trim(p)
  {
    var parts := Split(row, '|');
    var trimmed := TrimAll(parts);
    NonEmptyMembers(trimmed);
    forall x | x in trimmed ensures exists p :: p in parts && x == Trim(p) {
      var k :| 0 <= k < |trimmed| && trimmed[k] == x;
      assert parts[k] in parts;
    }
    forall p | p in parts ensures Trim(p) in trimmed {
      var k :| 0 <= k < |parts| && parts[k] == p;
      assert trimmed[k] == Trim(p);
    }
  }

  /** The row `|c1|c2|...|` that a list of cells is written as. */
  function RowOf(cells: seq<string>): string {
    "|" + Join(cells, "|") + "|"
  }

  lemma RowOfSplit(cells: seq<string>)
    requires cells != [] && forall k :: 0 <= k < |cells| ==> '|' !in cells[k]
    ensures Split(RowOf(cells), '|') == [""] + cells + [""]
  {
    var parts := [""] + cells + [""];
    JoinAppend([""], cells, "|");
    JoinAppend([""] + cells, [""], "|");
    assert Join(parts, "|") == RowOf(cells);
    forall k | 0 <= k < |parts| ensures '|' !in parts[k] {
      if 0 < k < |parts| - 1 {
        assert parts[k] == cells[k - 1];
      }
    }
    SplitJoin(parts, '|');
  }

  /**
   * Written as a row, cells that are clean or empty are read back without the
   * empty ones: the leading and trailing bars add no cell, and an empty cell
   * anywhere is dropped rather than kept as a blank column.
   */
  lemma RowCells(cells: seq<string>)
    requires cells != [] && forall k :: 0 <= k < |cells| ==> cells[k] == [] || CleanCell(cells[k])
    ensures Cells(RowOf(cells)) == NonEmpty(cells)
  {
    BarredCells(cells);
    BarredNonEmpty(cells);
  }

  lemma BarredCells(cells: seq<string>)
    requires cells != [] && forall k :: 0 <= k < |cells| ==> cells[k] == [] || CleanCell(cells[k])
    ensures Cells(RowOf(cells)) == NonEmpty([""] + cells + [""])
  {
    var parts := [""] + cells + [""];
    RowOfSplit(cells);
    BarredClean(cells);
    TrimAllClean(parts);
  }

  lemma BarredNonEmpty(cells: seq<string>)
    ensures NonEmpty([""] + cells + [""]) == NonEmpty(cells)
  {
    NonEmptyBlank();
    NonEmptyAppend([""] + cells, [""]);
    NonEmptyAppend([""], cells);
  }

  lemma NonEmptyBlank()
    ensures NonEmpty([""]) == []
  {
    assert [""][1..] == [];
  }

  lemma BarredClean(cells: seq<string>)
    requires forall k :: 0 <= k < |cells| ==> cells[k] == [] || CleanCell(cells[k])
    ensures var parts := [""] + cells + [""]; forall k :: 0 <= k < |parts| ==> parts[k] == [] || CleanCell(parts[k])
  {
    var parts := [""] + cells + [""];
    forall k | 0 <= k < |parts| ensures parts[k] == [] || CleanCell(parts[k]) {
      if 0 < k < |parts| - 1 {
        assert parts[k] == cells[k - 1];
      }
    }
  }

  /** Clean cells are read back as the same cells. */
  lemma CleanRowCells(cells: seq<string>)
    requires cells != [] && forall k :: 0 <= k < |cells| ==> CleanCell(cells[k])
    ensures Cells(RowOf(cells)) == cells
  {
    RowCells(cells);
    NonEmptyAll(cells);
  }

  /** An empty cell in the middle of a row vanishes: the later cells move one column left. */
  lemma EmptyCellDropped(a: string, b: string)
    requires CleanCell(a) && CleanCell(b)
    ensures Cells(RowOf([a, "", b])) == [a, b]
  {
    RowCells([a, "", b]);
    NonEmptyAppend([a], ["", b]);
    NonEmptyAppend([""], [b]);
    NonEmptyBlank();
    NonEmptyAll([a]);
    NonEmptyAll([b]);
    assert [a] + ["", b] == [a, "", b];
    assert [""] + [b] == ["", b];
  }

  /** Each cell wrapped in its tags, the inline renderer applied to its text. */
  function CellTags(open: string, cells: seq<string>, close: string, inline: string -> string): string {
    Join(seq(|cells|, k requires 0 <= k < |cells| => open + inline(cells[k]) + close), "")
  }

  /** The header row (converter.js:106). */
  function HeaderRow(line: string, inline: string -> string): string {
    "<thead><tr>" + CellTags("<th>", Cells(line), "</th>", inline) + "</tr></thead>"
  }

  /** A body row (converter.js:110-111). */
  function BodyRow(line: string, inline: string -> string): string {
    "<tr>" + CellTags("<td>", Cells(line), "</td>", inline) + "</tr>"
  }

  function BodyRows(lines: seq<string>, inline: string -> string): seq<string> {
    seq(|lines|, k requires 0 <= k < |lines| => BodyRow(lines[k], inline))
  }

  lemma BodyRowsStep(lines: seq<string>, k: nat, inline: string -> string)
    requires k < |lines|
    ensures BodyRows(lines[..k + 1], inline) == BodyRows(lines[..k], inline) + [BodyRow(lines[k], inline)]
  {
  }

  /**
   * `flushTable` (converter.js:101-117): nothing for an empty buffer; else the
   * header from the first line, the second line skipped, and a `<tbody>` with
   * one row per remaining line when there is one.
   */
  function TableLines(buf: seq<string>, inline: string -> string): (r: seq<string>)
    ensures |r| == if buf == [] then 0 else if |buf| < 3 then 3 else |buf| + 3
  {
    if buf == [] then [] else ["<table>", HeaderRow(buf[0], inline)] + TableBody(buf, inline) + ["</table>"]
  }

  /** The `<tbody>` part: present only when a line follows the separator. */
  function TableBody(buf: seq<string>, inline: string -> string): (r: seq<string>)
    ensures |r| == if |buf| < 3 then 0 else |buf|
  {
    if |buf| < 3 then [] else ["<tbody>"] + BodyRows(buf[2..], inline) + ["</tbody>"]
  }

  /** The separator line is never rendered: whatever it holds, the table is the same. */
  lemma SeparatorIgnored(buf: seq<string>, x: string, inline: string -> string)
    requires |buf| >= 2
    ensures TableLines(buf[1 := x], inline) == TableLines(buf, inline)
  {
    assert buf[1 := x][2..] == buf[2..];
  }

  /** A table has a body exactly when its buffer holds a line after the separator. */
  lemma TableBodyPresent(buf: seq<string>, inline: string -> string)
    ensures "<tbody>" in TableLines(buf, inline) <==> |buf| >= 3
  {
    var r := TableLines(buf, inline);
    if buf != [] {
      assert HeaderRow(buf[0], inline)[2] == 'h';
      if |buf| >= 3 {
        assert r[2] == "<tbody>";
      } else {
        assert r == ["<table>", HeaderRow(buf[0], inline), "</table>"];
      }
    }
  }

  /** Line `3 + k` of a table with a body is the row for buffered line `k + 2`. */
  lemma TableRowsInOrder(buf: seq<string>, inline: string -> string, k: nat)
    requires 2 + k < |buf|
    ensures TableLines(buf, inline)[3 + k] == BodyRow(buf[2 + k], inline)
  {
    var body := TableBody(buf, inline);
    assert TableLines(buf, inline)[3 + k] == body[1 + k];
    assert body[1 + k] == BodyRows(buf[2..], inline)[k];
  }

  // ---------------------------------------------------------------- alerts

  /** The alert type with its first letter upper-cased (converter.js:204). */
  function AlertTitle(kind: AlertKind): string {
    var t := AlertType(kind);
    [AsciiUpper(t[0])] + t[1..]
  }

  lemma AlertTitles()
    ensures AlertTitle(Note) == "Note" && AlertTitle(Tip) == "Tip"
    ensures AlertTitle(Important) == "Important" && AlertTitle(Warning) == "Warning"
    ensures AlertTitle(Caution) == "Caution"
  {
    assert AlertType(Important)[1..] == "mportant";
    assert AlertType(Warning)[1..] == "arning";
    assert AlertType(Caution)[1..] == "aution";
  }

  /** The octicon class of each alert type (converter.js:185-189). */
  function OcticonName(kind: AlertKind): string {
    match kind
    case Note => "info"
    case Tip => "light-bulb"
    case Important => "report"
    case Warning => "alert"
    case Caution => "stop"
  }

  const IconHead: string := "<svg class=\"octicon octicon-"
  const IconTail: string := " mr-2\" viewBox=\"0 0 16 16\" version=\"1.1\" width=\"16\" height=\"16\" aria-hidden=\"true\"><path d=\"\"></path></svg>"

  /** The icon of an alert, with the path data of the octicon left out. */
  function AlertIcon(kind: AlertKind): string {
    IconHead + OcticonName(kind) + IconTail
  }

  /** `alertLines.filter(l => l.trim() !== '')` (converter.js:205). */
  function NonBlank(lines: seq<string>): (r: seq<string>)
    ensures |r| <= |lines|
    ensures forall x :: x in r <==> x in lines && Trim(x) != []
  {
    if lines == [] then []
    else (if Trim(lines[0]) == [] then [] else [lines[0]]) + NonBlank(lines[1..])
  }

  /** The body keeps exactly the lines that are not all whitespace. */
  lemma NonBlankDropsBlank(lines: seq<string>)
    ensures forall x :: x in NonBlank(lines) <==> x in lines && !AllSpace(x)
  {
    forall x ensures x in NonBlank(lines) <==> x in lines && !AllSpace(x) {
      TrimEmpty(x);
    }
  }

  const AlertOpenHead: string := "<div class=\"markdown-alert markdown-alert-"
  const AlertOpenTail: string := "\" dir=\"auto\">"
  const AlertTitleHead: string := "<p class=\"markdown-alert-title\" dir=\"auto\">"
  const AutoParagraph: string := "<p dir=\"auto\">"

  /** The four lines of an alert (converter.js:203-206). */
  function AlertLines(kind: AlertKind, body: seq<string>, inline: string -> string): (r: seq<string>)
    ensures |r| == 4
  {
    [ AlertOpenHead + AlertType(kind) + AlertOpenTail,
      AlertTitleHead + AlertIcon(kind) + AlertTitle(kind) + "</p>",
      AlertBody(body, inline),
      "</div>" ]
  }

  /** The alert's text: its non-blank lines rendered and joined by `<br>` on one line (converter.js:205). */
  function AlertBody(body: seq<string>, inline: string -> string): string {
    AutoParagraph + Join(Rendered(NonBlank(body), inline), "<br>") + "</p>"
  }

  /** An alert whose lines are all blank still has a body paragraph, an empty one. */
  lemma BlankAlertBody(body: seq<string>, inline: string -> string)
    requires forall k :: 0 <= k < |body| ==> AllSpace(body[k])
    ensures AlertBody(body, inline) == "<p dir=\"auto\"></p>"
  {
    NonBlankAllBlank(body);
    assert Rendered([], inline) == [];
  }

  lemma {:induction false} NonBlankAllBlank(lines: seq<string>)
    requires forall k :: 0 <= k < |lines| ==> AllSpace(lines[k])
    ensures NonBlank(lines) == []
    decreases |lines|
  {
    if lines != [] {
      TrimEmpty(lines[0]);
      NonBlankAllBlank(lines[1..]);
    }
  }

  // ---------------------------------------------------------------- headings, lists, code

  /** The start every `<details>` line of a heading shares. */
  const DetailsPrefix: string := "<details style=\"margin-left:"

  /** Opens a heading's section, indented by its level in em (converter.js:149). */
  function DetailsOpen(level: nat): (r: string)
    ensures StartsWith(r, DetailsPrefix) && r[0] == '<'
  {
    DetailsPrefix + NatToString(level) + "em\">"
  }

  /** The heading itself (converter.js:150). */
  function Summary(level: nat, html: string): string {
    "<summary><h" + NatToString(level) + ">" + html + "</h" + NatToString(level) + "></summary>"
  }

  const DetailsClose: string := "</details>"

  /**
   * Closing `count` sections of a stack of height `from`: each `</details>`
   * is pushed before its entry is popped, so the first is indented by `from`.
   */
  function DetailsClosings(from: nat, count: nat): seq<string>
    requires count <= from
  {
    seq(count, k requires 0 <= k < count => Indent(from - k, DetailsClose))
  }

  lemma DetailsClosingsStep(from: nat, count: nat)
    requires count < from
    ensures DetailsClosings(from, count + 1) == DetailsClosings(from, count) + [Indent(from - count, DetailsClose)]
  {
  }

  function ListOpen(kind: ListKind): string {
    "<" + TagName(kind) + ">"
  }

  function ListClose(kind: ListKind): string {
    "</" + TagName(kind) + ">"
  }

  function ListLine(html: string): string {
    "<li>" + html + "</li>"
  }

  /** Closing the lists `popped`, top first, at the same depth (converter.js:164-166, 176, 243). */
  function ListClosings(popped: seq<ListEntry>, depth: nat): seq<string> {
    seq(|popped|, k requires 0 <= k < |popped| => Indent(depth, ListClose(popped[|popped| - 1 - k].kind)))
  }

  /** Popping the entry below the ones already closed adds its closing tag last. */
  lemma ListClosingsStep(entries: seq<ListEntry>, m: nat, depth: nat)
    requires 0 < m <= |entries|
    ensures ListClosings(entries[m - 1..], depth)
      == ListClosings(entries[m..], depth) + [Indent(depth, ListClose(entries[m - 1].kind))]
  {
  }

  function FenceOpen(lang: string): string {
    "<pre><code class=\"" + lang + "\">"
  }

  const FenceClose: string := "</code></pre>"

  const RuleLine: string := "<hr>"
}
