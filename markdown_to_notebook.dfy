/** Markdown to notebook: a renderer whose callbacks the Markdown parser invokes,
    and the notebook writer it fills with cells. */
module MarkdownToNotebook {
  import opened Wrappers
  import opened PyStrings
  import opened Cells

  /** `r` is `inner` between `open` and `close`; cutting the delimiters off gives `inner` back. */
  predicate Wraps(r: string, open: string, inner: string, close: string)
  {
    && |r| == |open| + |inner| + |close|
    && r[..|open|] == open
    && r[|open|..|open| + |inner|] == inner
    && r[|open| + |inner|..] == close
  }

  /** Python's `'%s' % v` for a value that is a string or None. */
  function Show(v: Option<string>): (r: string)
    ensures v == None ==> r == "None"
    ensures v.Some? ==> r == v.value
  {
    match v
    case None => "None"
    case Some(s) => s
  }

  // The text each cell-producing callback builds.

  /** `'```%s\n%s\n```' % (lang or '', code.strip())`: the stripped code
      re-wrapped in a fence tagged with `lang`. */
  function FencedText(code: string, lang: Option<string>): (r: string)
    ensures Wraps(r, OpenFence(lang), Strip(code), "\n```")
  {
    OpenFence(lang) + Strip(code) + "\n```"
  }

  /** The cell `block_code` appends: only a block tagged exactly "python" becomes a code
      cell, holding the code unchanged; any other tag, or none, gives a markdown cell
      with the stripped code re-fenced. */
  function BlockCodeCell(code: string, lang: Option<string>): (c: Cell)
    ensures c.kind == Code <==> lang == Some("python")
    ensures c.kind == Code ==> c.source == [code]
    ensures c.kind != Code ==> c == MarkdownCell(FencedText(code, lang))
  {
    if lang == Some("python") then CodeCell(code) else MarkdownCell(FencedText(code, lang))
  }

  /** Every line prefixed with "> ". */
  function QuoteLines(lines: seq<string>): (r: seq<string>)
    ensures |r| == |lines|
    ensures forall i :: 0 <= i < |r| ==> r[i] == "> " + lines[i]
  {
    seq(|lines|, i requires 0 <= i < |lines| => "> " + lines[i])
  }

  /** `block_quote`'s text: the input's lines, each prefixed with "> ". */
  function QuoteText(text: string): string
  {
    Join("\n", QuoteLines(Split(text, '\n')))
  }

  /** A quote has as many lines as its input, and line `i` is "> " then input line `i`. */
  lemma QuoteTextLines(text: string)
    ensures Split(QuoteText(text), '\n') == QuoteLines(Split(text, '\n'))
    ensures |Split(QuoteText(text), '\n')| == |Split(text, '\n')|
  {
    var q := QuoteLines(Split(text, '\n'));
    forall i | 0 <= i < |q| ensures '\n' !in q[i] {
      assert '\n' !in Split(text, '\n')[i];
    }
    SplitJoin(q, '\n');
  }

  /** A line without its leading "> ", if it has one. */
  function Unquote(line: string): string
  {
    if |line| >= 2 && line[..2] == "> " then line[2..] else line
  }

  /** Dropping "> " from every line of a quote gives back the quoted text. */
  lemma QuoteTextUnquotes(text: string)
    ensures var q := Split(QuoteText(text), '\n');
            Join("\n", seq(|q|, i requires 0 <= i < |q| => Unquote(q[i]))) == text
  {
    QuoteTextLines(text);
    var lines := Split(text, '\n');
    var q := Split(QuoteText(text), '\n');
    var unquoted := seq(|q|, i requires 0 <= i < |q| => Unquote(q[i]));
    assert unquoted == lines by {
      forall i | 0 <= i < |q| ensures unquoted[i] == lines[i] {
        assert q[i] == "> " + lines[i];
        assert q[i][..2] == "> " && q[i][2..] == lines[i];
      }
    }
    JoinSplit(text, '\n');
  }

  /** `header`'s text: `level` '#' characters (none when `level <= 0`), a space, the text. */
  function HeaderText(text: string, level: int): (r: string)
    ensures var n := if level <= 0 then 0 else level;
            && |r| == n + 1 + |text|
            && (forall i :: 0 <= i < n ==> r[i] == '#')
            && r[n] == ' '
            && r[n + 1..] == text
  {
    Repeat('#', level) + " " + text
  }

  /** The items of a list: its stripped body split at line feeds, so an empty body
      is one empty item. */
  function ListItems(body: string): (items: seq<string>)
    ensures |items| >= 1
    ensures Join("\n", items) == Strip(body)
  {
    JoinSplit(Strip(body), '\n');
    Split(Strip(body), '\n')
  }

  /** The marker in front of item `i`: "{i+1}. " when ordered, "* " otherwise. */
  function ListMarker(i: nat, ordered: bool): string
  {
    if ordered then DecimalString(i + 1) + ". " else "* "
  }

  function ListLines(items: seq<string>, ordered: bool): (r: seq<string>)
    ensures |r| == |items|
    ensures forall i :: 0 <= i < |r| ==> r[i] == ListMarker(i, ordered) + items[i]
  {
    seq(|items|, i requires 0 <= i < |items| => ListMarker(i, ordered) + items[i])
  }

  /** `list`'s text: one line per item, each behind its marker. */
  function ListText(body: string, ordered: bool): string
  {
    Join("\n", ListLines(ListItems(body), ordered))
  }

  lemma MarkerHasNoLineFeed(i: nat, ordered: bool)
    ensures '\n' !in ListMarker(i, ordered)
  {
    if ordered {
      var d := DecimalString(i + 1);
      assert forall k :: 0 <= k < |d| ==> d[k] != '\n';
      assert ListMarker(i, ordered) == d + ". ";
    }
  }

  /** Lines built from items without line feeds split back into those lines. */
  lemma ListLinesSplit(items: seq<string>, ordered: bool)
    requires |items| >= 1
    requires forall i :: 0 <= i < |items| ==> '\n' !in items[i]
    ensures Split(Join("\n", ListLines(items, ordered)), '\n') == ListLines(items, ordered)
  {
    var lines := ListLines(items, ordered);
    forall i | 0 <= i < |lines| ensures '\n' !in lines[i] {
      MarkerHasNoLineFeed(i, ordered);
      assert lines[i] == ListMarker(i, ordered) + items[i];
    }
    SplitJoin(lines, '\n');
  }

  /** A list's text has one line per item of its body, numbered consecutively from 1
      when ordered, bulleted with "* " otherwise. */
  lemma ListTextLines(body: string, ordered: bool)
    ensures var items := ListItems(body);
            var lines := Split(ListText(body, ordered), '\n');
            && |lines| == |items|
            && forall i :: 0 <= i < |items| ==> lines[i] == ListMarker(i, ordered) + items[i]
  {
    var items := ListItems(body);
    ListLinesSplit(items, ordered);
  }

  /** The markers of an ordered list read back as 1, 2, 3, ... */
  lemma OrderedMarkersCount(i: nat)
    ensures var m := ListMarker(i, true);
            && m[|m| - 2..] == ". "
            && DecimalValue(m[..|m| - 2]) == i + 1
  {
    var m := ListMarker(i, true);
    assert m[..|m| - 2] == DecimalString(i + 1);
    DecimalRoundTrip(i + 1);
  }

  /** An empty or blank body still gives one item, hence one marker line. */
  lemma BlankListIsOneEmptyItem(body: string, ordered: bool)
    requires forall i :: 0 <= i < |body| ==> IsSpace(body[i])
    ensures ListText(body, ordered) == (if ordered then "1. " else "* ")
  {
    assert Strip(body) == "";
    assert ListItems(body) == [""];
    var lines := ListLines([""], ordered);
    assert |lines| == 1;
    assert DecimalString(1) == "1";
    assert lines[0] == ListMarker(0, ordered) + "";
    assert Join("\n", lines) == lines[0];
  }

  lemma TwoItems()
    ensures ListItems("a\nb") == ["a", "b"]
  {
    var body := "a\nb";
    assert StripLeft(body) == body;
    assert StripRight(body) == body;
    assert Join("\n", ["a", "b"]) == body;
    SplitJoin(["a", "b"], '\n');
  }

  /** The bulleted list of items "a" and "b". */
  lemma BulletedExample()
    ensures ListText("a\nb", false) == "* a\n* b"
  {
    TwoItems();
    var bullets := ListLines(["a", "b"], false);
    assert bullets[0] == "* a" && bullets[1] == "* b";
    assert bullets == ["* a", "* b"];
  }

  /** The numbered list of items "a" and "b". */
  lemma NumberedExample()
    ensures ListText("a\nb", true) == "1. a\n2. b"
  {
    TwoItems();
    assert DecimalString(1) == "1" && DecimalString(2) == "2";
    var numbers := ListLines(["a", "b"], true);
    assert numbers[0] == "1. a" && numbers[1] == "2. b";
    assert numbers == ["1. a", "2. b"];
  }

  /** `NotebookWriter`: the notebook under construction, as its list of cells. */
  class NotebookWriter {
    var cells: seq<Cell>

    constructor ()
      ensures cells == []
    {
      cells := [];
    }

    /** Appends one markdown cell holding `source`; earlier cells are untouched. */
    method AppendMarkdown(source: string)
      modifies this
      ensures cells == old(cells) + [MarkdownCell(source)]
    {
      cells := cells + [MarkdownCell(source)];
    }

    /** Appends one code cell holding `source`; earlier cells are untouched. */
    method AppendCode(source: string)
      modifies this
      ensures cells == old(cells) + [CodeCell(source)]
    {
      cells := cells + [CodeCell(source)];
    }
  }

  /** `MyRenderer`: one member per Markdown construct. Block callbacks that produce a
      cell are methods that append exactly one cell to the writer; the others, and all
      inline callbacks, are functions and so cannot change the cell list. */
  class Renderer {
    const writer: NotebookWriter

    constructor ()
      ensures fresh(writer) && writer.cells == []
    {
      writer := new NotebookWriter();
    }

    method BlockCode(code: string, lang: Option<string>) returns (r: string)
      modifies writer
      ensures r == code
      ensures writer.cells == old(writer.cells) + [BlockCodeCell(code, lang)]
    {
      if lang == Some("python") {
        writer.AppendCode(code);
      } else {
        writer.AppendMarkdown(FencedText(code, lang));
      }
      r := code;
    }

    method BlockQuote(text: string) returns (r: string)
      modifies writer
      ensures r == QuoteText(text)
      ensures writer.cells == old(writer.cells) + [MarkdownCell(r)]
    {
      r := QuoteText(text);
      writer.AppendMarkdown(r);
    }

    method BlockHtml(html: string) returns (r: string)
      modifies writer
      ensures r == html
      ensures writer.cells == old(writer.cells) + [MarkdownCell(html)]
    {
      writer.AppendMarkdown(html);
      r := html;
    }

    method Header(text: string, level: int) returns (r: string)
      modifies writer
      ensures r == HeaderText(text, level)
      ensures writer.cells == old(writer.cells) + [MarkdownCell(r)]
    {
      r := HeaderText(text, level);
      writer.AppendMarkdown(r);
    }

    /** A horizontal rule produces no cell. */
    function Hrule(): (r: string)
      ensures r == ""
    {
      ""
    }

    method List(body: string, ordered: bool) returns (r: string)
      modifies writer
      ensures r == ListText(body, ordered)
      ensures writer.cells == old(writer.cells) + [MarkdownCell(r)]
    {
      r := ListText(body, ordered);
      writer.AppendMarkdown(r);
    }

    /** One line of a list body: the item followed by a line feed. */
    function ListItem(text: string): (r: string)
      ensures Wraps(r, "", text, "\n")
    {
      text + "\n"
    }

    method Paragraph(text: string) returns (r: string)
      modifies writer
      ensures r == text
      ensures writer.cells == old(writer.cells) + [MarkdownCell(text)]
    {
      writer.AppendMarkdown(text);
      r := text;
    }

    /** Tables and their rows, cells and autolinks produce no cell and return None. */
    function Table(header: string, body: string): (r: Option<string>)
      ensures r == None
    {
      None
    }

    function TableRow(content: string): (r: Option<string>)
      ensures r == None
    {
      None
    }

    function TableCell(content: string): (r: Option<string>)
      ensures r == None
    {
      None
    }

    function Autolink(link: string): (r: Option<string>)
      ensures r == None
    {
      None
    }

    function Codespan(text: string): (r: string)
      ensures Wraps(r, "`", text, "`")
    {
      "`" + text + "`"
    }

    function DoubleEmphasis(text: string): (r: string)
      ensures Wraps(r, "**", text, "**")
    {
      "**" + text + "**"
    }

    function Emphasis(text: string): (r: string)
      ensures Wraps(r, "*", text, "*")
    {
      "*" + text + "*"
    }

    /** The image's title, or its alt text when the title is None or empty, then its source. */
    function Image(src: string, title: Option<string>, altText: string): (r: string)
      ensures var shown := if title.Some? && title.value != "" then title.value else altText;
              Wraps(r, "![" + shown + "](", src, ")")
    {
      var shown := if title.Some? && title.value != "" then title.value else altText;
      "![" + shown + "](" + src + ")"
    }

    function Linebreak(): (r: string)
      ensures r == "\n"
    {
      "\n"
    }

    function Newline(): (r: string)
      ensures r == "\n"
    {
      "\n"
    }

    /** The link's content, or its title when the content is empty (written "None"
        when the title is None too), then its target. */
    function Link(link: string, title: Option<string>, content: string): (r: string)
      ensures var shown := if content != "" then content else Show(title);
              Wraps(r, "[" + shown + "](", link, ")")
      ensures content == "" && title == None ==> r == "[None](" + link + ")"
    {
      var shown := if content != "" then content else Show(title);
      "[" + shown + "](" + link + ")"
    }

    function Tag(html: string): (r: string)
      ensures r == html
    {
      html
    }

    function Strikethrough(text: string): (r: string)
      ensures Wraps(r, "~~", text, "~~")
    {
      "~~" + text + "~~"
    }

    function Text(text: string): (r: string)
      ensures r == text
    {
      text
    }
  }

  // `markdown_to_nb` with the parser replaced by the block events it reports, in
  // document order.

  datatype BlockEvent =
    | FencedCode(code: string, lang: Option<string>)
    | Quote(text: string)
    | Html(html: string)
    | Heading(text: string, level: int)
    | Rule
    | ListBlock(body: string, ordered: bool)
    | Para(text: string)
    | TableBlock(header: string, body: string)

  /** Whether the event's callback appends a cell. */
  predicate ProducesCell(e: BlockEvent)
  {
    !(e.Rule? || e.TableBlock?)
  }

  /** The cell an event's callback appends, if any. */
  function EventCell(e: BlockEvent): (c: Option<Cell>)
    ensures c.Some? <==> ProducesCell(e)
  {
    match e
    case FencedCode(code, lang) => Some(BlockCodeCell(code, lang))
    case Quote(text) => Some(MarkdownCell(QuoteText(text)))
    case Html(html) => Some(MarkdownCell(html))
    case Heading(text, level) => Some(MarkdownCell(HeaderText(text, level)))
    case Rule => None
    case ListBlock(body, ordered) => Some(MarkdownCell(ListText(body, ordered)))
    case Para(text) => Some(MarkdownCell(text))
    case TableBlock(_, _) => None
  }

  /** The cells of a sequence of events, in event order. */
  function EventCells(events: seq<BlockEvent>): seq<Cell>
  {
    if events == [] then []
    else
      var e := events[|events| - 1];
      EventCells(events[..|events| - 1]) + (if ProducesCell(e) then [EventCell(e).value] else [])
  }

  /** The parser's call of the one callback that handles `e`. */
  method Dispatch(r: Renderer, e: BlockEvent)
    modifies r.writer
    ensures r.writer.cells == old(r.writer.cells) + (if ProducesCell(e) then [EventCell(e).value] else [])
  {
    match e
    case FencedCode(code, lang) =>
      var _ := r.BlockCode(code, lang);
    case Quote(text) =>
      var _ := r.BlockQuote(text);
    case Html(html) =>
      var _ := r.BlockHtml(html);
    case Heading(text, level) =>
      var _ := r.Header(text, level);
    case Rule =>
      var _ := r.Hrule();
    case ListBlock(body, ordered) =>
      var _ := r.List(body, ordered);
    case Para(text) =>
      var _ := r.Paragraph(text);
    case TableBlock(header, body) =>
      var _ := r.Table(header, body);
  }

  /** Replays block events through a fresh renderer and returns the notebook's cells. */
  method Convert(events: seq<BlockEvent>) returns (cells: seq<Cell>)
    ensures cells == EventCells(events)
  {
    var r := new Renderer();
    for i := 0 to |events|
      invariant fresh(r.writer)
      invariant r.writer.cells == EventCells(events[..i])
    {
      assert events[..i + 1][..i] == events[..i];
      Dispatch(r, events[i]);
    }
    assert events[..|events|] == events;
    cells := r.writer.cells;
  }

  /** The number of events whose callback appends a cell. */
  function CountProducing(events: seq<BlockEvent>): nat
  {
    if events == [] then 0
    else CountProducing(events[..|events| - 1]) + (if ProducesCell(events[|events| - 1]) then 1 else 0)
  }

  /** Exactly one cell per cell-producing event. */
  lemma {:induction false} EventCellsCount(events: seq<BlockEvent>)
    ensures |EventCells(events)| == CountProducing(events)
  {
    if events != [] {
      EventCellsCount(events[..|events| - 1]);
    }
  }

  /** Cells come out in event order: the cells of `a + b` are those of `a`, then those of `b`. */
  lemma {:induction false} EventCellsAppend(a: seq<BlockEvent>, b: seq<BlockEvent>)
    ensures EventCells(a + b) == EventCells(a) + EventCells(b)
    decreases |b|
  {
    if b == [] {
      assert a + b == a;
    } else {
      var init := b[..|b| - 1];
      assert (a + b)[..|a + b| - 1] == a + init;
      EventCellsAppend(a, init);
    }
  }

  /** Horizontal rules and tables vanish from the notebook without an error. */
  lemma SuppressedEventsVanish(a: seq<BlockEvent>, e: BlockEvent, b: seq<BlockEvent>)
    requires !ProducesCell(e)
    ensures EventCells(a + [e] + b) == EventCells(a + b)
  {
    EventCellsAppend(a + [e], b);
    EventCellsAppend(a, [e]);
    EventCellsAppend(a, b);
    assert [e][..0] == [];
  }
}
