/** The two directions together: cells that go out as Markdown and come back
    through the renderer serialize to the same Markdown again. */
module RoundTrip {
  import opened Wrappers
  import opened PyStrings
  import opened Cells
  import opened NotebookToMarkdown
  import opened MarkdownToNotebook

  /** The block event a cell's fragment comes back as when the parser reads it as
      one python fence or one paragraph. */
  function ParsedEvent(c: Cell): (e: BlockEvent)
    ensures ProducesCell(e)
  {
    if c.kind == Code then FencedCode(Concat(c.source), Some("python")) else Para(Concat(c.source))
  }

  /** A code cell of a python notebook: its fence, rendered back, gives a code cell
      holding the same text, which serializes to the same fragment. */
  lemma CodeCellRoundTrip(c: Cell)
    requires c.kind == Code
    ensures EventCell(ParsedEvent(c)) == Some(CodeCell(Concat(c.source)))
    ensures ProcessCell(EventCell(ParsedEvent(c)).value, Some("python")) == ProcessCell(c, Some("python"))
  {
    ConcatSingle(Concat(c.source));
  }

  /** A markdown cell read back as a paragraph serializes to the same fragment. */
  lemma MarkdownCellRoundTrip(c: Cell, lang: Option<string>)
    requires c.kind == Markdown
    ensures ProcessCell(EventCell(ParsedEvent(c)).value, lang) == ProcessCell(c, lang)
  {
    ConcatSingle(Concat(c.source));
  }

  /** "## Title" becomes one markdown cell "## Title", whose fragment is that line. */
  lemma HeadingRoundTrip()
    ensures EventCells([Heading("Title", 2)]) == [MarkdownCell("## Title")]
    ensures ProcessCellMarkdown(MarkdownCell("## Title")) == "## Title\n"
  {
    assert Repeat('#', 2) == "##";
    assert HeaderText("Title", 2) == "## Title";
    assert [Heading("Title", 2)][..0] == [];
    ConcatSingle("## Title");
  }

  lemma {:induction false} FragmentsPointwise(a: seq<Cell>, b: seq<Cell>, lang: string)
    requires |a| == |b|
    requires forall i :: 0 <= i < |a| ==> ProcessCell(a[i], Some(lang)) == ProcessCell(b[i], Some(lang))
    ensures Fragments(a, lang) == Fragments(b, lang)
  {
    if a != [] {
      assert ProcessCell(a[0], Some(lang)) == ProcessCell(b[0], Some(lang));
      FragmentsPointwise(a[1..], b[1..], lang);
    }
  }

  lemma {:induction false} EventCellsAllProducing(events: seq<BlockEvent>)
    requires forall i :: 0 <= i < |events| ==> ProducesCell(events[i])
    ensures |EventCells(events)| == |events|
    ensures forall i :: 0 <= i < |events| ==> EventCells(events)[i] == EventCell(events[i]).value
  {
    if events != [] {
      var init := events[..|events| - 1];
      var last := events[|events| - 1];
      EventCellsAllProducing(init);
      assert ProducesCell(last);
      var r := EventCells(events);
      assert r == EventCells(init) + [EventCell(last).value];
      forall i | 0 <= i < |events|
        ensures r[i] == EventCell(events[i]).value
      {
        if i < |init| {
          assert r[i] == EventCells(init)[i];
          assert events[i] == init[i];
        }
      }
    }
  }

  /** Re-serialization is idempotent. Take a python notebook (declared so, or without
      language metadata) of markdown and code cells, and suppose the parser reports
      each fragment as one paragraph or one python fence: the notebook the renderer
      builds serializes to the same Markdown. */
  lemma ReserializeIsIdentity(nb: Notebook)
    requires Language(nb) == "python"
    requires OnlyKnownCells(nb.cells)
    ensures var events := seq(|nb.cells|, i requires 0 <= i < |nb.cells| => ParsedEvent(nb.cells[i]));
            NbToMarkdown(nb.(cells := EventCells(events))) == NbToMarkdown(nb)
  {
    var events := seq(|nb.cells|, i requires 0 <= i < |nb.cells| => ParsedEvent(nb.cells[i]));
    EventCellsAllProducing(events);
    var back := EventCells(events);
    forall i | 0 <= i < |nb.cells|
      ensures ProcessCell(back[i], Some("python")) == ProcessCell(nb.cells[i], Some("python"))
    {
      if nb.cells[i].kind == Code {
        CodeCellRoundTrip(nb.cells[i]);
      } else {
        MarkdownCellRoundTrip(nb.cells[i], Some("python"));
      }
    }
    FragmentsPointwise(back, nb.cells, "python");
  }
}
