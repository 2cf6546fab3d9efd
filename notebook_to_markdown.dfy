/** Notebook to Markdown: each cell becomes a Markdown fragment and the
    fragments are joined with a line feed. */
module NotebookToMarkdown {
  import opened Wrappers
  import opened PyStrings
  import opened Cells

  /** What the converter reads from a notebook's JSON: `nbformat`, `cells`, and
      `metadata.language_info.name` (None when either key is absent). */
  datatype Notebook = Notebook(nbformat: int, cells: seq<Cell>, languageName: Option<string>)

  datatype ConvertError =
    | UnsupportedFormat   // `assert nb['nbformat'] >= 4` fails
    | NonStringFragment   // `'\n'.join` meets the None of a cell that is neither markdown nor code

  /** A markdown cell's fragment: its source text unchanged, then exactly one line feed. */
  function ProcessCellMarkdown(cell: Cell): (r: string)
    ensures |r| == |Concat(cell.source)| + 1
    ensures r[..|r| - 1] == Concat(cell.source) && r[|r| - 1] == '\n'
    ensures cell.source == [] ==> r == "\n"
  {
    Concat(cell.source) + "\n"
  }

  /** A code cell's fragment: an opening fence tagged with `lang`, the source text
      unchanged, then a closing fence followed by a line feed. */
  function ProcessCellInput(cell: Cell, lang: Option<string>): (r: string)
    ensures |r| == |OpenFence(lang)| + |Concat(cell.source)| + 5
    ensures r[..|OpenFence(lang)|] == OpenFence(lang)
    ensures r[|OpenFence(lang)|..|r| - 5] == Concat(cell.source)
    ensures r[|r| - 5..] == "\n```\n"
  {
    OpenFence(lang) + Concat(cell.source) + "\n```\n"
  }

  /** The fragment of one cell; None (Python's implicit `None`) for any other cell type. */
  function ProcessCell(cell: Cell, lang: Option<string>): (r: Option<string>)
    ensures r.Some? <==> cell.kind != Other
    ensures r.Some? ==> |r.value| > 0 && r.value[|r.value| - 1] == '\n'
  {
    match cell.kind
    case Markdown => Some(ProcessCellMarkdown(cell))
    case Code => Some(ProcessCellInput(cell, lang))
    case Other => None
  }

  /** The notebook's language: `metadata.language_info.name`, "python" when absent. */
  function Language(nb: Notebook): (lang: string)
    ensures nb.languageName == None ==> lang == "python"
    ensures nb.languageName.Some? ==> lang == nb.languageName.value
  {
    match nb.languageName
    case None => "python"
    case Some(l) => l
  }

  /** The list `[f(c) for c in cells]` as `'\n'.join` accepts it: the strings when
      every element is one, None as soon as one element is None. */
  function Collect(cells: seq<Cell>, f: Cell -> Option<string>): (r: Option<seq<string>>)
    ensures r.Some? ==> |r.value| == |cells|
  {
    if cells == [] then Some([])
    else
      var x := f(cells[0]);
      var xs := Collect(cells[1..], f);
      if x.Some? && xs.Some? then Some([x.value] + xs.value) else None
  }

  /** The collected list of `[c] + t`: the string of `c` in front of those of `t`. */
  lemma CollectCons(c: Cell, t: seq<Cell>, f: Cell -> Option<string>)
    ensures Collect([c] + t, f)
            == if f(c).Some? && Collect(t, f).Some? then Some([f(c).value] + Collect(t, f).value) else None
  {
    assert ([c] + t)[0] == c && ([c] + t)[1..] == t;
  }

  /** Collecting `a + b` is collecting `a`, then `b`. */
  lemma {:induction false} CollectAppend(a: seq<Cell>, b: seq<Cell>, f: Cell -> Option<string>)
    requires Collect(a, f).Some? && Collect(b, f).Some?
    ensures Collect(a + b, f) == Some(Collect(a, f).value + Collect(b, f).value)
  {
    if a == [] {
      assert a + b == b;
      assert Collect(a, f).value + Collect(b, f).value == Collect(b, f).value;
    } else {
      var c, t := a[0], a[1..];
      assert a == [c] + t;
      assert a + b == [c] + (t + b);
      CollectCons(c, t, f);
      CollectAppend(t, b, f);
      CollectCons(c, t + b, f);
      assert [f(c).value] + (Collect(t, f).value + Collect(b, f).value)
             == ([f(c).value] + Collect(t, f).value) + Collect(b, f).value;
    }
  }

  /** Element `i` of the collected list is `f` of element `i`. */
  lemma {:induction false} CollectAt(cells: seq<Cell>, f: Cell -> Option<string>, i: nat)
    requires Collect(cells, f).Some? && i < |cells|
    ensures f(cells[i]) == Some(Collect(cells, f).value[i])
  {
    if i > 0 {
      CollectAt(cells[1..], f, i - 1);
    }
  }

  /** The collected list exists exactly when `f` yields a string for every element. */
  lemma {:induction false} CollectDefined(cells: seq<Cell>, f: Cell -> Option<string>)
    ensures Collect(cells, f).Some? <==> forall i :: 0 <= i < |cells| ==> f(cells[i]).Some?
  {
    if cells != [] {
      CollectDefined(cells[1..], f);
      if forall i :: 0 <= i < |cells| ==> f(cells[i]).Some? {
        forall i | 0 <= i < |cells| - 1
          ensures f(cells[1..][i]).Some?
        {
          assert cells[1..][i] == cells[i + 1];
        }
      }
      if f(cells[0]).Some? && Collect(cells[1..], f).Some? {
        forall i | 0 <= i < |cells|
          ensures f(cells[i]).Some?
        {
          if i > 0 { assert cells[i] == cells[1..][i - 1]; }
        }
      }
    }
  }

  /** The list `[process_cell(c, lang=lang) for c in cells]` as `'\n'.join` accepts it. */
  function Fragments(cells: seq<Cell>, lang: string): (r: Option<seq<string>>)
    ensures r.Some? ==> |r.value| == |cells|
  {
    Collect(cells, c => ProcessCell(c, Some(lang)))
  }

  /** The fragment list is all strings exactly when every cell is markdown or code. */
  lemma FragmentsDefined(cells: seq<Cell>, lang: string)
    ensures Fragments(cells, lang).Some? <==> OnlyKnownCells(cells)
  {
    CollectDefined(cells, c => ProcessCell(c, Some(lang)));
  }

  /** Fragment `i` of the list is the fragment of cell `i`. */
  lemma FragmentsAt(cells: seq<Cell>, lang: string, i: nat)
    requires Fragments(cells, lang).Some? && i < |cells|
    ensures ProcessCell(cells[i], Some(lang)) == Some(Fragments(cells, lang).value[i])
  {
    CollectAt(cells, c => ProcessCell(c, Some(lang)), i);
  }

  /** `nb_to_markdown` without the file reading and writing. */
  function NbToMarkdown(nb: Notebook): (r: Result<string, ConvertError>)
    ensures r == Err(UnsupportedFormat) <==> nb.nbformat < 4
    ensures r == Err(NonStringFragment) <==>
              nb.nbformat >= 4 && !OnlyKnownCells(nb.cells)
    ensures r.Ok? ==> Fragments(nb.cells, Language(nb)).Some?
    ensures r.Ok? ==> r.value == Join("\n", Fragments(nb.cells, Language(nb)).value)
  {
    if nb.nbformat < 4 then Err(UnsupportedFormat)
    else
      FragmentsDefined(nb.cells, Language(nb));
      match Fragments(nb.cells, Language(nb))
      case None => Err(NonStringFragment)
      case Some(fs) => Ok(Join("\n", fs))
  }

  /** The fragments of `a + b` are those of `a` followed by those of `b`. */
  lemma FragmentsAppend(a: seq<Cell>, b: seq<Cell>, lang: string)
    requires Fragments(a, lang).Some? && Fragments(b, lang).Some?
    ensures Fragments(a + b, lang) == Some(Fragments(a, lang).value + Fragments(b, lang).value)
  {
    CollectAppend(a, b, c => ProcessCell(c, Some(lang)));
  }

  /** Serializing a notebook whose cells are `a` followed by `b` gives the Markdown of
      `a`, a line feed, then the Markdown of `b`: fragments come out in cell order. */
  lemma NbToMarkdownAppend(nb: Notebook, a: seq<Cell>, b: seq<Cell>)
    requires nb.cells == a + b && a != [] && b != []
    requires NbToMarkdown(nb).Ok?
    ensures NbToMarkdown(nb.(cells := a)).Ok? && NbToMarkdown(nb.(cells := b)).Ok?
    ensures NbToMarkdown(nb).value
            == NbToMarkdown(nb.(cells := a)).value + "\n" + NbToMarkdown(nb.(cells := b)).value
  {
    var lang := Language(nb);
    assert forall i :: 0 <= i < |a| ==> a[i] == nb.cells[i];
    assert forall i :: 0 <= i < |b| ==> b[i] == nb.cells[|a| + i];
    FragmentsDefined(a, lang);
    FragmentsDefined(b, lang);
    FragmentsAppend(a, b, lang);
    JoinAppend("\n", Fragments(a, lang).value, Fragments(b, lang).value);
  }

  /** A notebook of one cell serializes to that cell's fragment alone. */
  lemma NbToMarkdownSingle(nb: Notebook)
    requires nb.nbformat >= 4 && |nb.cells| == 1 && nb.cells[0].kind != Other
    ensures NbToMarkdown(nb) == Ok(ProcessCell(nb.cells[0], Some(Language(nb))).value)
  {
    var lang := Language(nb);
    assert nb.cells == [nb.cells[0]] + [];
    CollectCons(nb.cells[0], [], c => ProcessCell(c, Some(lang)));
  }

  /** A code cell of a notebook without language metadata is fenced as python. */
  lemma DefaultLanguageIsPython(nb: Notebook, i: nat)
    requires nb.languageName == None && i < |nb.cells| && nb.cells[i].kind == Code
    ensures ProcessCell(nb.cells[i], Some(Language(nb))).value[..10] == "```python\n"
  {
    assert OpenFence(Some("python")) == "```python\n";
  }

  /** The fence of a python notebook's one-line code cell. */
  lemma FenceExample()
    ensures NbToMarkdown(Notebook(4, [Cell(Code, ["x = 1"])], Some("python")))
            == Ok("```python\nx = 1\n```\n")
  {
    var nb := Notebook(4, [Cell(Code, ["x = 1"])], Some("python"));
    ConcatSingle("x = 1");
    assert Language(nb) == "python";
    NbToMarkdownSingle(nb);
    assert OpenFence(Some("python")) == "```python\n";
    assert ProcessCellInput(nb.cells[0], Some("python")) == "```python\n" + "x = 1" + "\n```\n";
    assert "```python\n" + "x = 1" + "\n```\n" == "```python\nx = 1\n```\n";
  }

  // Corrected serializer: cells of any other type are left out instead of
  // reaching `'\n'.join` as None.

  /** The fragments of the markdown and code cells, in cell order. */
  function KnownFragments(cells: seq<Cell>, lang: string): (r: seq<string>)
    ensures |r| <= |cells|
  {
    if cells == [] then []
    else
      match ProcessCell(cells[0], Some(lang))
      case Some(f) => [f] + KnownFragments(cells[1..], lang)
      case None => KnownFragments(cells[1..], lang)
  }

  /** The cells a corrected serializer keeps: those that are markdown or code. */
  function KnownCells(cells: seq<Cell>): (r: seq<Cell>)
    ensures |r| <= |cells|
    ensures OnlyKnownCells(r)
  {
    if cells == [] then []
    else if cells[0].kind != Other then [cells[0]] + KnownCells(cells[1..])
    else KnownCells(cells[1..])
  }

  /** Serialization that drops cells of other types; it fails only on an old format. */
  function NbToMarkdownDropping(nb: Notebook): (r: Result<string, ConvertError>)
    ensures r.Err? <==> nb.nbformat < 4
    ensures r.Err? ==> r.error == UnsupportedFormat
  {
    if nb.nbformat < 4 then Err(UnsupportedFormat)
    else Ok(Join("\n", KnownFragments(nb.cells, Language(nb))))
  }

  lemma {:induction false} KnownFragmentsOfKnownCells(cells: seq<Cell>, lang: string)
    ensures Fragments(KnownCells(cells), lang) == Some(KnownFragments(cells, lang))
  {
    if cells != [] {
      KnownFragmentsOfKnownCells(cells[1..], lang);
      if cells[0].kind != Other {
        assert ([cells[0]] + KnownCells(cells[1..]))[1..] == KnownCells(cells[1..]);
      }
    }
  }

  /** The corrected serializer is the original one applied to the markdown and code
      cells alone; on a notebook holding only such cells the two agree. */
  lemma DroppingIsOriginalOnKnownCells(nb: Notebook)
    requires nb.nbformat >= 4
    ensures NbToMarkdownDropping(nb) == NbToMarkdown(nb.(cells := KnownCells(nb.cells)))
  {
    KnownFragmentsOfKnownCells(nb.cells, Language(nb));
  }

  lemma {:induction false} KnownCellsOfKnown(cells: seq<Cell>)
    requires OnlyKnownCells(cells)
    ensures KnownCells(cells) == cells
  {
    if cells != [] {
      KnownCellsOfKnown(cells[1..]);
      assert cells == [cells[0]] + cells[1..];
    }
  }

  /** Filtering `a + b` filters `a`, then `b`. */
  lemma {:induction false} KnownCellsAppend(a: seq<Cell>, b: seq<Cell>)
    ensures KnownCells(a + b) == KnownCells(a) + KnownCells(b)
  {
    if a == [] {
      assert a + b == b;
    } else {
      assert (a + b)[0] == a[0] && (a + b)[1..] == a[1..] + b;
      KnownCellsAppend(a[1..], b);
    }
  }

  /** One cell is kept exactly when it is a markdown or a code cell. */
  lemma KnownCellsSingle(c: Cell)
    ensures KnownCells([c]) == if c.kind != Other then [c] else []
  {
    assert [c][1..] == [];
  }

  /** The corrected serializer ignores a cell of another type wherever it stands:
      the notebook without it gives the same Markdown. */
  lemma DroppingIgnoresOtherCell(nb: Notebook, a: seq<Cell>, o: Cell, b: seq<Cell>)
    requires o.kind == Other
    ensures NbToMarkdownDropping(nb.(cells := a + [o] + b)) == NbToMarkdownDropping(nb.(cells := a + b))
  {
    if nb.nbformat >= 4 {
      KnownCellsAppend(a + [o], b);
      KnownCellsAppend(a, [o]);
      KnownCellsAppend(a, b);
      KnownCellsSingle(o);
      assert KnownCells(a) + [] == KnownCells(a);
      DroppingIsOriginalOnKnownCells(nb.(cells := a + [o] + b));
      DroppingIsOriginalOnKnownCells(nb.(cells := a + b));
    }
  }

  lemma DroppingAgreesWithoutOtherCells(nb: Notebook)
    requires OnlyKnownCells(nb.cells)
    ensures NbToMarkdownDropping(nb) == NbToMarkdown(nb)
  {
    if nb.nbformat >= 4 {
      KnownCellsOfKnown(nb.cells);
      DroppingIsOriginalOnKnownCells(nb);
      assert nb.(cells := nb.cells) == nb;
    }
  }

  /** A version 4 notebook with one raw cell: the code as written fails in the join,
      the corrected serializer yields the empty document. */
  lemma RawCellBreaksSerialization()
    ensures NbToMarkdown(Notebook(4, [Cell(Other, ["x"])], None)) == Err(NonStringFragment)
    ensures NbToMarkdownDropping(Notebook(4, [Cell(Other, ["x"])], None)) == Ok("")
  {
    var nb := Notebook(4, [Cell(Other, ["x"])], None);
    assert nb.cells[0].kind == Other;
    assert KnownFragments(nb.cells, "python") == KnownFragments([], "python");
  }
}
