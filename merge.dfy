/** `_merge_successive_inputs`: every run of consecutive code cells becomes one code
    cell whose source is the run's sources with a "\n" element between neighbours. */
module MergeInputs {
  import opened PyStrings
  import opened Cells

  /** What the loop has built after reading `cells`, defined one cell at a time as the
      loop reads them: a code cell that follows a code cell extends the last merged
      cell, any other cell is appended. */
  function Merged(cells: seq<Cell>): (r: seq<Cell>)
    ensures |r| <= |cells|
    ensures (r == []) == (cells == [])
    ensures cells != [] ==> r[|r| - 1].kind == cells[|cells| - 1].kind
    decreases |cells|
  {
    if cells == [] then []
    else
      var init := cells[..|cells| - 1];
      var c := cells[|cells| - 1];
      var prev := Merged(init);
      if init != [] && init[|init| - 1].kind == Code && c.kind == Code then
        var last := prev[|prev| - 1];
        prev[..|prev| - 1] + [last.(source := last.source + ["\n"] + c.source)]
      else
        prev + [c]
  }

  /** Reading cell `i` either extends the last merged cell or appends cell `i`. */
  lemma MergedStep(cells: seq<Cell>, i: nat)
    requires i < |cells|
    ensures var prev := Merged(cells[..i]);
            Merged(cells[..i + 1])
            == if i > 0 && cells[i - 1].kind == Code && cells[i].kind == Code
               then prev[..|prev| - 1] + [prev[|prev| - 1].(source := prev[|prev| - 1].source + ["\n"] + cells[i].source)]
               else prev + [cells[i]]
  {
    var upTo := cells[..i + 1];
    assert upTo[..i] == cells[..i] && upTo[i] == cells[i];
    assert i > 0 ==> cells[..i][i - 1] == cells[i - 1];
  }

  /** The loop of `_merge_successive_inputs`, with its `is_last_input` flag. */
  method MergeSuccessiveInputs(cells: seq<Cell>) returns (merged: seq<Cell>)
    ensures merged == Merged(cells)
  {
    merged := [];
    var isLastInput := false;
    for i := 0 to |cells|
      invariant merged == Merged(cells[..i])
      invariant isLastInput == (i > 0 && cells[i - 1].kind == Code)
    {
      var cell := cells[i];
      var isInput := cell.kind == Code;
      MergedStep(cells, i);
      if isLastInput && isInput {
        var last := merged[|merged| - 1];
        merged := merged[..|merged| - 1] + [last.(source := last.source + ["\n"] + cell.source)];
      } else {
        merged := merged + [cell];
      }
      isLastInput := isInput;
    }
    assert cells[..|cells|] == cells;
  }

  /** No two neighbouring cells are both code cells. */
  predicate NoAdjacentCode(cells: seq<Cell>)
  {
    forall i :: 0 <= i < |cells| - 1 ==> !(cells[i].kind == Code && cells[i + 1].kind == Code)
  }

  /** After merging, no two consecutive cells are code cells. */
  lemma {:induction false} MergedNoAdjacentCode(cells: seq<Cell>)
    ensures NoAdjacentCode(Merged(cells))
    decreases |cells|
  {
    if cells != [] {
      var init := cells[..|cells| - 1];
      var prev := Merged(init);
      MergedNoAdjacentCode(init);
      var r := Merged(cells);
      if init != [] && init[|init| - 1].kind == Code && cells[|cells| - 1].kind == Code {
        forall i | 0 <= i < |r| - 1
          ensures !(r[i].kind == Code && r[i + 1].kind == Code)
        {
          assert r[i] == prev[i];
        }
      } else {
        forall i | 0 <= i < |r| - 1
          ensures !(r[i].kind == Code && r[i + 1].kind == Code)
        {
          assert r[i] == prev[i];
          if i + 1 < |prev| {
            assert r[i + 1] == prev[i + 1];
          }
        }
      }
    }
  }

  /** The non-code cells of a list, in order. */
  function NonCode(cells: seq<Cell>): (r: seq<Cell>)
    ensures |r| <= |cells|
    ensures forall i :: 0 <= i < |r| ==> r[i].kind != Code
  {
    if cells == [] then []
    else
      var c := cells[|cells| - 1];
      NonCode(cells[..|cells| - 1]) + (if c.kind != Code then [c] else [])
  }

  lemma NonCodeSnoc(s: seq<Cell>, c: Cell)
    ensures NonCode(s + [c]) == NonCode(s) + (if c.kind != Code then [c] else [])
  {
    assert (s + [c])[..|s|] == s;
  }

  /** Merging keeps the non-code cells, unchanged and in the same order. */
  lemma {:induction false} MergedKeepsNonCode(cells: seq<Cell>)
    ensures NonCode(Merged(cells)) == NonCode(cells)
    decreases |cells|
  {
    if cells != [] {
      var init := cells[..|cells| - 1];
      var c := cells[|cells| - 1];
      var prev := Merged(init);
      MergedKeepsNonCode(init);
      if init != [] && init[|init| - 1].kind == Code && c.kind == Code {
        var last := prev[|prev| - 1];
        var front := prev[..|prev| - 1];
        assert prev == front + [last];
        NonCodeSnoc(front, last);
        NonCodeSnoc(front, last.(source := last.source + ["\n"] + c.source));
      } else {
        NonCodeSnoc(prev, c);
      }
    }
  }

  /** All sources of a list of cells, one after another. */
  function Sources(cells: seq<Cell>): seq<string>
  {
    if cells == [] then [] else Sources(cells[..|cells| - 1]) + cells[|cells| - 1].source
  }

  /** The sources of `cells` with a "\n" element inserted between every two
      consecutive code cells. */
  function SeparatedSources(cells: seq<Cell>): seq<string>
  {
    if cells == [] then []
    else
      var init := cells[..|cells| - 1];
      var c := cells[|cells| - 1];
      if init != [] && init[|init| - 1].kind == Code && c.kind == Code
      then SeparatedSources(init) + ["\n"] + c.source
      else SeparatedSources(init) + c.source
  }

  lemma SourcesSnoc(s: seq<Cell>, c: Cell)
    ensures Sources(s + [c]) == Sources(s) + c.source
  {
    assert (s + [c])[..|s|] == s;
  }

  /** Extending the last cell's source by "\n" and `extra` extends the sources alike. */
  lemma SourcesMerge(front: seq<Cell>, last: Cell, extra: seq<string>)
    ensures Sources(front + [last.(source := last.source + ["\n"] + extra)])
            == Sources(front + [last]) + ["\n"] + extra
  {
    SourcesSnoc(front, last);
    SourcesSnoc(front, last.(source := last.source + ["\n"] + extra));
  }

  /** No source content is lost or reordered: the merged cells hold exactly the
      original sources, with one "\n" element added at each merge point. */
  lemma {:induction false} MergedSources(cells: seq<Cell>)
    ensures Sources(Merged(cells)) == SeparatedSources(cells)
    decreases |cells|
  {
    if cells != [] {
      var init := cells[..|cells| - 1];
      var c := cells[|cells| - 1];
      var prev := Merged(init);
      MergedSources(init);
      if init != [] && init[|init| - 1].kind == Code && c.kind == Code {
        var last := prev[|prev| - 1];
        var front := prev[..|prev| - 1];
        assert prev == front + [last];
        SourcesMerge(front, last, c.source);
      } else {
        SourcesSnoc(prev, c);
      }
    }
  }

  /** The number of neighbouring pairs of code cells. */
  function CodePairs(cells: seq<Cell>): nat
  {
    if |cells| < 2 then 0
    else
      var n := |cells|;
      CodePairs(cells[..n - 1]) + (if cells[n - 2].kind == Code && cells[n - 1].kind == Code then 1 else 0)
  }

  /** Each neighbouring pair of code cells removes exactly one cell. */
  lemma {:induction false} MergedLength(cells: seq<Cell>)
    ensures |Merged(cells)| == |cells| - CodePairs(cells)
    decreases |cells|
  {
    if cells != [] {
      var init := cells[..|cells| - 1];
      MergedLength(init);
      var merges := init != [] && init[|init| - 1].kind == Code && cells[|cells| - 1].kind == Code;
      assert |Merged(cells)| == |Merged(init)| + (if merges then 0 else 1);
      if |cells| >= 2 {
        assert init[|init| - 1] == cells[|cells| - 2];
        assert CodePairs(cells) == CodePairs(init) + (if merges then 1 else 0);
      }
    }
  }

  /** A list without neighbouring code cells is left as it is. */
  lemma {:induction false} MergedNoAdjacentIsIdentity(cells: seq<Cell>)
    requires NoAdjacentCode(cells)
    ensures Merged(cells) == cells
    decreases |cells|
  {
    if cells != [] {
      var init := cells[..|cells| - 1];
      assert NoAdjacentCode(init) by {
        forall i | 0 <= i < |init| - 1
          ensures !(init[i].kind == Code && init[i + 1].kind == Code)
        {
          assert init[i] == cells[i] && init[i + 1] == cells[i + 1];
        }
      }
      MergedNoAdjacentIsIdentity(init);
      if init != [] {
        assert !(cells[|cells| - 2].kind == Code && cells[|cells| - 1].kind == Code);
      }
      assert init + [cells[|cells| - 1]] == cells;
    }
  }

  /** Merging twice is merging once. */
  lemma MergedIdempotent(cells: seq<Cell>)
    ensures Merged(Merged(cells)) == Merged(cells)
  {
    MergedNoAdjacentCode(cells);
    MergedNoAdjacentIsIdentity(Merged(cells));
  }

  /** Merging a list grown by one cell: the cell extends the last merged cell when
      both it and the cell before it are code cells, and is appended otherwise. */
  lemma MergedSnoc(s: seq<Cell>, c: Cell)
    ensures var prev := Merged(s);
            Merged(s + [c])
            == if s != [] && s[|s| - 1].kind == Code && c.kind == Code
               then prev[..|prev| - 1] + [prev[|prev| - 1].(source := prev[|prev| - 1].source + ["\n"] + c.source)]
               else prev + [c]
  {
    assert (s + [c])[..|s|] == s && (s + [c])[|s|] == c;
  }

  /** Growing the last cell of `x + y` grows the last cell of `y`. */
  lemma GrowLastOfAppend(x: seq<Cell>, y: seq<Cell>, c: Cell)
    requires y != []
    ensures var p := x + y;
            p[..|p| - 1] + [p[|p| - 1].(source := p[|p| - 1].source + ["\n"] + c.source)]
            == x + (y[..|y| - 1] + [y[|y| - 1].(source := y[|y| - 1].source + ["\n"] + c.source)])
  {
    var p := x + y;
    assert p[..|p| - 1] == x + y[..|y| - 1];
  }

  lemma AppendAssoc(x: seq<Cell>, y: seq<Cell>, z: seq<Cell>)
    ensures (x + y) + z == x + (y + z)
  {
  }

  /** When `s` merges to `x` followed by the merge of `t`, and both end alike in a
      code cell or not, growing both by one cell keeps that shape. */
  lemma MergedSnocBoth(s: seq<Cell>, t: seq<Cell>, x: seq<Cell>, c: Cell)
    requires Merged(s) == x + Merged(t)
    requires (s != [] && s[|s| - 1].kind == Code) == (t != [] && t[|t| - 1].kind == Code)
    ensures Merged(s + [c]) == x + Merged(t + [c])
  {
    MergedSnoc(s, c);
    MergedSnoc(t, c);
    if t != [] && t[|t| - 1].kind == Code && c.kind == Code {
      GrowLastOfAppend(x, Merged(t), c);
    } else {
      AppendAssoc(x, Merged(t), [c]);
    }
  }

  /** A non-code cell cuts the list: what follows it merges on its own. */
  lemma {:induction false} MergedCut(a: seq<Cell>, m: Cell, b: seq<Cell>)
    requires m.kind != Code
    ensures Merged(a + [m] + b) == Merged(a + [m]) + Merged(b)
    decreases |b|
  {
    if b == [] {
      assert a + [m] + b == a + [m];
    } else {
      var front, c := b[..|b| - 1], b[|b| - 1];
      var s := a + [m] + front;
      assert b == front + [c];
      AppendAssoc(a + [m], front, [c]);
      MergedCut(a, m, front);
      assert s[|s| - 1] == if front == [] then m else front[|front| - 1];
      MergedSnocBoth(s, front, Merged(a + [m]), c);
    }
  }

  /** Every cell is a code cell. */
  predicate AllCode(cells: seq<Cell>)
  {
    forall i :: 0 <= i < |cells| ==> cells[i].kind == Code
  }

  /** A run of code cells merges into one code cell holding the run's sources in
      order, with a "\n" element between the sources of neighbouring cells. */
  lemma {:induction false} MergedRun(run: seq<Cell>)
    requires run != [] && AllCode(run)
    ensures Merged(run) == [Cell(Code, SeparatedSources(run))]
    decreases |run|
  {
    var init, c := run[..|run| - 1], run[|run| - 1];
    assert run == init + [c];
    MergedSnoc(init, c);
    if init == [] {
      assert SeparatedSources(run) == c.source;
    } else {
      assert AllCode(init) by {
        forall i | 0 <= i < |init|
          ensures init[i].kind == Code
        {
          assert init[i] == run[i];
        }
      }
      MergedRun(init);
      assert init[|init| - 1].kind == Code && c.kind == Code;
      assert SeparatedSources(run) == SeparatedSources(init) + ["\n"] + c.source;
    }
  }

  /** Two consecutive code cells "a=1" and "b=2" merge into one code cell whose
      text is "a=1\nb=2": the merge adds a single line feed, not a blank line. */
  lemma MergeTwoCodeCells()
    ensures Merged([Cell(Code, ["a=1"]), Cell(Code, ["b=2"])]) == [Cell(Code, ["a=1", "\n", "b=2"])]
    ensures Concat(["a=1", "\n", "b=2"]) == "a=1\nb=2"
  {
    var cells := [Cell(Code, ["a=1"]), Cell(Code, ["b=2"])];
    assert cells[..1] == [Cell(Code, ["a=1"])];
    assert Merged(cells[..1]) == [Cell(Code, ["a=1"])] by {
      assert cells[..1][..0] == [];
    }
    assert cells[1].kind == Code && cells[..1][0].kind == Code;
    assert ["a=1"] + ["\n"] + ["b=2"] == ["a=1", "\n", "b=2"];
    assert Concat(["b=2"]) == "b=2" by { ConcatSingle("b=2"); }
    assert ["a=1", "\n", "b=2"][1..] == ["\n", "b=2"];
    assert ["\n", "b=2"][1..] == ["b=2"];
  }
}
