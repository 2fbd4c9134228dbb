/** `CustomPreprocessor` of run.py and fabfile.py: drop blank code cells and strip the
    source of the others, by popping from the cell list while enumerating it.

    Python's list iterator keeps its position when an element is popped under it, so the
    cell that slides into the popped slot is never looked at: it is kept exactly as it
    was, even if it is blank itself. Each input cell therefore has one of three fates. */
module Cells {
  import opened Text
  import opened Notebook

  /** run.py's removal test: `cell.cell_type == 'code' and not cell.source`. */
  predicate BlankRun(c: Cell) {
    c.kind == CodeCell && c.source == []
  }

  /** fabfile.py's removal test:
      `cell.cell_type == 'code' and (not cell.outputs or not cell.source)`. */
  predicate BlankFab(c: Cell) {
    c.kind == CodeCell && (c.outputs == [] || c.source == [])
  }

  /** `preprocess_cell`, identical in both files: code cells get their source stripped. */
  function Tidy(c: Cell): Cell {
    if c.kind == CodeCell then c.(source := Strip(c.source)) else c
  }

  datatype Fate =
    | Visited   // checked, kept, passed through preprocess_cell
    | Popped    // checked and removed
    | Skipped   // slid into the slot of a popped cell: kept untouched

  /** The fate of every cell of `cells` under the enumerate-and-pop loop. */
  function Fates(cells: seq<Cell>, removed: Cell -> bool): (f: seq<Fate>)
    ensures |f| == |cells|
    decreases |cells|
  {
    if cells == [] then []
    else if removed(cells[0]) then
      if |cells| == 1 then [Popped] else [Popped, Skipped] + Fates(cells[2..], removed)
    else [Visited] + Fates(cells[1..], removed)
  }

  /** The cell list left by the given fates: popped cells are gone, the others stay in
      their order, visited ones tidied. */
  function Apply(cells: seq<Cell>, fates: seq<Fate>): seq<Cell>
    requires |fates| == |cells|
    decreases |cells|
  {
    if cells == [] then []
    else
      var head := match fates[0]
        case Visited => [Tidy(cells[0])]
        case Skipped => [cells[0]]
        case Popped => [];
      head + Apply(cells[1..], fates[1..])
  }

  /** The cells `preprocess` leaves in `nb.cells`. */
  function Preprocessed(cells: seq<Cell>, removed: Cell -> bool): seq<Cell> {
    Apply(cells, Fates(cells, removed))
  }

  /** How Fates decides, cell by cell: a cell right after a popped one is skipped; any
      other cell is popped exactly when the removal test holds of it. */
  ghost predicate FateRule(cells: seq<Cell>, f: seq<Fate>, removed: Cell -> bool, i: int)
    requires |f| == |cells| && 0 <= i < |cells|
  {
    f[i] == (if i > 0 && f[i - 1] == Popped then Skipped
             else if removed(cells[i]) then Popped
             else Visited)
  }

  lemma {:induction false} FatesFollowRule(cells: seq<Cell>, removed: Cell -> bool)
    ensures forall i :: 0 <= i < |cells| ==> FateRule(cells, Fates(cells, removed), removed, i)
    decreases |cells|
  {
    var f := Fates(cells, removed);
    if cells == [] {
    } else if removed(cells[0]) {
      if |cells| > 1 {
        var rest := cells[2..];
        FatesFollowRule(rest, removed);
        forall i | 2 <= i < |cells| ensures FateRule(cells, f, removed, i) {
          assert f[i] == Fates(rest, removed)[i - 2];
          assert f[i - 1] == (if i == 2 then Skipped else Fates(rest, removed)[i - 3]);
          assert cells[i] == rest[i - 2];
          assert FateRule(rest, Fates(rest, removed), removed, i - 2);
        }
      }
    } else {
      var rest := cells[1..];
      FatesFollowRule(rest, removed);
      forall i | 1 <= i < |cells| ensures FateRule(cells, f, removed, i) {
        assert f[i] == Fates(rest, removed)[i - 1];
        assert f[i - 1] == (if i == 1 then Visited else Fates(rest, removed)[i - 2]);
        assert cells[i] == rest[i - 1];
        assert FateRule(rest, Fates(rest, removed), removed, i - 1);
      }
    }
  }

  /** FateRule determines the fates: any fate sequence obeying it is Fates. */
  lemma {:induction false} FateRuleUnique(cells: seq<Cell>, f: seq<Fate>, removed: Cell -> bool)
    requires |f| == |cells|
    requires forall i :: 0 <= i < |cells| ==> FateRule(cells, f, removed, i)
    ensures f == Fates(cells, removed)
  {
    var g := Fates(cells, removed);
    FatesFollowRule(cells, removed);
    var i := 0;
    while i < |cells|
      invariant 0 <= i <= |cells|
      invariant f[..i] == g[..i]
    {
      assert FateRule(cells, f, removed, i) && FateRule(cells, g, removed, i);
      assert i > 0 ==> f[i - 1] == g[i - 1];
      assert f[..i + 1] == f[..i] + [f[i]] && g[..i + 1] == g[..i] + [g[i]];
      i := i + 1;
    }
    assert f == f[..i] && g == g[..i];
  }

  /** Only a cell that meets the removal test can be popped, and the first cell of a list
      is never skipped. */
  lemma PoppedOnlyIfRemoved(cells: seq<Cell>, removed: Cell -> bool, i: int)
    requires 0 <= i < |cells|
    ensures Fates(cells, removed)[i] == Popped ==> removed(cells[i])
    ensures Fates(cells, removed)[i] == Skipped <==> i > 0 && Fates(cells, removed)[i - 1] == Popped
    ensures Fates(cells, removed)[i] == Visited ==> !removed(cells[i])
  {
    FatesFollowRule(cells, removed);
    assert FateRule(cells, Fates(cells, removed), removed, i);
    if i > 0 {
      assert FateRule(cells, Fates(cells, removed), removed, i - 1);
    }
  }

  /** The number of cells the given fates pop. */
  function PoppedCount(f: seq<Fate>): nat {
    if f == [] then 0 else (if f[0] == Popped then 1 else 0) + PoppedCount(f[1..])
  }

  lemma {:induction false} ApplyLength(cells: seq<Cell>, f: seq<Fate>)
    requires |f| == |cells|
    ensures |Apply(cells, f)| == |cells| - PoppedCount(f)
    decreases |cells|
  {
    if cells != [] {
      ApplyLength(cells[1..], f[1..]);
    }
  }

  /** The list never grows, and shrinks by exactly the number of popped cells. */
  lemma PreprocessedLength(cells: seq<Cell>, removed: Cell -> bool)
    ensures |Preprocessed(cells, removed)| == |cells| - PoppedCount(Fates(cells, removed))
    ensures |Preprocessed(cells, removed)| <= |cells|
  {
    ApplyLength(cells, Fates(cells, removed));
  }

  /** The positions, counted from `from`, of the cells the given fates keep, in order. */
  function Kept(f: seq<Fate>, from: nat): (k: seq<nat>)
    ensures forall j :: 0 <= j < |k| ==> from <= k[j] < from + |f|
    decreases |f|
  {
    if f == [] then [] else (if f[0] != Popped then [from] else []) + Kept(f[1..], from + 1)
  }

  lemma {:induction false} KeptIncreasing(f: seq<Fate>, from: nat)
    ensures forall j, j' :: 0 <= j < j' < |Kept(f, from)| ==> Kept(f, from)[j] < Kept(f, from)[j']
    decreases |f|
  {
    if f != [] {
      KeptIncreasing(f[1..], from + 1);
      var k, k' := Kept(f, from), Kept(f[1..], from + 1);
      var head := if f[0] != Popped then [from] else [];
      assert k == head + k';
      forall j, j' | 0 <= j < j' < |k| ensures k[j] < k[j'] {
        assert k[j'] == k'[j' - |head|] && from + 1 <= k'[j' - |head|];
        if j >= |head| {
          assert k[j] == k'[j - |head|];
          assert k'[j - |head|] < k'[j' - |head|];
        } else {
          assert k[j] == from;
        }
      }
    }
  }

  lemma {:induction false} KeptCovers(f: seq<Fate>, from: nat)
    ensures forall i :: 0 <= i < |f| && f[i] != Popped ==> from + i in Kept(f, from)
    decreases |f|
  {
    if f != [] {
      KeptCovers(f[1..], from + 1);
      forall i | 0 < i < |f| && f[i] != Popped ensures from + i in Kept(f, from) {
        assert f[1..][i - 1] == f[i];
        assert from + 1 + (i - 1) in Kept(f[1..], from + 1);
      }
    }
  }

  /** What becomes of a cell that is not popped. */
  function Outcome(c: Cell, fate: Fate): Cell {
    if fate == Visited then Tidy(c) else c
  }

  lemma ApplyHead(cells: seq<Cell>, f: seq<Fate>)
    requires |f| == |cells| && cells != []
    ensures Apply(cells, f) == (if f[0] != Popped then [Outcome(cells[0], f[0])] else []) + Apply(cells[1..], f[1..])
  {
  }

  lemma {:induction false} ApplyKeptLength(cells: seq<Cell>, f: seq<Fate>, from: nat)
    requires |f| == |cells|
    ensures |Kept(f, from)| == |Apply(cells, f)|
    decreases |cells|
  {
    if cells != [] {
      ApplyKeptLength(cells[1..], f[1..], from + 1);
      ApplyHead(cells, f);
    }
  }

  /** The `j`-th cell of Apply's result is the `j`-th kept cell of the input, tidied when it
      was visited and as it was when it was skipped. */
  lemma {:induction false} ApplyKeptAt(cells: seq<Cell>, f: seq<Fate>, from: nat, j: nat)
    requires |f| == |cells| && j < |Kept(f, from)|
    ensures j < |Apply(cells, f)|
    ensures f[Kept(f, from)[j] - from] != Popped
    ensures Apply(cells, f)[j] == Outcome(cells[Kept(f, from)[j] - from], f[Kept(f, from)[j] - from])
    decreases |cells|
  {
    ApplyKeptLength(cells, f, from);
    ApplyHead(cells, f);
    if f[0] != Popped && j == 0 {
      assert Kept(f, from)[0] == from;
    } else {
      var j1 := if f[0] != Popped then j - 1 else j;
      ApplyKeptAt(cells[1..], f[1..], from + 1, j1);
      var i := Kept(f[1..], from + 1)[j1];
      assert Kept(f, from)[j] == i;
      assert f[i - from] == f[1..][i - (from + 1)];
      assert cells[i - from] == cells[1..][i - (from + 1)];
    }
  }

  /** `preprocess` keeps the relative order of the cells it does not pop, tidies those it
      visits and leaves those it skips untouched. */
  lemma PreprocessedKeepsOrder(cells: seq<Cell>, removed: Cell -> bool)
    ensures var f := Fates(cells, removed);
      var k := Kept(f, 0);
      var out := Preprocessed(cells, removed);
      |k| == |out|
      && (forall j :: 0 <= j < |k| ==>
            (k[j] < |cells| && f[k[j]] != Popped
             && out[j] == Outcome(cells[k[j]], f[k[j]])))
      && (forall j, j' :: 0 <= j < j' < |k| ==> k[j] < k[j'])
      && (forall i :: 0 <= i < |cells| && f[i] != Popped ==> i in k)
  {
    var f := Fates(cells, removed);
    ApplyKeptLength(cells, f, 0);
    forall j | 0 <= j < |Kept(f, 0)|
      ensures Kept(f, 0)[j] < |cells| && f[Kept(f, 0)[j]] != Popped
      ensures Preprocessed(cells, removed)[j] == Outcome(cells[Kept(f, 0)[j]], f[Kept(f, 0)[j]])
    {
      ApplyKeptAt(cells, f, 0, j);
    }
    KeptIncreasing(f, 0);
    KeptCovers(f, 0);
  }

  /** The cells that are not code cells, in order. */
  function NonCode(cells: seq<Cell>): seq<Cell> {
    if cells == [] then []
    else (if cells[0].kind != CodeCell then [cells[0]] else []) + NonCode(cells[1..])
  }

  lemma NonCodeAppend(a: seq<Cell>, b: seq<Cell>)
    ensures NonCode(a + b) == NonCode(a) + NonCode(b)
  {
    if a == [] {
      assert a + b == b;
    } else {
      assert (a + b)[0] == a[0] && (a + b)[1..] == a[1..] + b;
      NonCodeAppend(a[1..], b);
      var h := if a[0].kind != CodeCell then [a[0]] else [];
      assert NonCode(a + b) == h + NonCode(a[1..] + b);
      assert NonCode(a) == h + NonCode(a[1..]);
    }
  }

  /** With a removal test that only ever holds of code cells (both files' tests), every
      non-code cell survives, unchanged and in its original order. */
  lemma {:induction false} NonCodeCellsSurvive(cells: seq<Cell>, removed: Cell -> bool)
    requires forall c :: removed(c) ==> c.kind == CodeCell
    ensures NonCode(Preprocessed(cells, removed)) == NonCode(cells)
    decreases |cells|
  {
    if cells != [] {
      PreprocessedStep(cells, removed);
      if removed(cells[0]) {
        assert NonCode(cells) == NonCode(cells[1..]);
        if |cells| > 1 {
          var rest := cells[2..];
          NonCodeCellsSurvive(rest, removed);
          NonCodeAppend([cells[1]], Preprocessed(rest, removed));
          assert cells[1..][1..] == rest;
        }
      } else {
        NonCodeCellsSurvive(cells[1..], removed);
        NonCodeAppend([Tidy(cells[0])], Preprocessed(cells[1..], removed));
      }
    }
  }

  /** How Preprocessed unfolds at the head of the list, as the loop sees it. */
  lemma PreprocessedStep(cells: seq<Cell>, removed: Cell -> bool)
    requires cells != []
    ensures removed(cells[0]) && |cells| == 1 ==> Preprocessed(cells, removed) == []
    ensures removed(cells[0]) && |cells| > 1 ==>
      Preprocessed(cells, removed) == [cells[1]] + Preprocessed(cells[2..], removed)
    ensures !removed(cells[0]) ==>
      Preprocessed(cells, removed) == [Tidy(cells[0])] + Preprocessed(cells[1..], removed)
  {
    var f := Fates(cells, removed);
    if removed(cells[0]) {
      if |cells| == 1 {
        assert f == [Popped];
        assert Apply(cells, f) == [] + Apply(cells[1..], f[1..]);
      } else {
        var f2 := Fates(cells[2..], removed);
        assert f == [Popped, Skipped] + f2;
        assert f[1..] == [Skipped] + f2 && f[1..][1..] == f2;
        assert cells[1..][1..] == cells[2..];
        assert Apply(cells, f) == [] + Apply(cells[1..], f[1..]);
        assert Apply(cells[1..], f[1..]) == [cells[1]] + Apply(cells[2..], f2);
      }
    } else {
      assert f == [Visited] + Fates(cells[1..], removed);
    }
  }

  /** The invariant of the enumerate loop at index `i`: the cells before `i` are final,
      and preprocessing the cells from `i` on completes the result (once the index has run
      past the end, the list is the result). */
  ghost predicate Progress(cells: seq<Cell>, i: nat, original: seq<Cell>, removed: Cell -> bool) {
    i <= |cells| + 1
    && (i <= |cells| ==> cells[..i] + Preprocessed(cells[i..], removed) == Preprocessed(original, removed))
    && (i > |cells| ==> cells == Preprocessed(original, removed))
  }

  lemma ProgressStart(cells: seq<Cell>, removed: Cell -> bool)
    ensures Progress(cells, 0, cells, removed)
  {
    assert cells[..0] == [] && cells[0..] == cells;
  }

  lemma ProgressEnd(cells: seq<Cell>, i: nat, original: seq<Cell>, removed: Cell -> bool)
    requires Progress(cells, i, original, removed) && i >= |cells|
    ensures cells == Preprocessed(original, removed)
  {
    if i == |cells| {
      assert cells[..i] == cells && cells[i..] == [];
    }
  }

  /** Popping the blank cell at `i` keeps the loop invariant with `i + 1`. */
  lemma PopStep(cells: seq<Cell>, i: nat, original: seq<Cell>, removed: Cell -> bool)
    requires i < |cells| && removed(cells[i])
    requires Progress(cells, i, original, removed)
    ensures Progress(cells[..i] + cells[i + 1..], i + 1, original, removed)
  {
    var next := cells[..i] + cells[i + 1..];
    PreprocessedStep(cells[i..], removed);
    if i + 1 <= |next| {
      assert next[..i + 1] == cells[..i] + [cells[i + 1]];
      assert next[i + 1..] == cells[i + 2..];
      assert cells[i..][1] == cells[i + 1] && cells[i..][2..] == cells[i + 2..];
    } else {
      assert next == cells[..i];
    }
  }

  /** Tidying the kept cell at `i` keeps the loop invariant with `i + 1`. */
  lemma TidyStep(cells: seq<Cell>, i: nat, original: seq<Cell>, removed: Cell -> bool)
    requires i < |cells| && !removed(cells[i])
    requires Progress(cells, i, original, removed)
    ensures Progress(cells[i := Tidy(cells[i])], i + 1, original, removed)
  {
    var next := cells[i := Tidy(cells[i])];
    PreprocessedStep(cells[i..], removed);
    assert next[..i + 1] == cells[..i] + [Tidy(cells[i])];
    assert next[i + 1..] == cells[i + 1..] == cells[i..][1..];
  }

  /** `preprocess(nb, resources)`: the enumerate loop that pops blank cells from
      `nb.cells` and tidies the others, with the removal test of the file it comes from. */
  method Preprocess(nb: NotebookNode, removed: Cell -> bool)
    modifies nb`cells
    ensures nb.cells == Preprocessed(old(nb.cells), removed)
    ensures nb.metadata == old(nb.metadata)
  {
    ghost var original := nb.cells;
    var index := 0;
    ProgressStart(original, removed);
    while index < |nb.cells|
      invariant Progress(nb.cells, index, original, removed)
      decreases |nb.cells| + 1 - index
    {
      VisitCell(nb, index, removed, original);
      index := index + 1;
    }
    ProgressEnd(nb.cells, index, original, removed);
  }

  /** One turn of the enumerate loop: the cell at `index` is popped when blank, otherwise
      handed to `preprocess_cell`. */
  method VisitCell(nb: NotebookNode, index: nat, removed: Cell -> bool, ghost original: seq<Cell>)
    requires index < |nb.cells| && Progress(nb.cells, index, original, removed)
    modifies nb`cells
    ensures Progress(nb.cells, index + 1, original, removed)
    ensures |nb.cells| <= old(|nb.cells|)
  {
    var cell := nb.cells[index];
    if removed(cell) {
      PopStep(nb.cells, index, original, removed);
      nb.cells := nb.cells[..index] + nb.cells[index + 1..];
    } else {
      TidyStep(nb.cells, index, original, removed);
      nb.cells := nb.cells[index := Tidy(cell)];
    }
  }

  /** In run.py two blank code cells in a row leave the second behind. */
  lemma RunKeepsBlankAfterBlank()
    ensures Preprocessed([Cell(CodeCell, "", []), Cell(CodeCell, "", [])], BlankRun)
         == [Cell(CodeCell, "", [])]
  {
    var cells := [Cell(CodeCell, "", []), Cell(CodeCell, "", [])];
    PreprocessedStep(cells, BlankRun);
  }

  /** In run.py a whitespace-only code cell is not blank: it is kept and stripped to an
      empty source. fabfile.py drops it when it has no outputs. */
  lemma WhitespaceOnlyCell(outputs: seq<string>)
    ensures Preprocessed([Cell(CodeCell, " \n", outputs)], BlankRun) == [Cell(CodeCell, "", outputs)]
    ensures outputs == [] ==> Preprocessed([Cell(CodeCell, " \n", outputs)], BlankFab) == []
  {
    var c := Cell(CodeCell, " \n", outputs);
    assert AllSpace(c.source) by { assert IsSpace(c.source[0]) && IsSpace(c.source[1]); }
    PreprocessedStep([c], BlankRun);
    PreprocessedStep([c], BlankFab);
  }
}
