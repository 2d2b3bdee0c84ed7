/**
 * The second builder of week_1/suffix_tree_debug.py (`build_tree`), one
 * step at a time.  Its `_build_tree` is the insertion of
 * week_1/suffix_tree.py and is modelled by SuffixTree.BuildTree.
 *
 * In `build_tree` the node `current` has been found under the next symbol
 * of the suffix and its edge compared with the suffix for up to
 * `current.length + 1` symbols (the run).  Depending on the run and on
 * whether `current` has a child for the following symbol, one of three
 * edges is split.  Edges are (start, length) pairs into the text.
 */
module SuffixTreeDebug {

  /** An edge as the debug builder stores it. */
  datatype Edge = Edge(start: int, length: int)

  predicate InText(text: string, e: Edge)
  {
    0 <= e.start && 0 <= e.length && e.start + e.length <= |text|
  }

  /** `text[e.start:e.start + e.length]`. */
  function Label(text: string, e: Edge): string
    requires InText(text, e)
  {
    text[e.start..e.start + e.length]
  }

  /** Cutting an edge after k symbols: the upper part keeps the start, the lower part begins k symbols in. */
  function Split(e: Edge, k: int): (Edge, Edge)
  {
    (Edge(e.start, k), Edge(e.start + k, e.length - k))
  }

  /** A cut strictly inside an edge leaves two non-empty edges whose labels spell the old one. */
  lemma SplitKeepsLabel(text: string, e: Edge, k: int)
    requires InText(text, e) && 0 < k < e.length
    ensures Split(e, k).0.length > 0 && Split(e, k).1.length > 0
    ensures InText(text, Split(e, k).0) && InText(text, Split(e, k).1)
    ensures Label(text, Split(e, k).0) + Label(text, Split(e, k).1) == Label(text, e)
  {
    var (u, l) := Split(e, k);
    assert text[e.start..e.start + e.length] == text[e.start..e.start + k] + text[e.start + k..e.start + e.length];
  }

  /**
   * Lines 131-139: with diff = current.length - overlap, `current` is cut
   * down to `overlap` symbols and `new_internal` is given the start
   * `current.start + diff`.
   */
  function DownSplitAsWritten(current: Edge, overlap: int): (Edge, Edge)
  {
    var diff := current.length - overlap;
    (Edge(current.start, current.length - diff), Edge(current.start + diff, diff))
  }

  /**
   * The lengths are those of the cut after `overlap` symbols, which makes
   * the asserts of lines 142-143 hold; the start of `new_internal` agrees
   * with that cut only when the edge is exactly twice the overlap.
   */
  lemma DownSplitMisplaced(current: Edge, overlap: int)
    ensures DownSplitAsWritten(current, overlap).0 == Split(current, overlap).0
    ensures DownSplitAsWritten(current, overlap).1.length == Split(current, overlap).1.length
    ensures DownSplitAsWritten(current, overlap) == Split(current, overlap) <==> current.length == 2 * overlap
  {
  }

  /**
   * "ABAC$", inserting the suffix "AC$" (i = 2): `current` is the leaf
   * edge (0, 5), the run is 1.  As written the lower edge is (4, 4), which
   * runs past the end of the text; the cut after one symbol gives "BAC$".
   */
  lemma DownSplitExample()
    ensures !InText("ABAC$", DownSplitAsWritten(Edge(0, 5), 1).1)
    ensures Label("ABAC$", Split(Edge(0, 5), 1).1) == "BAC$"
  {
    assert DownSplitAsWritten(Edge(0, 5), 1).1 == Edge(4, 4);
  }

  /** Which edge a step of `build_tree` cuts, and the two edges it leaves. */
  datatype Outcome =
    | SplitCurrent(upper: Edge, lower: Edge)   // lines 131-146: current above, new_internal below
    | SplitAbove(upper: Edge, lower: Edge)     // lines 147-162: new_internal above, current below
    | SplitNext(upper: Edge, lower: Edge)      // lines 163-182: new_internal above, next_node below
    | Descend                                  // nothing is cut; the walk continues below current

  /**
   * Lines 128-182 as written.  `run` is what the loop of line 125 counted,
   * `hasChild` whether `current` has a child for the symbol after it, and
   * `newRun` what the loop of line 168 counted along that child's edge `next`.
   */
  function StepAsWritten(current: Edge, run: int, hasChild: bool, next: Edge, newRun: int): Outcome
  {
    var overlap := if run > current.length then current.length else run;
    if overlap < current.length then
      var (u, l) := DownSplitAsWritten(current, overlap); SplitCurrent(u, l)
    else if !hasChild then
      var (u, l) := Split(current, overlap); SplitAbove(u, l)
    else
      var (u, l) := Split(next, newRun); SplitNext(u, l)
  }

  /**
   * Line 152 is reached only once the whole edge of `current` has matched,
   * so `current` is left with length 0: the assert of line 160 fails on
   * every path that gets there.
   */
  lemma SplitAboveEmptiesEdge(current: Edge, run: int, hasChild: bool, next: Edge, newRun: int)
    requires StepAsWritten(current, run, hasChild, next, newRun).SplitAbove?
    ensures StepAsWritten(current, run, hasChild, next, newRun).lower.length == 0
  {
  }

  /**
   * The asserts of lines 142-143 and 179-180: the downward cut keeps both
   * lengths positive once the first symbol matched (it always does, since
   * children are keyed by that symbol); the cut of `next` does so exactly
   * when the run stopped inside its edge.
   */
  lemma StepLengths(current: Edge, run: int, hasChild: bool, next: Edge, newRun: int)
    requires 0 < run
    ensures var o := StepAsWritten(current, run, hasChild, next, newRun);
      o.SplitCurrent? ==> o.upper.length > 0 && o.lower.length > 0
    ensures var o := StepAsWritten(current, run, hasChild, next, newRun);
      o.SplitNext? ==> (o.upper.length > 0 && o.lower.length > 0 <==> 0 < newRun < next.length)
  {
  }

  /**
   * The step with the two defects removed: the downward cut starts the
   * lower edge after the overlap, and a fully matched edge without a child
   * for the next symbol is descended into, so that the next round adds the
   * leaf below it (as `_build_tree` does on lines 70-74).
   */
  function Step(current: Edge, run: int, hasChild: bool, next: Edge, newRun: int): Outcome
  {
    var overlap := if run > current.length then current.length else run;
    if overlap < current.length then
      var (u, l) := Split(current, overlap); SplitCurrent(u, l)
    else if !hasChild then
      Descend
    else
      var (u, l) := Split(next, newRun); SplitNext(u, l)
  }

  /** The two parts of a cut are non-empty edges of the text that spell `e` together. */
  predicate CutOf(text: string, upper: Edge, lower: Edge, e: Edge)
    requires InText(text, e)
  {
    InText(text, upper) && InText(text, lower) && upper.length > 0 && lower.length > 0
    && Label(text, upper) + Label(text, lower) == Label(text, e)
  }

  /** Every cut the corrected step makes inside an edge leaves two non-empty edges that spell the old one. */
  lemma StepKeepsLabels(text: string, current: Edge, run: int, hasChild: bool, next: Edge, newRun: int)
    requires InText(text, current) && InText(text, next) && 0 < run && newRun < next.length && 0 < newRun
    ensures var o := Step(current, run, hasChild, next, newRun);
      o.SplitCurrent? ==> CutOf(text, o.upper, o.lower, current)
    ensures var o := Step(current, run, hasChild, next, newRun);
      o.SplitNext? ==> CutOf(text, o.upper, o.lower, next)
    ensures !Step(current, run, hasChild, next, newRun).SplitAbove?
  {
    var overlap := if run > current.length then current.length else run;
    if overlap < current.length {
      SplitKeepsLabel(text, current, overlap);
    } else if hasChild {
      SplitKeepsLabel(text, next, newRun);
    }
  }
}
