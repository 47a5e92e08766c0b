/**
 * `moveRow`: reordering the selected rows one step up or down, or all the
 * way to the top or the bottom.
 *
 * The indexes of the selected rows are computed once, against the list as it
 * was before the move, and then used one after another while the list is
 * being rearranged. The methods below follow that code; each is proved equal
 * to a closed form of the result, and the lemmas state what those closed
 * forms mean. Each loop also asserts that the precomputed index it is about to
 * use still addresses the row it was computed for.
 */
module RowMoves {
  import opened Rows

  datatype Direction = Up | Down | Top | Bottom

  /** No row at a position in `[lo, hi)` is selected. */
  predicate NoneSelectedIn(rows: seq<UserData>, lo: int, hi: int)
  {
    forall p :: lo <= p < hi && 0 <= p < |rows| ==> !rows[p].selected
  }

  /**
   * `idx` lists exactly the indexes of the selected rows, in ascending order:
   * each index is that of a selected row, and no selected row lies before the
   * first index, between two neighbouring indexes, or after the last one.
   */
  predicate IndexesOfSelected(rows: seq<UserData>, idx: seq<nat>)
  {
    (forall t :: 0 <= t < |idx| ==> idx[t] < |rows| && rows[idx[t]].selected) &&
    (forall t :: 0 < t < |idx| ==> idx[t - 1] < idx[t]) &&
    (forall t :: 0 <= t <= |idx| ==> NoneSelectedIn(rows, Frontier(idx, t), Boundary(|rows|, idx, t)))
  }

  /** The position just past the indexes before `j`. */
  function Frontier(idx: seq<nat>, j: nat): nat
    requires j <= |idx|
  {
    if j == 0 then 0 else idx[j - 1] + 1
  }

  /** The first of the indexes from `j` on, or `n` when there is none. */
  function Boundary(n: nat, idx: seq<nat>, j: nat): nat
    requires j <= |idx|
  {
    if j == |idx| then n else idx[j]
  }

  /** `map((item, index) => item.selected ? index : -1).filter(i => i !== -1)`. */
  function SelectedIndexes(rows: seq<UserData>): (r: seq<nat>)
    ensures |r| <= |rows|
    ensures forall t :: 0 <= t < |r| ==> r[t] < |rows| && rows[r[t]].selected
  {
    if rows == [] then []
    else SelectedIndexes(rows[..|rows| - 1]) + (if rows[|rows| - 1].selected then [|rows| - 1] else [])
  }

  /** The computed indexes are the selected rows' indexes, in ascending order. */
  lemma {:induction false} SelectedIndexesSound(rows: seq<UserData>)
    ensures IndexesOfSelected(rows, SelectedIndexes(rows))
  {
    if rows == [] {
      assert NoneSelectedIn(rows, Frontier([], 0), Boundary(0, [], 0));
    } else {
      SelectedIndexesSound(rows[..|rows| - 1]);
      IndexesExtend(rows, SelectedIndexes(rows[..|rows| - 1]));
    }
  }

  lemma IndexesExtend(rows: seq<UserData>, idx: seq<nat>)
    requires rows != [] && IndexesOfSelected(rows[..|rows| - 1], idx)
    ensures IndexesOfSelected(rows, idx + (if rows[|rows| - 1].selected then [|rows| - 1] else []))
  {
    var n, front := |rows|, rows[..|rows| - 1];
    var r := idx + (if rows[n - 1].selected then [n - 1] else []);
    forall t | 0 <= t < |idx| ensures r[t] == idx[t] && idx[t] < n - 1 && rows[idx[t]].selected {
      assert front[idx[t]] == rows[idx[t]];
    }
    forall t | 0 <= t <= |r| ensures NoneSelectedIn(rows, Frontier(r, t), Boundary(n, r, t)) {
      if t <= |idx| {
        GapExtends(rows, idx, r, t);
      } else {
        assert Frontier(r, t) == n;
      }
    }
  }

  lemma GapExtends(rows: seq<UserData>, idx: seq<nat>, r: seq<nat>, t: nat)
    requires rows != [] && IndexesOfSelected(rows[..|rows| - 1], idx)
    requires r == idx + (if rows[|rows| - 1].selected then [|rows| - 1] else [])
    requires t <= |idx|
    ensures NoneSelectedIn(rows, Frontier(r, t), Boundary(|rows|, r, t))
  {
    var n, front := |rows|, rows[..|rows| - 1];
    assert Frontier(r, t) == Frontier(idx, t);
    assert NoneSelectedIn(front, Frontier(idx, t), Boundary(n - 1, idx, t));
    forall p | Frontier(r, t) <= p < Boundary(n, r, t) && 0 <= p < n ensures !rows[p].selected {
      if p < n - 1 {
        assert front[p] == rows[p];
      }
    }
  }

  /** Every selected row's index is listed. */
  lemma IndexesComplete(rows: seq<UserData>, idx: seq<nat>, p: nat)
    requires IndexesOfSelected(rows, idx)
    requires p < |rows| && rows[p].selected
    ensures p in idx
  {
    var t := 0;
    while t < |idx| && idx[t] < p
      invariant 0 <= t <= |idx|
      invariant Frontier(idx, t) <= p
    {
      t := t + 1;
    }
    assert NoneSelectedIn(rows, Frontier(idx, t), Boundary(|rows|, idx, t));
    assert t < |idx| && idx[t] == p;
  }

  // ---------------------------------------------------------------------------
  // Closed forms of the four moves

  /**
   * One upward pass over `rest`, where `carried` is the row just above it:
   * every selected row rises past the carried row, and the first unselected
   * row stops it, is carried on in its place, and the carried row settles.
   */
  function UpPass(carried: UserData, rest: seq<UserData>): (r: seq<UserData>)
    ensures |r| == |rest| + 1
    decreases rest
  {
    if rest == [] then [carried]
    else if rest[0].selected then [rest[0]] + UpPass(carried, rest[1..])
    else [carried] + UpPass(rest[0], rest[1..])
  }

  function MovedUp(rows: seq<UserData>): (r: seq<UserData>)
    ensures |r| == |rows|
  {
    if rows == [] then [] else UpPass(rows[0], rows[1..])
  }

  /** The mirror image of UpPass: `carried` is the row just below `rest`. */
  function DownPass(rest: seq<UserData>, carried: UserData): (r: seq<UserData>)
    ensures |r| == |rest| + 1
  {
    if rest == [] then [carried]
    else
      var last := rest[|rest| - 1];
      if last.selected then DownPass(rest[..|rest| - 1], carried) + [last]
      else DownPass(rest[..|rest| - 1], last) + [carried]
  }

  function MovedDown(rows: seq<UserData>): (r: seq<UserData>)
    ensures |r| == |rows|
  {
    if rows == [] then [] else DownPass(rows[..|rows| - 1], rows[|rows| - 1])
  }

  function MovedToTop(rows: seq<UserData>): seq<UserData>
  {
    Reverse(SelectedRows(rows)) + UnselectedRows(rows)
  }

  function MovedToBottom(rows: seq<UserData>): seq<UserData>
  {
    UnselectedRows(rows) + Reverse(SelectedRows(rows))
  }

  function Moved(rows: seq<UserData>, direction: Direction): seq<UserData>
  {
    match direction
    case Up => MovedUp(rows)
    case Down => MovedDown(rows)
    case Top => MovedToTop(rows)
    case Bottom => MovedToBottom(rows)
  }

  // ---------------------------------------------------------------------------
  // The code

  /** `moveRow(direction)`: an empty list is left as it is. */
  method MoveRows(data: seq<UserData>, direction: Direction) returns (newData: seq<UserData>)
    ensures newData == Moved(data, direction)
    ensures |newData| == |data| && multiset(newData) == multiset(data)
  {
    if |data| == 0 {
      NothingSelectedNothingMoves(data, direction);
      return data;
    }
    var selectedIndexes := SelectedIndexes(data);
    SelectedIndexesSound(data);
    MovedPermutation(data, direction);
    match direction
    case Up => newData := MoveUp(data, selectedIndexes);
    case Down => newData := MoveDown(data, selectedIndexes);
    case Top => newData := MoveToTop(data, selectedIndexes);
    case Bottom => newData := MoveToBottom(data, selectedIndexes);
  }

  /** Ascending over the indexes, swap each selected row but the first row with its predecessor. */
  method MoveUp(data: seq<UserData>, selectedIndexes: seq<nat>) returns (newData: seq<UserData>)
    requires data != [] && IndexesOfSelected(data, selectedIndexes)
    ensures newData == MovedUp(data)
  {
    newData := data;
    UpStart(data);
    for j := 0 to |selectedIndexes|
      invariant |newData| == |data|
      invariant UpInvariant(data, newData, Frontier(selectedIndexes, j))
    {
      var i := selectedIndexes[j];
      UpLoopStep(data, selectedIndexes, j, newData);
      if i > 0 {
        assert newData[i] == data[i];
        newData := newData[i := newData[i - 1]][i - 1 := newData[i]];
      }
    }
    UpLoopDone(data, selectedIndexes, newData);
  }

  /** Descending over the indexes, swap each selected row but the last row with its successor. */
  method MoveDown(data: seq<UserData>, selectedIndexes: seq<nat>) returns (newData: seq<UserData>)
    requires data != [] && IndexesOfSelected(data, selectedIndexes)
    ensures newData == MovedDown(data)
  {
    newData := data;
    DownStart(data);
    // the loop visits the indexes in the order of `selectedIndexes.reverse()`
    for j := |selectedIndexes| downto 0
      invariant |newData| == |data|
      invariant DownInvariant(data, newData, Boundary(|data|, selectedIndexes, j))
    {
      var i := selectedIndexes[j];
      DownLoopStep(data, selectedIndexes, j, newData);
      if i < |newData| - 1 {
        assert newData[i] == data[i];
        newData := newData[i := newData[i + 1]][i + 1 := newData[i]];
      }
    }
    DownLoopDone(data, selectedIndexes, newData);
  }

  /** Ascending over the indexes, cut each selected row out and put it in front. */
  method MoveToTop(data: seq<UserData>, selectedIndexes: seq<nat>) returns (newData: seq<UserData>)
    requires IndexesOfSelected(data, selectedIndexes)
    ensures newData == MovedToTop(data)
  {
    newData := data;
    TopStart(data);
    for j := 0 to |selectedIndexes|
      invariant |newData| == |data|
      invariant TopInvariant(data, newData, Frontier(selectedIndexes, j))
    {
      var i := selectedIndexes[j];
      TopLoopStep(data, selectedIndexes, j, newData);
      assert newData[i] == data[i];
      var selectedItem := newData[i];
      newData := [selectedItem] + (newData[..i] + newData[i + 1..]);
    }
    TopLoopDone(data, selectedIndexes, newData);
  }

  /** Descending over the indexes, cut each selected row out and put it at the end. */
  method MoveToBottom(data: seq<UserData>, selectedIndexes: seq<nat>) returns (newData: seq<UserData>)
    requires IndexesOfSelected(data, selectedIndexes)
    ensures newData == MovedToBottom(data)
  {
    newData := data;
    BottomStart(data);
    // the loop visits the indexes in the order of `selectedIndexes.reverse()`
    for j := |selectedIndexes| downto 0
      invariant BottomInvariant(data, newData, Boundary(|data|, selectedIndexes, j))
    {
      var i := selectedIndexes[j];
      BottomLoopStep(data, selectedIndexes, j, newData);
      assert newData[i] == data[i];
      var selectedItem := newData[i];
      newData := (newData[..i] + newData[i + 1..]) + [selectedItem];
    }
    BottomLoopDone(data, selectedIndexes, newData);
  }

  // ---------------------------------------------------------------------------
  // Loop states

  /**
   * `up` has handled the rows before `f`: the rest of the list is untouched,
   * and finishing the upward pass from there gives the closed form.
   */
  predicate UpInvariant(data: seq<UserData>, w: seq<UserData>, f: nat)
    requires data != []
  {
    var c := if f == 0 then 1 else f;
    |w| == |data| && c <= |data| &&
    w[c..] == data[c..] && MovedUp(data) == w[..c - 1] + UpPass(w[c - 1], data[c..])
  }

  /** `down` has handled the rows from `f` on (the last row when `f` is past it). */
  predicate DownInvariant(data: seq<UserData>, w: seq<UserData>, f: nat)
    requires data != []
  {
    var e := if f >= |data| then |data| - 1 else f;
    |w| == |data| &&
    w[..e] == data[..e] && MovedDown(data) == DownPass(data[..e], w[e]) + w[e + 1..]
  }

  /** `top` has handled the rows before `m`: they are split, selected ones reversed in front. */
  predicate TopInvariant(data: seq<UserData>, w: seq<UserData>, m: nat)
  {
    m <= |data| && w == Reverse(SelectedRows(data[..m])) + UnselectedRows(data[..m]) + data[m..]
  }

  /** `bottom` has handled the rows from `m` on: they are split, selected ones reversed at the end. */
  predicate BottomInvariant(data: seq<UserData>, w: seq<UserData>, m: nat)
  {
    m <= |data| && w == data[..m] + UnselectedRows(data[m..]) + Reverse(SelectedRows(data[m..]))
  }

  lemma UpStart(data: seq<UserData>)
    requires data != []
    ensures UpInvariant(data, data, 0)
  {
    assert data[..0] == [];
  }

  lemma DownStart(data: seq<UserData>)
    requires data != []
    ensures DownInvariant(data, data, |data|)
  {
    assert data[|data|..] == [];
  }

  lemma TopStart(data: seq<UserData>)
    ensures TopInvariant(data, data, 0)
  {
    assert data[..0] == [];
  }

  lemma BottomStart(data: seq<UserData>)
    ensures BottomInvariant(data, data, |data|)
  {
    assert data[|data|..] == [];
  }

  /** One turn of `up`'s loop: the index still addresses its row, and swapping keeps the state. */
  lemma UpLoopStep(data: seq<UserData>, idx: seq<nat>, j: nat, w: seq<UserData>)
    requires data != [] && IndexesOfSelected(data, idx) && j < |idx|
    requires UpInvariant(data, w, Frontier(idx, j))
    ensures var i := idx[j];
      i < |w| &&
      (i == 0 ==> UpInvariant(data, w, Frontier(idx, j + 1))) &&
      (i > 0 ==>
        w[i] == data[i] &&
        UpInvariant(data, w[i := w[i - 1]][i - 1 := w[i]], Frontier(idx, j + 1)))
  {
    var i, f := idx[j], Frontier(idx, j);
    var c := if f == 0 then 1 else f;
    if j > 0 {
      assert idx[j - 1] < idx[j];
    }
    assert f <= i;
    if i > 0 {
      GapUnselected(data, idx, j, c, i);
      assert Frontier(idx, j + 1) == i + 1;
      UpTurn(data, w, c, i);
    } else {
      assert c == 1 && Frontier(idx, j + 1) == 1;
    }
  }

  lemma UpTurn(data: seq<UserData>, w: seq<UserData>, c: int, i: int)
    requires |w| == |data| && 1 <= c <= i < |data| && data[i].selected
    requires w[c..] == data[c..]
    requires forall p :: c <= p < i ==> !data[p].selected
    requires MovedUp(data) == w[..c - 1] + UpPass(w[c - 1], data[c..])
    ensures w[i] == data[i] && UpInvariant(data, w[i := w[i - 1]][i - 1 := w[i]], i + 1)
  {
    AdvanceUp(data, w, c, i);
    UpSwapStep(data, w, i);
  }

  lemma UpLoopDone(data: seq<UserData>, idx: seq<nat>, w: seq<UserData>)
    requires data != [] && IndexesOfSelected(data, idx)
    requires UpInvariant(data, w, Frontier(idx, |idx|))
    ensures w == MovedUp(data)
  {
    var f := Frontier(idx, |idx|);
    var c := if f == 0 then 1 else f;
    GapUnselected(data, idx, |idx|, c, |data|);
    UpPassSettled(data, w, c);
  }

  /** One turn of `down`'s loop: the index still addresses its row, and swapping keeps the state. */
  lemma DownLoopStep(data: seq<UserData>, idx: seq<nat>, j: nat, w: seq<UserData>)
    requires data != [] && IndexesOfSelected(data, idx) && j < |idx|
    requires DownInvariant(data, w, Boundary(|data|, idx, j + 1))
    ensures var i := idx[j];
      i < |w| &&
      (i == |w| - 1 ==> DownInvariant(data, w, Boundary(|data|, idx, j))) &&
      (i < |w| - 1 ==>
        w[i] == data[i] &&
        DownInvariant(data, w[i := w[i + 1]][i + 1 := w[i]], Boundary(|data|, idx, j)))
  {
    var i, f := idx[j], Boundary(|data|, idx, j + 1);
    var e := if f >= |data| then |data| - 1 else f;
    if j + 1 < |idx| {
      assert idx[j] < idx[j + 1];
    }
    if i < |data| - 1 {
      assert i < e;
      GapUnselected(data, idx, j + 1, i + 1, e);
      assert Boundary(|data|, idx, j) == i;
      DownTurn(data, w, i, e);
    } else {
      assert j + 1 == |idx| && e == |data| - 1 && Boundary(|data|, idx, j) == |data| - 1;
    }
  }

  lemma DownTurn(data: seq<UserData>, w: seq<UserData>, i: int, e: int)
    requires |w| == |data| && 0 <= i < e < |data| && data[i].selected
    requires w[..e] == data[..e]
    requires forall p :: i < p < e ==> !data[p].selected
    requires MovedDown(data) == DownPass(data[..e], w[e]) + w[e + 1..]
    ensures w[i] == data[i] && DownInvariant(data, w[i := w[i + 1]][i + 1 := w[i]], i)
  {
    AdvanceDown(data, w, i + 1, e);
    DownSwapStep(data, w, i);
  }

  lemma DownLoopDone(data: seq<UserData>, idx: seq<nat>, w: seq<UserData>)
    requires data != [] && IndexesOfSelected(data, idx)
    requires DownInvariant(data, w, Boundary(|data|, idx, 0))
    ensures w == MovedDown(data)
  {
    var f := Boundary(|data|, idx, 0);
    var e := if f >= |data| then |data| - 1 else f;
    GapUnselected(data, idx, 0, 0, e);
    DownPassSettled(data, w, e);
  }

  /** One turn of `top`'s loop: the index still addresses its row, and the splice keeps the state. */
  lemma TopLoopStep(data: seq<UserData>, idx: seq<nat>, j: nat, w: seq<UserData>)
    requires IndexesOfSelected(data, idx) && j < |idx|
    requires TopInvariant(data, w, Frontier(idx, j))
    ensures var i := idx[j];
      i < |w| == |data| && w[i] == data[i] &&
      TopInvariant(data, [w[i]] + (w[..i] + w[i + 1..]), Frontier(idx, j + 1))
  {
    var i, m := idx[j], Frontier(idx, j);
    if j > 0 {
      assert idx[j - 1] < idx[j];
    }
    GapUnselected(data, idx, j, m, i);
    TopStep(data, w, m, i);
  }

  lemma TopLoopDone(data: seq<UserData>, idx: seq<nat>, w: seq<UserData>)
    requires IndexesOfSelected(data, idx)
    requires TopInvariant(data, w, Frontier(idx, |idx|))
    ensures w == MovedToTop(data)
  {
    var m := Frontier(idx, |idx|);
    GapUnselected(data, idx, |idx|, m, |data|);
    TopSettled(data, m);
  }

  /** One turn of `bottom`'s loop: the index still addresses its row, and the splice keeps the state. */
  lemma BottomLoopStep(data: seq<UserData>, idx: seq<nat>, j: nat, w: seq<UserData>)
    requires IndexesOfSelected(data, idx) && j < |idx|
    requires BottomInvariant(data, w, Boundary(|data|, idx, j + 1))
    ensures var i := idx[j];
      i < |w| == |data| && w[i] == data[i] &&
      BottomInvariant(data, (w[..i] + w[i + 1..]) + [w[i]], Boundary(|data|, idx, j))
  {
    var i, m := idx[j], Boundary(|data|, idx, j + 1);
    if j + 1 < |idx| {
      assert idx[j] < idx[j + 1];
    }
    GapUnselected(data, idx, j + 1, i + 1, m);
    BottomStep(data, w, i, m);
  }

  lemma BottomLoopDone(data: seq<UserData>, idx: seq<nat>, w: seq<UserData>)
    requires IndexesOfSelected(data, idx)
    requires BottomInvariant(data, w, Boundary(|data|, idx, 0))
    ensures w == MovedToBottom(data)
  {
    var m := Boundary(|data|, idx, 0);
    GapUnselected(data, idx, 0, 0, m);
    BottomSettled(data, m);
  }

  // ---------------------------------------------------------------------------
  // Proof steps of the loops

  /** No selected row lies between the indexes before position `j` and the ones from `j` on. */
  lemma GapUnselected(rows: seq<UserData>, idx: seq<nat>, j: nat, lo: int, hi: int)
    requires IndexesOfSelected(rows, idx)
    requires j <= |idx| && 0 <= lo && hi <= |rows|
    requires 0 < j ==> idx[j - 1] < lo
    requires j < |idx| ==> hi <= idx[j]
    ensures forall p :: lo <= p < hi ==> !rows[p].selected
  {
    assert NoneSelectedIn(rows, Frontier(idx, j), Boundary(|rows|, idx, j));
  }

  /** Passing over unselected rows the upward pass only lets the carried row settle. */
  lemma {:induction false} AdvanceUp(data: seq<UserData>, w: seq<UserData>, c: int, i: int)
    requires |w| == |data| && 1 <= c <= i <= |data|
    requires w[c..] == data[c..]
    requires forall p :: c <= p < i ==> !data[p].selected
    ensures w[..c - 1] + UpPass(w[c - 1], data[c..]) == w[..i - 1] + UpPass(w[i - 1], data[i..])
    decreases i - c
  {
    if c < i {
      assert data[c..][1..] == data[c + 1..];
      assert w[c] == data[c];
      AdvanceUp(data, w, c + 1, i);
      assert w[..c] == w[..c - 1] + [w[c - 1]];
    }
  }

  /** With no selected row after `c`, the carried row settles and the pass is complete. */
  lemma UpPassSettled(data: seq<UserData>, w: seq<UserData>, c: int)
    requires |w| == |data| && 1 <= c <= |data|
    requires w[c..] == data[c..]
    requires forall p :: c <= p < |data| ==> !data[p].selected
    ensures w[..c - 1] + UpPass(w[c - 1], data[c..]) == w
  {
    AdvanceUp(data, w, c, |data|);
    assert data[|data|..] == [];
    assert w[..|w| - 1] + [w[|w| - 1]] == w;
  }

  lemma DownPassSettled(data: seq<UserData>, w: seq<UserData>, e: int)
    requires |w| == |data| && 0 <= e < |data|
    requires w[..e] == data[..e]
    requires forall p :: 0 <= p < e ==> !data[p].selected
    ensures DownPass(data[..e], w[e]) + w[e + 1..] == w
  {
    AdvanceDown(data, w, 0, e);
    assert data[..0] == [];
    assert [w[0]] + w[1..] == w;
  }

  /** Swapping a selected row with its predecessor is one step of the upward pass. */
  lemma UpSwapStep(data: seq<UserData>, w: seq<UserData>, i: int)
    requires |w| == |data| && 1 <= i < |data| && data[i].selected
    requires w[i..] == data[i..]
    ensures var v := w[i := w[i - 1]][i - 1 := w[i]];
      v[i + 1..] == data[i + 1..] &&
      w[..i - 1] + UpPass(w[i - 1], data[i..]) == v[..i] + UpPass(v[i], data[i + 1..])
  {
    var v := w[i := w[i - 1]][i - 1 := w[i]];
    assert data[i..][1..] == data[i + 1..];
    assert v[..i] == w[..i - 1] + [data[i]];
    assert v[i + 1..] == w[i + 1..];
  }

  /** Swapping a selected row with its successor is one step of the downward pass. */
  lemma DownSwapStep(data: seq<UserData>, w: seq<UserData>, i: int)
    requires |w| == |data| && 0 <= i < |data| - 1 && data[i].selected
    requires w[..i + 1] == data[..i + 1]
    ensures var v := w[i := w[i + 1]][i + 1 := w[i]];
      v[..i] == data[..i] &&
      DownPass(data[..i + 1], w[i + 1]) + w[i + 2..] == DownPass(data[..i], v[i]) + v[i + 1..]
  {
    var v := w[i := w[i + 1]][i + 1 := w[i]];
    assert data[..i + 1][..i] == data[..i];
    assert v[..i] == w[..i];
    assert v[i + 1..] == [data[i]] + w[i + 2..];
  }

  lemma {:induction false} AdvanceDown(data: seq<UserData>, w: seq<UserData>, f: int, e: int)
    requires |w| == |data| && 0 <= f <= e < |data|
    requires w[..e] == data[..e]
    requires forall p :: f <= p < e ==> !data[p].selected
    ensures DownPass(data[..e], w[e]) + w[e + 1..] == DownPass(data[..f], w[f]) + w[f + 1..]
    decreases e - f
  {
    if f < e {
      assert data[..e][..e - 1] == data[..e - 1];
      assert w[e - 1] == data[e - 1];
      AdvanceDown(data, w, f, e - 1);
      assert w[e..] == [w[e]] + w[e + 1..];
    }
  }

  /** Splitting a prefix that grows by unselected rows and then one selected row. */
  lemma PrefixGrows(data: seq<UserData>, m: int, i: int)
    requires 0 <= m <= i < |data| && data[i].selected
    requires forall p :: m <= p < i ==> !data[p].selected
    ensures SelectedRows(data[..i + 1]) == SelectedRows(data[..m]) + [data[i]]
    ensures UnselectedRows(data[..i + 1]) == UnselectedRows(data[..m]) + data[m..i]
  {
    assert data[..i + 1] == (data[..m] + data[m..i]) + [data[i]];
    SelectedConcat(data[..m] + data[m..i], [data[i]]);
    SelectedConcat(data[..m], data[m..i]);
    NoneSelectedSplit(data[m..i]);
    assert SelectedRows([data[i]]) == [data[i]] + SelectedRows([]);
    assert UnselectedRows([data[i]]) == [] + UnselectedRows([]);
  }

  /** Splitting a suffix that grows by one selected row and then unselected rows. */
  lemma SuffixGrows(data: seq<UserData>, i: int, m: int)
    requires 0 <= i < m <= |data| && data[i].selected
    requires forall p :: i < p < m ==> !data[p].selected
    ensures SelectedRows(data[i..]) == [data[i]] + SelectedRows(data[m..])
    ensures UnselectedRows(data[i..]) == data[i + 1..m] + UnselectedRows(data[m..])
  {
    assert data[i..] == [data[i]] + (data[i + 1..m] + data[m..]);
    SelectedConcat([data[i]], data[i + 1..m] + data[m..]);
    SelectedConcat(data[i + 1..m], data[m..]);
    NoneSelectedSplit(data[i + 1..m]);
    assert SelectedRows([data[i]]) == [data[i]] + SelectedRows([]);
    assert UnselectedRows([data[i]]) == [] + UnselectedRows([]);
  }

  /** `splice(i, 1)` then `unshift`, on a list whose first `|a| + |b|` rows are `a + b`. */
  lemma FrontSplice(a: seq<UserData>, b: seq<UserData>, data: seq<UserData>, w: seq<UserData>, i: int)
    requires |a| + |b| <= i < |data| && w == a + b + data[|a| + |b|..]
    ensures |w| == |data| && w[i] == data[i]
    ensures [w[i]] + (w[..i] + w[i + 1..]) == [data[i]] + a + (b + data[|a| + |b|..i]) + data[i + 1..]
  {
    var m := |a| + |b|;
    assert w[..i] == a + b + data[m..i];
    assert w[i + 1..] == data[i + 1..];
  }

  /** `splice(i, 1)` then `push`, on a list whose first `m` rows are those of `data`. */
  lemma BackSplice(data: seq<UserData>, u: seq<UserData>, s: seq<UserData>, w: seq<UserData>, i: int, m: int)
    requires 0 <= i < m <= |data| && w == data[..m] + u + s
    ensures |w| >= m && w[i] == data[i]
    ensures (w[..i] + w[i + 1..]) + [w[i]] == data[..i] + (data[i + 1..m] + u) + (s + [data[i]])
  {
    assert w[..i] == data[..i];
    assert w[i + 1..] == data[i + 1..m] + u + s;
  }

  /** Cutting the next selected row out and putting it in front extends the settled prefix past it. */
  lemma TopStep(data: seq<UserData>, w: seq<UserData>, m: int, i: int)
    requires 0 <= m <= i < |data| && data[i].selected
    requires forall p :: m <= p < i ==> !data[p].selected
    requires w == Reverse(SelectedRows(data[..m])) + UnselectedRows(data[..m]) + data[m..]
    ensures |w| == |data| && w[i] == data[i]
    ensures [w[i]] + (w[..i] + w[i + 1..]) ==
      Reverse(SelectedRows(data[..i + 1])) + UnselectedRows(data[..i + 1]) + data[i + 1..]
  {
    var a, b := Reverse(SelectedRows(data[..m])), UnselectedRows(data[..m]);
    SplitSizes(data[..m]);
    assert |a| + |b| == m;
    FrontSplice(a, b, data, w, i);
    PrefixGrows(data, m, i);
    ReverseAppend(SelectedRows(data[..m]), data[i]);
    var a', b' := Reverse(SelectedRows(data[..i + 1])), UnselectedRows(data[..i + 1]);
    assert a' == [data[i]] + a;
    assert b' == b + data[m..i];
    assert [data[i]] + a + (b + data[m..i]) + data[i + 1..] == a' + b' + data[i + 1..];
  }

  /** Cutting the next selected row out and putting it at the end extends the settled suffix past it. */
  lemma BottomStep(data: seq<UserData>, w: seq<UserData>, i: int, m: int)
    requires 0 <= i < m <= |data| && data[i].selected
    requires forall p :: i < p < m ==> !data[p].selected
    requires w == data[..m] + UnselectedRows(data[m..]) + Reverse(SelectedRows(data[m..]))
    ensures |w| == |data| && w[i] == data[i]
    ensures (w[..i] + w[i + 1..]) + [w[i]] ==
      data[..i] + UnselectedRows(data[i..]) + Reverse(SelectedRows(data[i..]))
  {
    SplitSizes(data[m..]);
    BackSplice(data, UnselectedRows(data[m..]), Reverse(SelectedRows(data[m..])), w, i, m);
    SuffixGrows(data, i, m);
    ReverseCons(data[i], SelectedRows(data[m..]));
  }

  /** Once no selected row is left after `m`, the list is in its final order. */
  lemma TopSettled(data: seq<UserData>, m: int)
    requires 0 <= m <= |data|
    requires forall p :: m <= p < |data| ==> !data[p].selected
    ensures Reverse(SelectedRows(data[..m])) + UnselectedRows(data[..m]) + data[m..] == MovedToTop(data)
  {
    var s, u := SelectedRows(data[..m]), UnselectedRows(data[..m]);
    assert data == data[..m] + data[m..];
    SelectedConcat(data[..m], data[m..]);
    NoneSelectedSplit(data[m..]);
    assert SelectedRows(data) == s + [] == s;
    assert Reverse(s) + u + data[m..] == Reverse(s) + (u + data[m..]);
  }

  /** Once no selected row is left before `m`, the list is in its final order. */
  lemma BottomSettled(data: seq<UserData>, m: int)
    requires 0 <= m <= |data|
    requires forall p :: 0 <= p < m ==> !data[p].selected
    ensures data[..m] + UnselectedRows(data[m..]) + Reverse(SelectedRows(data[m..])) == MovedToBottom(data)
  {
    var s, u := SelectedRows(data[m..]), UnselectedRows(data[m..]);
    assert data == data[..m] + data[m..];
    SelectedConcat(data[..m], data[m..]);
    NoneSelectedSplit(data[..m]);
    assert SelectedRows(data) == [] + s == s;
    assert data[..m] + u + Reverse(s) == (data[..m] + u) + Reverse(s);
  }

  // ---------------------------------------------------------------------------
  // What the moves do

  lemma {:induction false} UpPassMultiset(carried: UserData, rest: seq<UserData>)
    ensures multiset(UpPass(carried, rest)) == multiset([carried] + rest)
    decreases rest
  {
    if rest != [] {
      assert rest == [rest[0]] + rest[1..];
      if rest[0].selected {
        UpPassMultiset(carried, rest[1..]);
      } else {
        UpPassMultiset(rest[0], rest[1..]);
      }
    }
  }

  lemma {:induction false} DownPassMirror(rest: seq<UserData>, carried: UserData)
    ensures DownPass(rest, carried) == Reverse(UpPass(carried, Reverse(rest)))
  {
    if rest != [] {
      var front, last := rest[..|rest| - 1], rest[|rest| - 1];
      assert rest == front + [last];
      ReverseAppend(front, last);
      var r := Reverse(rest);
      assert r[0] == last && r[1..] == Reverse(front);
      if last.selected {
        DownPassMirror(front, carried);
        ReverseCons(last, UpPass(carried, Reverse(front)));
      } else {
        DownPassMirror(front, last);
        ReverseCons(carried, UpPass(last, Reverse(front)));
      }
    }
  }

  /** Moving down is moving up in the list read backwards. */
  lemma MovedDownMirrorsUp(rows: seq<UserData>)
    ensures MovedDown(rows) == Reverse(MovedUp(Reverse(rows)))
  {
    if rows != [] {
      var front, last := rows[..|rows| - 1], rows[|rows| - 1];
      assert rows == front + [last];
      ReverseAppend(front, last);
      DownPassMirror(front, last);
      assert Reverse(rows)[1..] == Reverse(front);
    }
  }

  lemma MovedUpPermutation(rows: seq<UserData>)
    ensures multiset(MovedUp(rows)) == multiset(rows)
  {
    if rows != [] {
      UpPassMultiset(rows[0], rows[1..]);
      assert rows == [rows[0]] + rows[1..];
    }
  }

  lemma MovedDownPermutation(rows: seq<UserData>)
    ensures multiset(MovedDown(rows)) == multiset(rows)
  {
    var e := Reverse(rows);
    MovedDownMirrorsUp(rows);
    MovedUpPermutation(e);
    ReverseMultiset(rows);
    ReverseMultiset(MovedUp(e));
  }

  /** Every move only rearranges the rows. */
  lemma MovedPermutation(rows: seq<UserData>, direction: Direction)
    ensures |Moved(rows, direction)| == |rows|
    ensures multiset(Moved(rows, direction)) == multiset(rows)
  {
    match direction
    case Up => MovedUpPermutation(rows);
    case Down => MovedDownPermutation(rows);
    case Top =>
      SplitSizes(rows);
      ReverseMultiset(SelectedRows(rows));
    case Bottom =>
      SplitSizes(rows);
      ReverseMultiset(SelectedRows(rows));
  }

  /** Moving only rearranges rows, so it keeps the ids unique or not. */
  lemma MovedUniqueIds(rows: seq<UserData>, direction: Direction)
    ensures UniqueIds(Moved(rows, direction)) <==> UniqueIds(rows)
  {
    MovedPermutation(rows, direction);
    UniqueIdsPermutation(Moved(rows, direction), rows);
  }

  lemma {:induction false} UpPassLiftsSelected(carried: UserData, rest: seq<UserData>)
    ensures forall k :: 0 <= k < |rest| && rest[k].selected ==> UpPass(carried, rest)[k] == rest[k]
    decreases rest
  {
    if rest != [] {
      if rest[0].selected {
        UpPassLiftsSelected(carried, rest[1..]);
      } else {
        UpPassLiftsSelected(rest[0], rest[1..]);
      }
      forall k | 0 < k < |rest| && rest[k].selected ensures UpPass(carried, rest)[k] == rest[k] {
        assert rest[1..][k - 1] == rest[k];
      }
    }
  }

  /** `up`: each selected row below the first row ends up one place higher. */
  lemma MovedUpLiftsSelected(rows: seq<UserData>)
    ensures forall i :: 0 < i < |rows| && rows[i].selected ==> MovedUp(rows)[i - 1] == rows[i]
  {
    if rows != [] {
      UpPassLiftsSelected(rows[0], rows[1..]);
      forall i | 0 < i < |rows| && rows[i].selected ensures MovedUp(rows)[i - 1] == rows[i] {
        assert rows[1..][i - 1] == rows[i];
      }
    }
  }

  lemma {:induction false} UpPassUnselected(carried: UserData, rest: seq<UserData>)
    ensures UnselectedRows(UpPass(carried, rest)) == UnselectedRows([carried] + rest)
    ensures !carried.selected ==> SelectedRows(UpPass(carried, rest)) == SelectedRows(rest)
    decreases rest
  {
    if rest == [] {
      assert [carried] + rest == [carried];
    } else {
      var x := rest[0];
      assert [carried] + rest == [carried] + ([x] + rest[1..]);
      SelectedConcat([carried], [x] + rest[1..]);
      SelectedConcat([x], rest[1..]);
      assert rest == [x] + rest[1..];
      if x.selected {
        UpPassUnselected(carried, rest[1..]);
        SelectedConcat([x], UpPass(carried, rest[1..]));
        SelectedConcat([carried], rest[1..]);
      } else {
        UpPassUnselected(x, rest[1..]);
        SelectedConcat([carried], UpPass(x, rest[1..]));
        SelectedConcat([x], rest[1..]);
      }
    }
  }

  /**
   * `up` swaps only with a selected row, so the unselected rows keep their
   * order; the selected rows keep theirs too when the first row is not selected.
   */
  lemma MovedUpKeepsOrder(rows: seq<UserData>)
    ensures UnselectedRows(MovedUp(rows)) == UnselectedRows(rows)
    ensures rows != [] && !rows[0].selected ==> SelectedRows(MovedUp(rows)) == SelectedRows(rows)
  {
    if rows != [] {
      UpPassUnselected(rows[0], rows[1..]);
      assert rows == [rows[0]] + rows[1..];
      SelectedConcat([rows[0]], rows[1..]);
    }
  }

  /**
   * When the first two rows are both selected, `up` still swaps them: the
   * first row's own turn does nothing, the second row's turn moves it above
   * the first, so the selected rows do not keep their order.
   */
  lemma MovedUpSwapsLeadingPair(rows: seq<UserData>)
    requires |rows| >= 2 && rows[0].selected && rows[1].selected && rows[0] != rows[1]
    ensures MovedUp(rows)[0] == rows[1]
    ensures SelectedRows(MovedUp(rows)) != SelectedRows(rows)
  {
    MovedUpLiftsSelected(rows);
    var r := MovedUp(rows);
    assert r == [r[0]] + r[1..];
    SelectedConcat([r[0]], r[1..]);
    assert rows == [rows[0]] + rows[1..];
    SelectedConcat([rows[0]], rows[1..]);
  }

  /** `down`: each selected row above the last row ends up one place lower. */
  lemma MovedDownLowersSelected(rows: seq<UserData>)
    ensures forall i :: 0 <= i < |rows| - 1 && rows[i].selected ==> MovedDown(rows)[i + 1] == rows[i]
  {
    var n, e := |rows|, Reverse(rows);
    MovedDownMirrorsUp(rows);
    MovedUpLiftsSelected(e);
    ReverseIndex(rows);
    ReverseIndex(MovedUp(e));
    forall i | 0 <= i < n - 1 && rows[i].selected ensures MovedDown(rows)[i + 1] == rows[i] {
      assert e[n - 1 - i] == rows[i];
      assert MovedDown(rows)[i + 1] == MovedUp(e)[n - 1 - (i + 1)];
    }
  }

  /**
   * `down` swaps only with a selected row, so the unselected rows keep their
   * order; the selected rows keep theirs too when the last row is not selected.
   */
  lemma MovedDownKeepsOrder(rows: seq<UserData>)
    ensures UnselectedRows(MovedDown(rows)) == UnselectedRows(rows)
    ensures rows != [] && !rows[|rows| - 1].selected ==> SelectedRows(MovedDown(rows)) == SelectedRows(rows)
  {
    var e := Reverse(rows);
    MovedDownMirrorsUp(rows);
    MovedUpKeepsOrder(e);
    SelectedReverse(MovedUp(e));
    SelectedReverse(rows);
    ReverseReverse(UnselectedRows(rows));
    ReverseReverse(SelectedRows(rows));
    if rows != [] {
      ReverseIndex(rows);
      assert e[0] == rows[|rows| - 1];
    }
  }

  /**
   * `top`: the k selected rows take the first k places, in reverse of their
   * original order, and the unselected rows follow in their original order.
   */
  lemma MovedToTopLayout(rows: seq<UserData>)
    ensures var r, k := MovedToTop(rows), |SelectedRows(rows)|;
      |r| == |rows| &&
      (forall p :: 0 <= p < |r| ==> (r[p].selected <==> p < k)) &&
      SelectedRows(r) == Reverse(SelectedRows(rows)) &&
      UnselectedRows(r) == UnselectedRows(rows)
  {
    var s, u := Reverse(SelectedRows(rows)), UnselectedRows(rows);
    SplitSizes(rows);
    SplitFlags(rows);
    ReverseFlags(SelectedRows(rows));
    SelectedConcat(s, u);
    AllSelectedSplit(s);
    NoneSelectedSplit(u);
  }

  /**
   * `bottom`: the k selected rows take the last k places, in reverse of their
   * original order, and the unselected rows keep their order ahead of them.
   */
  lemma MovedToBottomLayout(rows: seq<UserData>)
    ensures var r, k := MovedToBottom(rows), |SelectedRows(rows)|;
      |r| == |rows| &&
      (forall p :: 0 <= p < |r| ==> (r[p].selected <==> p >= |rows| - k)) &&
      SelectedRows(r) == Reverse(SelectedRows(rows)) &&
      UnselectedRows(r) == UnselectedRows(rows)
  {
    var s, u := Reverse(SelectedRows(rows)), UnselectedRows(rows);
    SplitSizes(rows);
    SplitFlags(rows);
    ReverseFlags(SelectedRows(rows));
    SelectedConcat(u, s);
    AllSelectedSplit(s);
    NoneSelectedSplit(u);
  }

  /** A second `top` restores the selected rows' original order. */
  lemma MovedToTopTwice(rows: seq<UserData>)
    ensures MovedToTop(MovedToTop(rows)) == SelectedRows(rows) + UnselectedRows(rows)
  {
    MovedToTopLayout(rows);
    ReverseReverse(SelectedRows(rows));
  }

  lemma {:induction false} UpPassNoneSelected(carried: UserData, rest: seq<UserData>)
    requires NoneSelected(rest)
    ensures UpPass(carried, rest) == [carried] + rest
    decreases rest
  {
    if rest != [] {
      UpPassNoneSelected(rest[0], rest[1..]);
      assert rest == [rest[0]] + rest[1..];
    }
  }

  /** Without a selected row no move changes anything. */
  lemma NothingSelectedNothingMoves(rows: seq<UserData>, direction: Direction)
    requires NoneSelected(rows)
    ensures Moved(rows, direction) == rows
  {
    NoneSelectedSplit(rows);
    if rows != [] {
      UpPassNoneSelected(rows[0], rows[1..]);
      assert rows == [rows[0]] + rows[1..];
      var e := Reverse(rows);
      ReverseFlags(rows);
      UpPassNoneSelected(e[0], e[1..]);
      assert e == [e[0]] + e[1..];
    }
    MovedDownMirrorsUp(rows);
    ReverseReverse(rows);
  }
}
