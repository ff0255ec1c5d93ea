/** The row window that whitespace trimming keeps, over the sequence `q`
    whose entry `y` says whether row `y` differs from the background.
    Both sources scan top-down for the first differing row and bottom-up
    for the last one, and keep every row when none differs. */
module Scan {

  /** The rows kept by a trim: `[top, bottom)`. */
  datatype Window = Window(top: nat, bottom: nat)

  /** The top-down scan started at row `i`: the first differing row at or
      after `i`, or 0 (the initial `top`) when there is none. */
  function FirstFrom(q: seq<bool>, i: nat): (r: nat)
    requires i <= |q|
    ensures (forall k | i <= k < |q| :: !q[k]) ==> r == 0
    ensures (exists k | i <= k < |q| :: q[k]) ==>
      i <= r < |q| && q[r] && forall k | i <= k < r :: !q[k]
    decreases |q| - i
  {
    if i == |q| then 0
    else if q[i] then i
    else FirstFrom(q, i + 1)
  }

  /** The bottom-up scan started below row `j - 1`: one past the last
      differing row before `j`, or `|q|` (the initial `bottom`) when there
      is none. */
  function LastBefore(q: seq<bool>, j: nat): (r: nat)
    requires j <= |q|
    ensures (forall k | 0 <= k < j :: !q[k]) ==> r == |q|
    ensures (exists k | 0 <= k < j :: q[k]) ==>
      0 < r <= j && q[r - 1] && forall k | r <= k < j :: !q[k]
  {
    if j == 0 then |q|
    else if q[j - 1] then j
    else LastBefore(q, j - 1)
  }

  /** What a trim window promises: no row outside it differs; when some
      row differs the window starts and ends on differing rows, and
      otherwise it is the whole image. */
  predicate IsTrimWindow(q: seq<bool>, w: Window) {
    && w.top <= w.bottom <= |q|
    && (forall k | 0 <= k < w.top :: !q[k])
    && (forall k | w.bottom <= k < |q| :: !q[k])
    && if exists k | 0 <= k < |q| :: q[k]
       then w.top < w.bottom && q[w.top] && q[w.bottom - 1]
       else w == Window(0, |q|)
  }

  /** The window that the two scans of the source compute. */
  function TrimWindow(q: seq<bool>): (w: Window)
    ensures IsTrimWindow(q, w)
    ensures |q| > 0 ==> w.top < w.bottom
  {
    Window(FirstFrom(q, 0), LastBefore(q, |q|))
  }

  /** The trim window is determined by `q`: any window with its promises
      is the one the scans compute. */
  lemma TrimWindowUnique(q: seq<bool>, w: Window)
    requires IsTrimWindow(q, w)
    ensures w == TrimWindow(q)
  {
    var t := TrimWindow(q);
    if exists k | 0 <= k < |q| :: q[k] {
      assert !(w.top < t.top) && !(t.top < w.top);
      assert !(w.bottom < t.bottom) && !(t.bottom < w.bottom);
    }
  }

  /** When every row answers the same way (a uniform image, say), the
      trim keeps the whole image. */
  lemma ConstantRowsKeepAll(q: seq<bool>)
    requires forall k | 0 <= k < |q| :: q[k] == q[0]
    ensures TrimWindow(q) == Window(0, |q|)
  {
    var w := TrimWindow(q);
    if |q| > 0 && q[0] {
      assert w.top == 0;
      assert q[|q| - 1];
    }
  }

  /** When exactly the rows of `[a, b)` differ, with `a < b`, the trim
      keeps exactly those rows. */
  lemma BandIsKept(q: seq<bool>, a: nat, b: nat)
    requires a < b <= |q|
    requires forall k | 0 <= k < |q| :: q[k] <==> a <= k < b
    ensures TrimWindow(q) == Window(a, b)
  {
    assert q[a];
    TrimWindowUnique(q, Window(a, b));
  }
}
