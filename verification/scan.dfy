/** The scan order of the computer's move searches. A search probes every
    piece of a list in every direction of a table; its results form a table
    with one row per piece and one column per direction, read row by row and
    each row left to right. The search stops at the first hit. */
module Scan {
  import opened Wrappers

  /** Every row of the table has `w` entries. */
  predicate Rect(t: seq<seq<bool>>, w: nat)
  {
    forall x :: 0 <= x < |t| ==> |t[x]| == w
  }

  /** No hit at or after position (i, j). */
  predicate NoneFrom(t: seq<seq<bool>>, w: nat, i: nat, j: nat)
    requires Rect(t, w)
  {
    forall x, y :: i <= x < |t| && 0 <= y < w && (x > i || y >= j) ==> !t[x][y]
  }

  /** No hit from position (i, j) up to, not including, (a, b). */
  predicate NoneBetween(t: seq<seq<bool>>, w: nat, i: nat, j: nat, a: nat, b: nat)
    requires Rect(t, w)
  {
    forall x, y :: i <= x < |t| && 0 <= y < w && (x > i || y >= j) && (x < a || (x == a && y < b)) ==> !t[x][y]
  }

  /** The search from position (i, j): the first hit in scan order, if any. */
  function FirstHit(t: seq<seq<bool>>, w: nat, i: nat, j: nat): (r: Option<(nat, nat)>)
    requires Rect(t, w) && i <= |t| && j <= w
    ensures r.Some? ==>
      && i <= r.value.0 < |t| && r.value.1 < w && (r.value.0 > i || r.value.1 >= j)
      && t[r.value.0][r.value.1]
    decreases |t| - i, w - j
  {
    if i == |t| then None
    else if j == w then FirstHit(t, w, i + 1, 0)
    else if t[i][j] then Some((i, j))
    else FirstHit(t, w, i, j + 1)
  }

  /** The search finds nothing exactly when no hit remains. */
  lemma {:induction false} FirstHitNone(t: seq<seq<bool>>, w: nat, i: nat, j: nat)
    requires Rect(t, w) && i <= |t| && j <= w
    ensures FirstHit(t, w, i, j).None? <==> NoneFrom(t, w, i, j)
    decreases |t| - i, w - j
  {
    if i == |t| {
    } else if j == w {
      FirstHitNone(t, w, i + 1, 0);
    } else if t[i][j] {
      assert !NoneFrom(t, w, i, j);
    } else {
      FirstHitNone(t, w, i, j + 1);
    }
  }

  /** What the search finds has no hit before it. */
  lemma {:induction false} FirstHitIsFirst(t: seq<seq<bool>>, w: nat, i: nat, j: nat)
    requires Rect(t, w) && i <= |t| && j <= w
    requires FirstHit(t, w, i, j).Some?
    ensures NoneBetween(t, w, i, j, FirstHit(t, w, i, j).value.0, FirstHit(t, w, i, j).value.1)
    decreases |t| - i, w - j
  {
    if j == w {
      FirstHitIsFirst(t, w, i + 1, 0);
    } else if !t[i][j] {
      FirstHitIsFirst(t, w, i, j + 1);
    }
  }

  /** A hit with no hit before it is what the search finds. */
  lemma {:induction false} FirstHitFinds(t: seq<seq<bool>>, w: nat, i: nat, j: nat, a: nat, b: nat)
    requires Rect(t, w) && j <= w
    requires i <= a < |t| && b < w && (a > i || b >= j)
    requires t[a][b] && NoneBetween(t, w, i, j, a, b)
    ensures FirstHit(t, w, i, j) == Some((a, b))
    decreases |t| - i, w - j
  {
    if j == w {
      FirstHitFinds(t, w, i + 1, 0, a, b);
    } else if (i, j) != (a, b) {
      assert !t[i][j];
      FirstHitFinds(t, w, i, j + 1, a, b);
    }
  }
}
