/** The state key of a board: its cells flattened row by row. The learning
    players index their tables by it, so it must identify the grid. */
module GridState {
  import opened Grids

  /** Position r·n + c: where cell (r, c) of an n-column grid lands. */
  function Index(n: nat, r: nat, c: nat): nat {
    r * n + c
  }

  /** Row-major flattening of the rows of a grid. */
  function State(g: Grid): seq<Cell> {
    if g == [] then [] else g[0] + State(g[1..])
  }

  /** Every row has length n (g need not have n rows). */
  predicate Rows(g: Grid, n: nat) {
    forall i :: 0 <= i < |g| ==> |g[i]| == n
  }

  lemma {:induction false} RowsLength(g: Grid, n: nat)
    requires Rows(g, n)
    ensures |State(g)| == |g| * n
  {
    if g != [] {
      RowsLength(g[1..], n);
      MulSucc(|g| - 1, n);
      assert |State(g)| == n + (|g| - 1) * n;
    }
  }

  lemma {:induction false} RowsAt(g: Grid, n: nat, r: nat, c: nat)
    requires Rows(g, n) && r < |g| && c < n
    ensures r * n + c < |State(g)| && State(g)[r * n + c] == g[r][c]
  {
    RowsLength(g, n);
    if r > 0 {
      RowsAt(g[1..], n, r - 1, c);
      MulSucc(r - 1, n);
      assert r * n + c == n + ((r - 1) * n + c);
    }
  }

  /** The key of an N×N grid has N·N entries. */
  lemma StateLength(g: Grid)
    requires Square(g)
    ensures |State(g)| == |g| * |g|
  {
    RowsLength(g, |g|);
  }

  /** Cell (r, c) sits at position r·N + c of the key. */
  lemma StateAt(g: Grid, r: nat, c: nat)
    requires Square(g) && r < |g| && c < |g|
    ensures Index(|g|, r, c) < |State(g)| && State(g)[Index(|g|, r, c)] == g[r][c]
  {
    RowsAt(g, |g|, r, c);
  }

  /** The key is the row-major flattening: N·N entries, cell (r, c) at r·N + c. */
  lemma {:induction false} StateLayout(g: Grid)
    requires Square(g)
    ensures |State(g)| == |g| * |g|
    ensures forall r, c :: 0 <= r < |g| && 0 <= c < |g| ==>
      Index(|g|, r, c) < |State(g)| && State(g)[Index(|g|, r, c)] == g[r][c]
  {
    StateLength(g);
    forall r, c | 0 <= r < |g| && 0 <= c < |g|
      ensures Index(|g|, r, c) < |State(g)| && State(g)[Index(|g|, r, c)] == g[r][c]
    {
      StateAt(g, r, c);
    }
  }

  lemma SquaresOfEqualArea(n: nat, m: nat)
    ensures n * n == m * m ==> n == m
  {
    if n < m {
      assert n * n < m * m by {
        assert n * n <= n * m;
        assert n * m < m * m;
      }
    } else if m < n {
      assert m * m < n * n by {
        assert m * m <= m * n;
        assert m * n < n * n;
      }
    }
  }

  /** Two square grids have the same key only if they are the same grid, so
      the key identifies the board (the converse is immediate). */
  lemma StateInjective(g: Grid, h: Grid)
    requires Square(g) && Square(h) && State(g) == State(h)
    ensures g == h
  {
    StateLength(g);
    StateLength(h);
    SquaresOfEqualArea(|g|, |h|);
    var n := |g|;
    forall r, c | 0 <= r < n && 0 <= c < n ensures g[r][c] == h[r][c] {
      StateAt(g, r, c);
      StateAt(h, r, c);
    }
    assert forall r :: 0 <= r < n ==> g[r] == h[r];
  }

  lemma SquareBelow(k: nat, n: nat)
    requires k < n
    ensures k * k < n * n
  {
    assert k * k <= k * n;
    assert k * n < n * n;
  }

  /** The side of a square of area len: the least n with n·n ≥ len. */
  function Side(len: nat): nat {
    SideFrom(len, 0)
  }

  function SideFrom(len: nat, n: nat): nat
    decreases len - n
  {
    if n * n >= len then n
    else
      assert n < len by {
        if n > 0 {
          MulSucc(n - 1, n);
        }
      }
      SideFrom(len, n + 1)
  }

  lemma {:induction false} SideFromSquare(n: nat, k: nat)
    requires k <= n
    ensures SideFrom(n * n, k) == n
    decreases n - k
  {
    if k < n {
      SquareBelow(k, n);
      SideFromSquare(n, k + 1);
    }
  }

  /** The side of an N×N key is N. */
  lemma SideOfSquare(n: nat)
    ensures Side(n * n) == n
  {
    SideFromSquare(n, 0);
  }

  /** Action a names an empty cell of the square grid that key s flattens. */
  predicate LegalKey(s: seq<Cell>, a: Action) {
    var n := Side(|s|);
    0 <= a.row < n && 0 <= a.col < n && Index(n, a.row, a.col) < |s| && s[Index(n, a.row, a.col)] == 0
  }

  /** Reading the key gives back the board's own legality test. */
  lemma LegalKeyIff(g: Grid, a: Action)
    requires Square(g)
    ensures LegalKey(State(g), a) <==> Legal(g, a)
  {
    StateLength(g);
    SideOfSquare(|g|);
    if InRange(g, a) {
      StateAt(g, a.row, a.col);
    }
  }
}

