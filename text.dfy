/** Text rendering of a grid: one line per row, the symbols ' ', 'X', 'O'
    joined by '|', rows separated by a rule of N dashes joined by '+'. */
module GridText {
  import opened Grids

  const Symbols: string := " XO"

  /** `parts` joined with `sep` between neighbours. */
  function Join(parts: seq<string>, sep: string): string {
    if |parts| == 0 then ""
    else if |parts| == 1 then parts[0]
    else parts[0] + sep + Join(parts[1..], sep)
  }

  function RowText(row: seq<Cell>): string {
    Join(seq(|row|, i requires 0 <= i < |row| => [Symbols[row[i]]]), "|")
  }

  /** The rule between rows: a newline, N dashes joined by '+', a newline. */
  function Rule(n: nat): string {
    "\n" + Join(seq(n, i => "-"), "+") + "\n"
  }

  function Text(g: Grid): string {
    Join(RowTexts(g), Rule(|g|))
  }

  predicate Uniform(parts: seq<string>, len: nat) {
    forall k :: 0 <= k < |parts| ==> |parts[k]| == len
  }

  /** Joining m parts of length L gives m·L + (m-1)·|sep| characters. */
  lemma {:induction false} JoinLength(parts: seq<string>, sep: string, len: nat)
    requires |parts| > 0 && Uniform(parts, len)
    ensures |Join(parts, sep)| == |parts| * len + (|parts| - 1) * |sep|
  {
    if |parts| > 1 {
      JoinLength(parts[1..], sep, len);
      MulSucc(|parts| - 1, len);
      MulSucc(|parts| - 2, |sep|);
      assert |Join(parts, sep)| == len + |sep| + (|parts| - 1) * len + (|parts| - 2) * |sep|;
    }
  }

  /** Character j of part k is at k·(L + |sep|) + j. */
  lemma {:induction false} JoinPartAt(parts: seq<string>, sep: string, len: nat, k: nat, j: nat)
    requires Uniform(parts, len) && k < |parts| && j < len
    ensures k * (len + |sep|) + j < |Join(parts, sep)|
    ensures Join(parts, sep)[k * (len + |sep|) + j] == parts[k][j]
  {
    JoinLength(parts, sep, len);
    if k > 0 {
      JoinPartAt(parts[1..], sep, len, k - 1, j);
      MulSucc(k - 1, len + |sep|);
      assert k * (len + |sep|) + j == len + |sep| + ((k - 1) * (len + |sep|) + j);
    }
  }

  /** Character j of the separator after part k is at k·(L + |sep|) + L + j. */
  lemma {:induction false} JoinSepAt(parts: seq<string>, sep: string, len: nat, k: nat, j: nat)
    requires Uniform(parts, len) && k + 1 < |parts| && j < |sep|
    ensures k * (len + |sep|) + len + j < |Join(parts, sep)|
    ensures Join(parts, sep)[k * (len + |sep|) + len + j] == sep[j]
  {
    JoinLength(parts, sep, len);
    if k > 0 {
      JoinSepAt(parts[1..], sep, len, k - 1, j);
      MulSucc(k - 1, len + |sep|);
      assert k * (len + |sep|) + len + j == len + |sep| + ((k - 1) * (len + |sep|) + len + j);
    }
  }

  /** A row of N cells renders as 2N-1 characters: the symbols at even
      positions, '|' between them. */
  lemma {:induction false} RowTextLayout(row: seq<Cell>)
    requires |row| > 0
    ensures |RowText(row)| == 2 * |row| - 1
    ensures forall c :: 0 <= c < |row| ==> RowText(row)[2 * c] == Symbols[row[c]]
    ensures forall c :: 0 <= c < |row| - 1 ==> RowText(row)[2 * c + 1] == '|'
  {
    var parts := seq(|row|, i requires 0 <= i < |row| => [Symbols[row[i]]]);
    assert Uniform(parts, 1);
    JoinLength(parts, "|", 1);
    forall c | 0 <= c < |row| ensures RowText(row)[2 * c] == Symbols[row[c]] {
      JoinPartAt(parts, "|", 1, c, 0);
      assert c * (1 + |"|"|) + 0 == 2 * c;
    }
    forall c | 0 <= c < |row| - 1 ensures RowText(row)[2 * c + 1] == '|' {
      JoinSepAt(parts, "|", 1, c, 0);
      assert c * (1 + |"|"|) + 1 + 0 == 2 * c + 1;
    }
  }

  /** The rule of an N-column grid: newline, N dashes with '+' between them,
      newline; 2N+1 characters. */
  lemma {:induction false} RuleLayout(n: nat)
    requires n > 0
    ensures |Rule(n)| == 2 * n + 1
    ensures Rule(n)[0] == '\n' && Rule(n)[2 * n] == '\n'
    ensures forall i :: 0 <= i < n ==> Rule(n)[2 * i + 1] == '-'
    ensures forall i :: 0 <= i < n - 1 ==> Rule(n)[2 * i + 2] == '+'
  {
    var parts := seq(n, i => "-");
    JoinLength(parts, "+", 1);
    var d := Join(parts, "+");
    assert Rule(n) == "\n" + d + "\n";
    forall i | 0 <= i < n ensures Rule(n)[2 * i + 1] == '-' {
      JoinPartAt(parts, "+", 1, i, 0);
      assert i * (1 + |"+"|) + 0 == 2 * i;
      assert Rule(n)[2 * i + 1] == d[2 * i];
    }
    forall i | 0 <= i < n - 1 ensures Rule(n)[2 * i + 2] == '+' {
      JoinSepAt(parts, "+", 1, i, 0);
      assert i * (1 + |"+"|) + 1 + 0 == 2 * i + 1;
      assert Rule(n)[2 * i + 2] == d[2 * i + 1];
    }
  }

  lemma {:induction false} RowsUniform(g: Grid)
    requires Square(g) && |g| > 0
    ensures Uniform(RowTexts(g), 2 * |g| - 1)
  {
    var rows := RowTexts(g);
    forall r | 0 <= r < |g| ensures |rows[r]| == 2 * |g| - 1 {
      RowTextLayout(g[r]);
    }
  }

  /** Where the symbol of cell (r, c) sits in the rendering of an N×N grid:
      each row and the rule below it take 4N characters. */
  function CellPos(n: nat, r: nat, c: nat): nat {
    r * (4 * n) + 2 * c
  }

  /** Where character j of the rule below row r sits. */
  function RulePos(n: nat, r: nat, j: nat): int {
    r * (4 * n) + (2 * n - 1) + j
  }

  /** The rows' texts, the parts the rendering joins. */
  function RowTexts(g: Grid): seq<string> {
    seq(|g|, r requires 0 <= r < |g| => RowText(g[r]))
  }

  /** The symbol of cell (r, c) is at CellPos, and a '|' follows it unless c
      is the last column. */
  lemma {:induction false} TextAt(g: Grid, r: nat, c: nat)
    requires Square(g) && r < |g| && c < |g|
    ensures CellPos(|g|, r, c) < |Text(g)| && Text(g)[CellPos(|g|, r, c)] == Symbols[g[r][c]]
    ensures c + 1 < |g| ==> CellPos(|g|, r, c) + 1 < |Text(g)| && Text(g)[CellPos(|g|, r, c) + 1] == '|'
  {
    var n := |g|;
    var rows := RowTexts(g);
    RowsUniform(g);
    RuleLayout(n);
    RowTextLayout(g[r]);
    JoinPartAt(rows, Rule(n), 2 * n - 1, r, 2 * c);
    if c + 1 < n {
      JoinPartAt(rows, Rule(n), 2 * n - 1, r, 2 * c + 1);
    }
  }

  /** Character j of the rule below row r (not the last) is at RulePos. */
  lemma {:induction false} RuleAt(g: Grid, r: nat, j: nat)
    requires Square(g) && r + 1 < |g| && j < |Rule(|g|)|
    ensures 0 <= RulePos(|g|, r, j) < |Text(g)| && Text(g)[RulePos(|g|, r, j)] == Rule(|g|)[j]
  {
    var n := |g|;
    RowsUniform(g);
    RuleLayout(n);
    JoinSepAt(RowTexts(g), Rule(n), 2 * n - 1, r, j);
  }

  lemma LengthArith(n: nat)
    requires n > 0
    ensures n * (2 * n - 1) + (n - 1) * (2 * n + 1) == 4 * n * n - 2 * n - 1
  {
  }

  /** The rendering of an N×N grid (N ≥ 1) is N rows of 2N-1 characters
      separated by rules of 2N+1 characters, 4N²-2N-1 characters in all. */
  lemma {:induction false} TextLength(g: Grid)
    requires Square(g) && |g| > 0
    ensures |Text(g)| == 4 * |g| * |g| - 2 * |g| - 1
  {
    var n := |g|;
    RowsUniform(g);
    RuleLayout(n);
    JoinLength(RowTexts(g), Rule(n), 2 * n - 1);
    LengthArith(n);
  }

  /** The layout of the rendering, which fixes every character: its length;
      the symbol of each cell (r, c) at CellPos, with a '|' after it unless c
      is the last column; and below every row but the last, the rule
      (RuleLayout: newline, N dashes joined by '+', newline). */
  lemma {:induction false} TextLayout(g: Grid)
    requires Square(g) && |g| > 0
    ensures |Text(g)| == 4 * |g| * |g| - 2 * |g| - 1
    ensures forall r, c :: 0 <= r < |g| && 0 <= c < |g| ==>
      CellPos(|g|, r, c) < |Text(g)| && Text(g)[CellPos(|g|, r, c)] == Symbols[g[r][c]]
    ensures forall r, c :: 0 <= r < |g| && 0 <= c < |g| - 1 ==>
      CellPos(|g|, r, c) + 1 < |Text(g)| && Text(g)[CellPos(|g|, r, c) + 1] == '|'
    ensures forall r, j :: 0 <= r < |g| - 1 && 0 <= j < |Rule(|g|)| ==>
      0 <= RulePos(|g|, r, j) < |Text(g)| && Text(g)[RulePos(|g|, r, j)] == Rule(|g|)[j]
  {
    TextLength(g);
    forall r, c | 0 <= r < |g| && 0 <= c < |g| ensures
      && CellPos(|g|, r, c) < |Text(g)| && Text(g)[CellPos(|g|, r, c)] == Symbols[g[r][c]]
      && (c + 1 < |g| ==> CellPos(|g|, r, c) + 1 < |Text(g)| && Text(g)[CellPos(|g|, r, c) + 1] == '|')
    {
      TextAt(g, r, c);
    }
    forall r, j | 0 <= r < |g| - 1 && 0 <= j < |Rule(|g|)|
      ensures 0 <= RulePos(|g|, r, j) < |Text(g)| && Text(g)[RulePos(|g|, r, j)] == Rule(|g|)[j]
    {
      RuleAt(g, r, j);
    }
  }
}
