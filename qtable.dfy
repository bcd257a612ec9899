/** The Q-table of the learning player: state key -> (action -> value). A row
    is kept as its (action, value) pairs in insertion order, which is the
    order a Python dict iterates in; reading a missing entry yields 0.0, and
    the learner's reads insert what they read, as a defaultdict does. */
module QTables {
  import opened Grids
  import opened GridState

  type Key = seq<Cell>
  type Row = seq<(Action, real)>
  type Table = map<Key, Row>

  /** The actions of a row, in insertion order. */
  function Keys(row: Row): (ks: seq<Action>)
    ensures |ks| == |row| && forall k :: 0 <= k < |row| ==> ks[k] == row[k].0
  {
    seq(|row|, k requires 0 <= k < |row| => row[k].0)
  }

  /** No action is stored twice. */
  predicate Distinct(row: Row) {
    forall i, j :: 0 <= i < j < |row| ==> row[i].0 != row[j].0
  }

  /** The position of the first entry of a. */
  function Find(row: Row, a: Action): (i: nat)
    requires a in Keys(row)
    ensures i < |row| && row[i].0 == a && forall j :: 0 <= j < i ==> row[j].0 != a
  {
    FindFrom(row, a, 0)
  }

  function FindFrom(row: Row, a: Action, i: nat): (f: nat)
    requires i <= |row| && exists k :: i <= k < |row| && row[k].0 == a
    decreases |row| - i
    ensures i <= f < |row| && row[f].0 == a && forall j :: i <= j < f ==> row[j].0 != a
  {
    if row[i].0 == a then i else FindFrom(row, a, i + 1)
  }

  /** The stored value of a, or 0.0 when a was never written. */
  function Get(row: Row, a: Action): (v: real)
    ensures a !in Keys(row) ==> v == 0.0
    ensures forall k :: 0 <= k < |row| && row[k].0 == a && Distinct(row) ==> v == row[k].1
  {
    if a in Keys(row) then row[Find(row, a)].1 else 0.0
  }

  /** The row after writing v under a: in place when a is stored, appended
      otherwise, as a dict assignment does, so the keys gain a only when it was missing. */
  function Set(row: Row, a: Action, v: real): (r: Row)
    ensures |r| == if a in Keys(row) then |row| else |row| + 1
    ensures Keys(r) == if a in Keys(row) then Keys(row) else Keys(row) + [a]
  {
    if a in Keys(row) then row[Find(row, a) := (a, v)] else row + [(a, v)]
  }

  /** After a write distinct keys stay distinct and the other entries stay. */
  lemma SetKeys(row: Row, a: Action, v: real)
    ensures Distinct(row) ==> Distinct(Set(row, a, v))
    ensures forall k :: 0 <= k < |row| && row[k].0 != a ==> Set(row, a, v)[k] == row[k]
  {
  }

  /** Reading through a defaultdict: the row gains (a, 0.0) when a is
      missing; every action reads as before. */
  function Touch(row: Row, a: Action): (r: Row)
    ensures a in Keys(r)
  {
    if a in Keys(row) then row
    else
      assert Keys(row + [(a, 0.0)])[|row|] == a;
      row + [(a, 0.0)]
  }

  /** A read through the defaultdict changes no value read and appends a
      when it was missing. */
  lemma TouchKeys(row: Row, a: Action)
    ensures forall b :: Get(Touch(row, a), b) == Get(row, b)
    ensures Keys(Touch(row, a)) == if a in Keys(row) then Keys(row) else Keys(row) + [a]
    ensures Distinct(row) ==> Distinct(Touch(row, a))
  {
    if a !in Keys(row) {
      GetAppend(row, a, 0.0);
    }
  }

  /** The row of state s, empty when s was never visited. */
  function RowAt(t: Table, s: Key): Row {
    if s in t then t[s] else []
  }

  /** The value of (s, a), 0.0 when it was never written. */
  function Lookup(t: Table, s: Key, a: Action): real {
    Get(RowAt(t, s), a)
  }

  /** The largest stored value. */
  function RowMax(row: Row): (m: real)
    requires |row| > 0
    ensures exists k :: 0 <= k < |row| && row[k].1 == m
    ensures forall k :: 0 <= k < |row| ==> row[k].1 <= m
  {
    if |row| == 1 then row[0].1
    else
      var m := RowMax(row[1..]);
      assert forall k :: 1 <= k < |row| ==> row[k] == row[1..][k - 1];
      if row[0].1 >= m then row[0].1 else m
  }

  /** The actions whose value is m, in row order. */
  function GreedyActions(row: Row, m: real): (ks: seq<Action>)
    ensures forall a :: a in ks <==> exists k :: 0 <= k < |row| && row[k].0 == a && row[k].1 == m
  {
    if row == [] then []
    else
      var rest := GreedyActions(row[1..], m);
      assert forall k :: 1 <= k < |row| ==> row[k] == row[1..][k - 1];
      if row[0].1 == m then [row[0].0] + rest else rest
  }

  /** The first visit of a state: every candidate action at value 0. */
  function InitRow(acts: seq<Action>): (r: Row)
    ensures Keys(r) == acts && forall k :: 0 <= k < |r| ==> r[k].1 == 0.0
  {
    seq(|acts|, k requires 0 <= k < |acts| => (acts[k], 0.0))
  }

  /** The one-step temporal-difference target: the old value moved towards
      reward + df·m by the fraction lr. */
  function Target(q: real, m: real, reward: real, lr: real, df: real): real {
    (1.0 - lr) * q + lr * (reward + df * m)
  }

  /** One update of (s, a): the old value q is read (inserting it at 0.0
      when missing), the maximum m of the row is taken after that read and
      before the write, the value becomes Target(q, m, ...), and the change
      q - new is returned. */
  function Updated(t: Table, s: Key, a: Action, reward: real, lr: real, df: real): (r: (Table, real))
    ensures r.0.Keys == t.Keys + {s} && a in Keys(r.0[s])
    ensures Lookup(r.0, s, a) == Target(Lookup(t, s, a), RowMax(Touch(RowAt(t, s), a)), reward, lr, df)
    ensures r.1 == Lookup(t, s, a) - Lookup(r.0, s, a)
  {
    var row := Touch(RowAt(t, s), a);
    var q := Get(row, a);
    var v := Target(q, RowMax(row), reward, lr, df);
    TouchKeys(RowAt(t, s), a);
    GetSet(row, a, v);
    (t[s := Set(row, a, v)], q - v)
  }

  // ---------------------------------------------------------------------------

  /** A never-written entry reads as 0.0. */
  lemma LookupUnwritten(t: Table, s: Key, a: Action)
    requires s !in t || a !in Keys(t[s])
    ensures Lookup(t, s, a) == 0.0
  {
  }

  /** An update writes the target into (s, a), returns old minus new, and
      leaves every other entry as it was. */
  lemma UpdatedEffect(t: Table, s: Key, a: Action, reward: real, lr: real, df: real)
    ensures var (t', diff) := Updated(t, s, a, reward, lr, df);
      && Lookup(t', s, a) == Target(Lookup(t, s, a), RowMax(Touch(RowAt(t, s), a)), reward, lr, df)
      && diff == Lookup(t, s, a) - Lookup(t', s, a)
      && (forall s', b :: s' != s || b != a ==> Lookup(t', s', b) == Lookup(t, s', b))
      && t'.Keys == t.Keys + {s}
  {
    var row := Touch(RowAt(t, s), a);
    var v := Target(Get(row, a), RowMax(row), reward, lr, df);
    TouchKeys(RowAt(t, s), a);
    GetSet(row, a, v);
  }

  /** With learning rate 0 an update changes no value and returns 0. */
  lemma UpdatedAtRateZero(t: Table, s: Key, a: Action, reward: real, df: real)
    ensures var (t', diff) := Updated(t, s, a, reward, 0.0, df);
      diff == 0.0 && forall s', b :: Lookup(t', s', b) == Lookup(t, s', b)
  {
    UpdatedEffect(t, s, a, reward, 0.0, df);
    var row := Touch(RowAt(t, s), a);
    TargetRates(Get(row, a), RowMax(row), reward, df);
    var (t', diff) := Updated(t, s, a, reward, 0.0, df);
    assert Lookup(t', s, a) == Lookup(t, s, a);
  }


  lemma GetAppend(row: Row, a: Action, v: real)
    requires a !in Keys(row)
    ensures Get(row + [(a, v)], a) == v
    ensures forall b :: b != a ==> Get(row + [(a, v)], b) == Get(row, b)
  {
    var r := row + [(a, v)];
    assert r[|row|].0 == a;
    forall b | b != a ensures Get(r, b) == Get(row, b) {
      if b in Keys(row) {
        var i := Find(row, b);
        assert r[i].0 == b;
        assert Find(r, b) == i;
      } else {
        assert b !in Keys(r);
      }
    }
  }

  /** After a write, a reads back the written value and every other action
      reads as before. */
  lemma GetSet(row: Row, a: Action, v: real)
    ensures Get(Set(row, a, v), a) == v
    ensures forall b :: b != a ==> Get(Set(row, a, v), b) == Get(row, b)
  {
    SetKeys(row, a, v);
    if a in Keys(row) {
      var r := Set(row, a, v);
      var i := Find(row, a);
      assert Keys(r)[i] == a;
      assert Find(r, a) == i;
      forall b | b != a ensures Get(r, b) == Get(row, b) {
        if b in Keys(row) {
          var j := Find(row, b);
          assert Keys(r)[j] == b;
          assert Find(r, b) == j;
        } else {
          assert b !in Keys(r);
        }
      }
    } else {
      GetAppend(row, a, v);
    }
  }

  /** Initialising a row one action at a time, as the first visit does,
      builds InitRow of those actions when none repeats. */
  lemma InitRowStep(acts: seq<Action>, i: nat)
    requires i < |acts| && forall j, k :: 0 <= j < k < |acts| ==> acts[j] != acts[k]
    ensures Set(InitRow(acts[..i]), acts[i], 0.0) == InitRow(acts[..i + 1])
  {
    assert acts[i] !in acts[..i] by {
      assert forall j :: 0 <= j < i ==> acts[..i][j] == acts[j];
    }
    assert acts[..i + 1] == acts[..i] + [acts[i]];
  }

  /** Every greedy choice holds the row's maximum, and there is one. */
  lemma GreedyOfMax(row: Row)
    requires |row| > 0
    ensures |GreedyActions(row, RowMax(row))| > 0
    ensures forall a :: a in GreedyActions(row, RowMax(row)) ==> a in Keys(row)
  {
    var k :| 0 <= k < |row| && row[k].1 == RowMax(row);
    assert row[k].0 in GreedyActions(row, RowMax(row));
  }

  /** With learning rate 0 the value stays; with rate 1 it becomes the target. */
  lemma TargetRates(q: real, m: real, reward: real, df: real)
    ensures Target(q, m, reward, 0.0, df) == q
    ensures Target(q, m, reward, 1.0, df) == reward + df * m
  {
  }

  /** For a rate in [0, 1] the new value lies between the old value and the
      target, so values stay in any interval holding both. */
  lemma TargetBetween(q: real, m: real, reward: real, lr: real, df: real, lo: real, hi: real)
    requires 0.0 <= lr <= 1.0
    requires lo <= q <= hi && lo <= reward + df * m <= hi
    ensures lo <= Target(q, m, reward, lr, df) <= hi
  {
    var t := reward + df * m;
    assert Target(q, m, reward, lr, df) == q + lr * (t - q);
    var d := if q <= t then t - q else q - t;
    assert 0.0 <= lr * d && 0.0 <= (1.0 - lr) * d by {
      NonNegProduct(lr, d);
      NonNegProduct(1.0 - lr, d);
    }
  }

  lemma NonNegProduct(x: real, y: real)
    requires 0.0 <= x && 0.0 <= y
    ensures 0.0 <= x * y
  {
  }
}
