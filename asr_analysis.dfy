/** The table queries of `FireProtASR_AminoAcid_Analysis` in
    `src/fireprot_asr_analysis.py`, over an ancestral-reconstruction table that
    is already in memory: one row per (node, position) with the columns
    `node, position, -, A, C, ...`. */
module FireProtAsr {
  import opened Common

  /** A probability cell; `'-'` is a missing value. */
  datatype Cell = Dash | Prob(p: real)

  /** One CSV row: `gap` is the `'-'` column, `cells` the amino-acid columns (`iloc[3:]`). */
  datatype Row = Row(node: int, position: int, gap: Cell, cells: seq<Cell>)

  /** `labels` are the amino-acid column names (`columns[3:]`). */
  datatype Table = Table(labels: seq<string>, rows: seq<Row>) {
    /** At least one amino-acid column, distinct column names, every row as wide as the header. */
    predicate Valid()
    {
      |labels| > 0 &&
      (forall i, j :: 0 <= i < j < |labels| ==> labels[i] != labels[j]) &&
      (forall r :: r in rows ==> |r.cells| == |labels|)
    }
  }

  /** `.replace('-', 0).astype(float)` on one cell. */
  function Value(c: Cell): real
  {
    match c
    case Dash => 0.0
    case Prob(p) => p
  }

  function Filled(cells: seq<Cell>): (v: seq<real>)
    ensures |v| == |cells| && forall i :: 0 <= i < |cells| ==> v[i] == Value(cells[i])
  {
    seq(|cells|, i requires 0 <= i < |cells| => Value(cells[i]))
  }

  /** A row without `'-'` among its amino-acid cells. */
  predicate Numeric(r: Row)
  {
    forall i :: 0 <= i < |r.cells| ==> r.cells[i].Prob?
  }

  /** `idxmax` by position: the first index holding the largest value. */
  function ArgMax(v: seq<real>): (k: nat)
    requires |v| > 0
    ensures k < |v|
    ensures forall j :: 0 <= j < |v| ==> v[j] <= v[k]
    ensures forall j :: 0 <= j < k ==> v[j] < v[k]
  {
    if |v| == 1 then 0
    else
      var k := ArgMax(v[..|v| - 1]);
      if v[|v| - 1] > v[k] then |v| - 1 else k
  }

  /** `position_probs.max()`: the largest probability of a row, `'-'` read as 0. */
  function RowMax(r: Row): (m: real)
    requires |r.cells| > 0
    ensures forall j :: 0 <= j < |r.cells| ==> Value(r.cells[j]) <= m
    ensures m in Filled(r.cells)
  {
    var v := Filled(r.cells);
    v[ArgMax(v)]
  }

  /** `position_probs.idxmax()`: the column label of the row's first maximum. */
  function MostProbableLabel(labels: seq<string>, r: Row): (l: string)
    requires |r.cells| == |labels| > 0
    ensures l in labels
  {
    labels[ArgMax(Filled(r.cells))]
  }

  /** The most probable label names a column holding the row's largest
      probability, and no earlier column holds it. */
  lemma MostProbableLabelIsFirstMax(labels: seq<string>, r: Row)
    requires |r.cells| == |labels| > 0
    ensures exists k ::
      0 <= k < |labels| && MostProbableLabel(labels, r) == labels[k] &&
      Value(r.cells[k]) == RowMax(r) &&
      (forall j :: 0 <= j < k ==> Value(r.cells[j]) < RowMax(r))
  {
    var k := ArgMax(Filled(r.cells));
    assert MostProbableLabel(labels, r) == labels[k];
  }

  /** Every row has at least one amino-acid cell. */
  predicate Scored(rows: seq<Row>)
  {
    forall i :: 0 <= i < |rows| ==> |rows[i].cells| > 0
  }

  /** `data[data['node'] == node]`: the node's rows, in table order. */
  function NodeRows(rows: seq<Row>, node: int): (r: seq<Row>)
    ensures |r| <= |rows|
    ensures forall x :: x in r <==> x in rows && x.node == node
  {
    if rows == [] then []
    else (if rows[0].node == node then [rows[0]] else []) + NodeRows(rows[1..], node)
  }

  /** The selection keeps every row of the node as often as the table holds it,
      and no other row. */
  lemma {:induction false} NodeRowsCounts(rows: seq<Row>, node: int, x: Row)
    ensures multiset(NodeRows(rows, node))[x] == if x.node == node then multiset(rows)[x] else 0
  {
    if rows != [] {
      assert rows == [rows[0]] + rows[1..];
      NodeRowsCounts(rows[1..], node, x);
    }
  }

  /** The selection keeps table order: selecting from two blocks of rows is
      selecting from each block in turn. */
  lemma {:induction false} NodeRowsAppend(a: seq<Row>, b: seq<Row>, node: int)
    ensures NodeRows(a + b, node) == NodeRows(a, node) + NodeRows(b, node)
  {
    if a == [] {
      assert a + b == b;
    } else {
      assert (a + b)[0] == a[0];
      assert (a + b)[1..] == a[1..] + b;
      NodeRowsAppend(a[1..], b, node);
    }
  }

  predicate At(r: Row, node: int, position: int)
  {
    r.node == node && r.position == position
  }

  /** `data[(data['node'] == node) & (data['position'] == position)]`. */
  function CellRows(rows: seq<Row>, node: int, position: int): (r: seq<Row>)
    ensures forall x :: x in r <==> x in rows && At(x, node, position)
  {
    if rows == [] then []
    else (if At(rows[0], node, position) then [rows[0]] else []) + CellRows(rows[1..], node, position)
  }

  /** `row.iloc[0]` of a selection is the first row of the table at that node and position. */
  lemma {:induction false} CellRowsFirst(rows: seq<Row>, node: int, position: int)
    requires CellRows(rows, node, position) != []
    ensures exists m ::
      0 <= m < |rows| && rows[m] == CellRows(rows, node, position)[0] &&
      (forall j :: 0 <= j < m ==> !At(rows[j], node, position))
  {
    if At(rows[0], node, position) {
      assert rows[0] == CellRows(rows, node, position)[0];
    } else {
      CellRowsFirst(rows[1..], node, position);
      var m :| 0 <= m < |rows[1..]| && rows[1..][m] == CellRows(rows[1..], node, position)[0] &&
        forall j :: 0 <= j < m ==> !At(rows[1..][j], node, position);
      assert rows[m + 1] == CellRows(rows, node, position)[0];
      forall j | 0 <= j < m + 1 ensures !At(rows[j], node, position) {
        if j > 0 {
          assert rows[j] == rows[1..][j - 1];
        }
      }
    }
  }

  /** `find_most_probable_amino_acid`: `None` when no row is at (node, position);
      otherwise, for the first such row, the label of the first column holding the
      row's largest probability, with that probability. The source does not read
      `'-'` as 0 here: a `'-'` anywhere in an amino-acid column makes that column
      text, and `idxmax` then fails, so every row must be numeric. */
  function FindMostProbableAminoAcid(t: Table, node: int, position: int): (r: Option<(string, real)>)
    requires t.Valid()
    requires forall x :: x in t.rows ==> Numeric(x)
    ensures r.None? <==> forall x :: x in t.rows ==> !At(x, node, position)
    ensures r.Some? ==>
      var row := CellRows(t.rows, node, position)[0];
      |row.cells| == |t.labels| &&
      exists k :: 0 <= k < |t.labels| && r.value == (t.labels[k], Value(row.cells[k])) &&
        (forall j :: 0 <= j < |t.labels| ==> Value(row.cells[j]) <= Value(row.cells[k])) &&
        (forall j :: 0 <= j < k ==> Value(row.cells[j]) < Value(row.cells[k]))
  {
    var matching := CellRows(t.rows, node, position);
    if matching == [] then
      assert forall x :: x in t.rows ==> !At(x, node, position) by {
        forall x | x in t.rows ensures !At(x, node, position) {
          assert x in matching <==> At(x, node, position);
        }
      }
      None
    else
      var row := matching[0];
      assert row in t.rows && At(row, node, position);
      var probabilities := Filled(row.cells);
      var k := ArgMax(probabilities);
      Some((t.labels[k], probabilities[k]))
  }

  /** Column label paired with its probability (`zip(amino_acids, probabilities)`). */
  function Pairs(labels: seq<string>, probabilities: seq<real>): (r: seq<(string, real)>)
    requires |labels| == |probabilities|
    ensures |r| == |labels|
    ensures forall i :: 0 <= i < |r| ==> r[i].0 == labels[i] && r[i].1 == probabilities[i]
  {
    seq(|labels|, i requires 0 <= i < |labels| => (labels[i], probabilities[i]))
  }

  /** `{aa: prob ... if prob > 0}`: the pairs with a strictly positive probability, in order. */
  function Positive(s: seq<(string, real)>): (r: seq<(string, real)>)
    ensures forall x :: multiset(r)[x] == if x.1 > 0.0 then multiset(s)[x] else 0
  {
    if s == [] then []
    else
      assert s == [s[0]] + s[1..];
      (if s[0].1 > 0.0 then [s[0]] else []) + Positive(s[1..])
  }

  predicate SortedDescending(s: seq<(string, real)>)
  {
    forall i, j :: 0 <= i < j < |s| ==> s[i].1 >= s[j].1
  }

  /** Put `x` before the first element that is not more probable. */
  function Insert(x: (string, real), s: seq<(string, real)>): (r: seq<(string, real)>)
    requires SortedDescending(s)
    ensures SortedDescending(r)
    ensures multiset(r) == multiset(s) + multiset{x}
  {
    if s == [] || s[0].1 <= x.1 then [x] + s
    else
      assert s == [s[0]] + s[1..];
      var rest := Insert(x, s[1..]);
      HeadAboveAll(s[0], rest, x, s[1..]);
      [s[0]] + rest
  }

  /** A head at least as probable as every element of a sorted tail keeps the list sorted. */
  lemma HeadAboveAll(h: (string, real), r: seq<(string, real)>, x: (string, real), tail: seq<(string, real)>)
    requires SortedDescending(r) && SortedDescending([h] + tail)
    requires h.1 >= x.1
    requires multiset(r) == multiset(tail) + multiset{x}
    ensures SortedDescending([h] + r)
  {
    forall j | 0 <= j < |r| ensures h.1 >= r[j].1 {
      assert r[j] in multiset(r);
      if r[j] != x {
        assert r[j] in multiset(tail);
        var k :| 0 <= k < |tail| && tail[k] == r[j];
        assert ([h] + tail)[0] == h;
        assert ([h] + tail)[k + 1] == r[j];
      }
    }
  }

  /** `sorted(..., key=lambda x: x[1], reverse=True)`. */
  function SortByProbability(s: seq<(string, real)>): (r: seq<(string, real)>)
    ensures SortedDescending(r)
    ensures multiset(r) == multiset(s)
  {
    if s == [] then []
    else
      assert s == [s[0]] + s[1..];
      Insert(s[0], SortByProbability(s[1..]))
  }

  /** The data behind `plot_amino_acid_distribution`: `None` when no row is at
      (node, position); otherwise the (label, probability) pairs of the first such
      row, only the strictly positive ones, most probable first. */
  function DistributionView(t: Table, node: int, position: int): (r: Option<seq<(string, real)>>)
    requires t.Valid()
    requires CellRows(t.rows, node, position) != [] ==> Numeric(CellRows(t.rows, node, position)[0])
    ensures r.None? <==> CellRows(t.rows, node, position) == []
    ensures r.Some? ==>
      var row := CellRows(t.rows, node, position)[0];
      |row.cells| == |t.labels| && SortedDescending(r.value) &&
      forall x :: multiset(r.value)[x] ==
        if x.1 > 0.0 then multiset(Pairs(t.labels, Filled(row.cells)))[x] else 0
  {
    var matching := CellRows(t.rows, node, position);
    if matching == [] then None
    else
      var row := matching[0];
      assert row in t.rows;
      Some(SortByProbability(Positive(Pairs(t.labels, Filled(row.cells)))))
  }

  /** Every pair of the distribution view is a column of the row with a positive
      probability, and each such column appears exactly once. */
  lemma DistributionMembers(t: Table, node: int, position: int, k: nat)
    requires t.Valid()
    requires CellRows(t.rows, node, position) != [] ==> Numeric(CellRows(t.rows, node, position)[0])
    requires DistributionView(t, node, position).Some? && k < |t.labels|
    ensures var row := CellRows(t.rows, node, position)[0];
      var view := DistributionView(t, node, position).value;
      multiset(view)[(t.labels[k], Value(row.cells[k]))] == if Value(row.cells[k]) > 0.0 then 1 else 0
  {
    var row := CellRows(t.rows, node, position)[0];
    assert row in t.rows;
    var pairs := Pairs(t.labels, Filled(row.cells));
    var x := (t.labels[k], Value(row.cells[k]));
    assert pairs[k] == x;
    DistinctLabelsOnce(pairs, k);
  }

  /** With distinct labels, a pair occurs once. */
  lemma {:induction false} DistinctLabelsOnce(pairs: seq<(string, real)>, k: nat)
    requires k < |pairs|
    requires forall i, j :: 0 <= i < j < |pairs| ==> pairs[i].0 != pairs[j].0
    ensures multiset(pairs)[pairs[k]] == 1
  {
    if k == 0 {
      assert pairs == [pairs[0]] + pairs[1..];
      assert pairs[0] !in pairs[1..] by {
        forall i | 0 <= i < |pairs| - 1 ensures pairs[1..][i] != pairs[0] {
          assert pairs[1..][i].0 == pairs[i + 1].0 != pairs[0].0;
        }
      }
    } else {
      var rest := pairs[1..];
      assert rest[k - 1] == pairs[k];
      DistinctLabelsOnce(rest, k - 1);
      assert pairs == [pairs[0]] + rest;
      assert pairs[0] != pairs[k];
    }
  }

  /** Positions, in row order, of the rows whose largest probability is at most `threshold`. */
  function Masked(rows: seq<Row>, threshold: real): (r: seq<int>)
    requires Scored(rows)
    ensures |r| <= |rows|
  {
    if rows == [] then []
    else
      var last := rows[|rows| - 1];
      Masked(rows[..|rows| - 1], threshold) + (if RowMax(last) <= threshold then [last.position] else [])
  }

  /** A position is masked exactly when some row at it has no probability above the threshold. */
  lemma {:induction false} MaskedMembers(rows: seq<Row>, threshold: real, p: int)
    requires Scored(rows)
    ensures p in Masked(rows, threshold) <==>
      exists i :: 0 <= i < |rows| && rows[i].position == p && RowMax(rows[i]) <= threshold
  {
    if rows != [] {
      var front := rows[..|rows| - 1];
      MaskedMembers(front, threshold, p);
      if exists i :: 0 <= i < |rows| && rows[i].position == p && RowMax(rows[i]) <= threshold {
        var i :| 0 <= i < |rows| && rows[i].position == p && RowMax(rows[i]) <= threshold;
        if i < |rows| - 1 {
          assert front[i] == rows[i];
        }
      }
      if exists i :: 0 <= i < |front| && front[i].position == p && RowMax(front[i]) <= threshold {
        var i :| 0 <= i < |front| && front[i].position == p && RowMax(front[i]) <= threshold;
        assert rows[i] == front[i];
      }
    }
  }

  /** `sum(1 for prob in probabilities if prob > threshold)`. */
  function CountAbove(probabilities: seq<real>, threshold: real): (n: nat)
    ensures n <= |probabilities|
  {
    if probabilities == [] then 0
    else
      CountAbove(probabilities[..|probabilities| - 1], threshold) +
      (if probabilities[|probabilities| - 1] > threshold then 1 else 0)
  }

  /** The largest probability of each row, in row order. */
  function RowMaxes(rows: seq<Row>): (r: seq<real>)
    requires Scored(rows)
    ensures |r| == |rows|
  {
    seq(|rows|, i requires 0 <= i < |rows| => RowMax(rows[i]))
  }

  /** Every row is either green (above the threshold) or masked, never both:
      green rows and masked positions together number the rows. */
  lemma {:induction false} GreenComplementsMasked(rows: seq<Row>, threshold: real)
    requires Scored(rows)
    ensures CountAbove(RowMaxes(rows), threshold) + |Masked(rows, threshold)| == |rows|
  {
    if rows != [] {
      var front := rows[..|rows| - 1];
      GreenComplementsMasked(front, threshold);
      assert RowMaxes(rows)[..|rows| - 1] == RowMaxes(front);
    }
  }

  /** Every row is as wide as a non-empty header. */
  predicate Aligned(labels: seq<string>, rows: seq<Row>)
  {
    |labels| > 0 && forall i :: 0 <= i < |rows| ==> |rows[i].cells| == |labels|
  }

  /** The most probable label of each row, in row order. */
  function MostProbableLabels(labels: seq<string>, rows: seq<Row>): (r: seq<string>)
    requires Aligned(labels, rows)
    ensures |r| == |rows|
    ensures forall i :: 0 <= i < |rows| ==> r[i] == MostProbableLabel(labels, rows[i])
  {
    seq(|rows|, i requires 0 <= i < |rows| => MostProbableLabel(labels, rows[i]))
  }

  /** Without `stop` every row of the node is shown, and its green bars and its
      masked positions together account for every row. */
  lemma FullLengthGreenAndMasked(t: Table, node: int, threshold: real)
    requires t.Valid()
    ensures var rows := NodeRows(t.rows, node);
      ShownRows(rows, None) == |rows| && Scored(rows[..ShownRows(rows, None)]) &&
      CountAbove(RowMaxes(rows[..ShownRows(rows, None)]), threshold) + |Masked(rows, threshold)| == |rows|
  {
    NodeRowsScored(t, node);
    var rows := NodeRows(t.rows, node);
    assert rows[..|rows|] == rows;
    GreenComplementsMasked(rows, threshold);
  }

  lemma NodeRowsScored(t: Table, node: int)
    requires t.Valid()
    ensures Scored(NodeRows(t.rows, node))
    ensures Aligned(t.labels, NodeRows(t.rows, node))
  {
    var rows := NodeRows(t.rows, node);
    forall i | 0 <= i < |rows| ensures |rows[i].cells| == |t.labels| {
      assert rows[i] in rows;
    }
  }

  lemma MaskedStep(rows: seq<Row>, i: nat, threshold: real)
    requires Scored(rows) && i < |rows|
    ensures Scored(rows[..i]) && Scored(rows[..i + 1])
    ensures Masked(rows[..i + 1], threshold) ==
      Masked(rows[..i], threshold) + (if RowMax(rows[i]) <= threshold then [rows[i].position] else [])
  {
    assert rows[..i + 1][..i] == rows[..i];
  }

  /** `masked_amino_acids`: the node's positions whose largest probability is at
      most `threshold`, in row order; `[]` for a node without rows. */
  method MaskedAminoAcids(t: Table, node: int, threshold: real) returns (positions: seq<int>)
    requires t.Valid()
    ensures Scored(NodeRows(t.rows, node))
    ensures positions == Masked(NodeRows(t.rows, node), threshold)
  {
    NodeRowsScored(t, node);
    var nodeData := NodeRows(t.rows, node);
    if nodeData == [] {
      return [];
    }
    positions := [];
    for i := 0 to |nodeData|
      invariant positions == Masked(nodeData[..i], threshold)
    {
      MaskedStep(nodeData, i, threshold);
      var row := nodeData[i];
      var maxProbability := RowMax(row);
      if maxProbability <= threshold {
        positions := positions + [row.position];
      }
    }
    assert nodeData[..|nodeData|] == nodeData;
  }

  /** `get_node_sequence`: the most probable label of each of the node's rows,
      joined in row order; `""` for a node without rows. With one-letter column
      names the result has one letter per row. */
  method GetNodeSequence(t: Table, node: int) returns (s: string)
    requires t.Valid()
    ensures Aligned(t.labels, NodeRows(t.rows, node))
    ensures s == Concat(MostProbableLabels(t.labels, NodeRows(t.rows, node)))
    ensures (forall k :: 0 <= k < |t.labels| ==> |t.labels[k]| == 1) ==>
      |s| == |NodeRows(t.rows, node)| &&
      forall i :: 0 <= i < |s| ==> s[i] == MostProbableLabels(t.labels, NodeRows(t.rows, node))[i][0]
  {
    NodeRowsScored(t, node);
    var nodeData := NodeRows(t.rows, node);
    if nodeData == [] {
      return "";
    }
    var sequence: seq<string> := [];
    for i := 0 to |nodeData|
      invariant |sequence| == i
      invariant forall j :: 0 <= j < i ==> sequence[j] == MostProbableLabel(t.labels, nodeData[j])
    {
      var mostProbableAminoAcid := MostProbableLabel(t.labels, nodeData[i]);
      sequence := sequence + [mostProbableAminoAcid];
    }
    assert sequence == MostProbableLabels(t.labels, nodeData);
    s := Concat(sequence);
    if forall k :: 0 <= k < |t.labels| ==> |t.labels[k]| == 1 {
      ConcatOfSingletons(sequence);
    }
  }

  /** The rows before the first one past `stop` (all rows when `stop` is `None`). */
  predicate PastStop(r: Row, stop: Option<int>)
  {
    stop.Some? && r.position > stop.value
  }

  /** How many leading rows `plot_most_probable_amino_acids` shows before its `break`. */
  function ShownRows(rows: seq<Row>, stop: Option<int>): (n: nat)
    ensures n <= |rows|
    ensures forall i :: 0 <= i < n ==> !PastStop(rows[i], stop)
    ensures n < |rows| ==> PastStop(rows[n], stop)
  {
    if rows == [] || PastStop(rows[0], stop) then 0 else 1 + ShownRows(rows[1..], stop)
  }

  /** Row `i`, reached without a `break`, is the one that stops the loop exactly when it is past `stop`. */
  lemma ShownStep(rows: seq<Row>, stop: Option<int>, i: nat)
    requires i <= ShownRows(rows, stop) && i < |rows|
    ensures PastStop(rows[i], stop) <==> i == ShownRows(rows, stop)
  {
  }

  /** Lists built row by row over `shown` are its positions, labels and maxima. */
  lemma ShownLists(labels: seq<string>, shown: seq<Row>, positions: seq<int>, aminoAcids: seq<string>, probabilities: seq<real>)
    requires Aligned(labels, shown)
    requires |positions| == |shown| && |aminoAcids| == |shown| && |probabilities| == |shown|
    requires forall j :: 0 <= j < |shown| ==>
      positions[j] == shown[j].position &&
      aminoAcids[j] == MostProbableLabel(labels, shown[j]) &&
      probabilities[j] == RowMax(shown[j])
    ensures Scored(shown)
    ensures positions == Positions(shown)
    ensures aminoAcids == MostProbableLabels(labels, shown)
    ensures probabilities == RowMaxes(shown)
  {
  }

  datatype Color = ForestGreen | Bisque

  /** What `plot_most_probable_amino_acids` draws: nothing for a node without rows,
      a division by zero when a threshold is given but no row is shown, otherwise
      one bar per shown row with its colour and the share of green bars in percent. */
  datatype BarChart =
    | NoData
    | ZeroDivision
    | Bars(positions: seq<int>, aminoAcids: seq<string>, probabilities: seq<real>,
           colors: seq<Color>, greenPercentage: real)

  /** The position of each row, in row order. */
  function Positions(rows: seq<Row>): (r: seq<int>)
    ensures |r| == |rows| && forall i :: 0 <= i < |rows| ==> r[i] == rows[i].position
  {
    seq(|rows|, i requires 0 <= i < |rows| => rows[i].position)
  }

  /** `['ForestGreen' if prob > threshold else 'bisque' for prob in probabilities]`;
      every bar is bisque without a threshold. */
  function BarColors(probabilities: seq<real>, threshold: Option<real>): (r: seq<Color>)
    ensures |r| == |probabilities|
    ensures forall i :: 0 <= i < |r| ==> (r[i] == ForestGreen <==> threshold.Some? && probabilities[i] > threshold.value)
  {
    seq(|probabilities|, i requires 0 <= i < |probabilities| =>
      if threshold.Some? && probabilities[i] > threshold.value then ForestGreen else Bisque)
  }

  /** The number of ForestGreen bars is the green count of the same bars. */
  lemma {:induction false} GreenBarsCounted(probabilities: seq<real>, threshold: real)
    ensures multiset(BarColors(probabilities, Some(threshold)))[ForestGreen] == CountAbove(probabilities, threshold)
  {
    if probabilities != [] {
      var front := probabilities[..|probabilities| - 1];
      GreenBarsCounted(front, threshold);
      assert BarColors(probabilities, Some(threshold)) ==
        BarColors(front, Some(threshold)) + [BarColors(probabilities, Some(threshold))[|probabilities| - 1]];
    }
  }

  /** The row loop of `plot_most_probable_amino_acids`: walk the node's rows in
      order, stop at the first row past `stop`, and collect each earlier row's
      position, most probable label and largest probability. */
  method ShownBars(labels: seq<string>, nodeData: seq<Row>, stop: Option<int>)
    returns (positions: seq<int>, aminoAcids: seq<string>, probabilities: seq<real>)
    requires Aligned(labels, nodeData)
    ensures var shown := nodeData[..ShownRows(nodeData, stop)];
      Aligned(labels, shown) && Scored(shown) &&
      positions == Positions(shown) &&
      aminoAcids == MostProbableLabels(labels, shown) &&
      probabilities == RowMaxes(shown)
  {
    positions, aminoAcids, probabilities := [], [], [];
    ghost var n := ShownRows(nodeData, stop);
    var i := 0;
    while i < |nodeData|
      invariant i <= n
      invariant |positions| == i && |aminoAcids| == i && |probabilities| == i
      invariant forall j :: 0 <= j < i ==>
        positions[j] == nodeData[j].position &&
        aminoAcids[j] == MostProbableLabel(labels, nodeData[j]) &&
        probabilities[j] == RowMax(nodeData[j])
    {
      ShownStep(nodeData, stop, i);
      var row := nodeData[i];
      var position := row.position;
      if stop.Some? && position > stop.value {
        break;
      }
      var mostProbableAminoAcid := MostProbableLabel(labels, row);
      var maxProbability := RowMax(row);
      positions := positions + [position];
      aminoAcids := aminoAcids + [mostProbableAminoAcid];
      probabilities := probabilities + [maxProbability];
      i := i + 1;
    }
    assert i == n;
    ShownLists(labels, nodeData[..n], positions, aminoAcids, probabilities);
  }

  /** The data computed by `plot_most_probable_amino_acids` before plotting: the
      node's rows up to the first one past `stop`, each with its position, most
      probable label and largest probability, coloured against the threshold. */
  method MostProbableAminoAcids(t: Table, node: int, stop: Option<int>, threshold: Option<real>)
    returns (chart: BarChart)
    requires t.Valid()
    ensures var rows := NodeRows(t.rows, node); var n := ShownRows(rows, stop);
      (chart.NoData? <==> rows == []) &&
      (chart.ZeroDivision? <==> rows != [] && n == 0 && threshold.Some?)
    ensures var rows := NodeRows(t.rows, node); var shown := rows[..ShownRows(rows, stop)];
      chart.Bars? ==>
        Aligned(t.labels, rows) && Aligned(t.labels, shown) && Scored(shown) &&
        chart.positions == Positions(shown) &&
        chart.aminoAcids == MostProbableLabels(t.labels, shown) &&
        chart.probabilities == RowMaxes(shown) &&
        chart.colors == BarColors(chart.probabilities, threshold) &&
        chart.greenPercentage ==
          if threshold.Some? then (CountAbove(chart.probabilities, threshold.value) as real / |shown| as real) * 100.0
          else 0.0
  {
    NodeRowsScored(t, node);
    var nodeData := NodeRows(t.rows, node);
    if nodeData == [] {
      return NoData;
    }
    var positions, aminoAcids, probabilities := ShownBars(t.labels, nodeData, stop);
    var colors: seq<Color>;
    var greenPercentage: real;
    if threshold.Some? {
      colors := seq(|probabilities|, i requires 0 <= i < |probabilities| =>
        if probabilities[i] > threshold.value then ForestGreen else Bisque);
      var greenCount := CountAbove(probabilities, threshold.value);
      if |probabilities| == 0 {
        return ZeroDivision;
      }
      greenPercentage := (greenCount as real / |probabilities| as real) * 100.0;
    } else {
      colors := seq(|probabilities|, i requires 0 <= i < |probabilities| => Bisque);
      greenPercentage := 0.0;
    }
    assert colors == BarColors(probabilities, threshold);
    chart := Bars(positions, aminoAcids, probabilities, colors, greenPercentage);
  }
}
