/** FishersLSD: Fisher's least significant difference test over the treatment
    groups of one slice of a long-form table. The analysis of variance and the
    t-quantile are outside this model: for a fixed slice and confidence they
    only turn the two group sizes of a pair into a critical value, so they enter
    as the parameter critical. Its result is None where the critical value is NaN
    (a within-groups dof of 0 makes t.ppf and the mean square NaN). */
module Lsd {
  import opened Values
  import opened Seqs
  import opened Tables
  import Text

  /** What the constructor is handed: a DataFrame, or anything else. */
  datatype Observed = DataFrame(table: Table) | Other

  datatype LsdError =
    | NotADataFrame             // RuntimeError("Observed data is not a DataFrame.")
    | MissingColumn(name: string) // KeyError for the groupby slice; for the treatment or the
                                  // response, the error the model fit of lsd.py:51 raises
    | NonNumericResponse        // the error the model fit of lsd.py:51 raises on a text response
    | ZeroDivision              // 1/n_i for a group no row compares equal to
    | NothingToConcatenate      // pd.concat of an empty list in plot()

  /** The four columns of the result table, one entry per pair of groups. */
  datatype LsdTable = LsdTable(pairs: seq<string>, absDiff: seq<Option<real>>,
                               criticalValue: seq<Option<real>>, significance: seq<string>)

  const Significant: string := "Populations are significantly different"
  const NotSignificant: string := "Populations are not significantly different"
  const Separator: string := " vs. "

  // ---------------------------------------------------------------- cells and slices

  /** pandas' element-wise == against a scalar: NaN compares equal to nothing. */
  predicate SameCell(cell: Value, v: Value)
  {
    cell == v && !v.NaN?
  }

  /** The rows whose cell in column c compares equal to v (df[df[name] == v]), in order. */
  function RowsWhere(t: Table, c: nat, v: Value): (rows: seq<seq<Value>>)
    requires Rectangular(t) && c < |t.columns|
    ensures forall i :: 0 <= i < |rows| ==> |rows[i]| == |t.columns| && SameCell(rows[i][c], v) && rows[i] in t.rows
  {
    Filter(t.rows, (r: seq<Value>) => |r| == |t.columns| && SameCell(r[c], v))
  }

  /** A row is kept as often as it occurs when its cell compares equal to v, and never otherwise. */
  lemma RowsWhereCount(t: Table, c: nat, v: Value, row: seq<Value>)
    requires Rectangular(t) && c < |t.columns| && |row| == |t.columns|
    ensures Count(RowsWhere(t, c, v), row) == if SameCell(row[c], v) then Count(t.rows, row) else 0
  {
    FilterCount(t.rows, (r: seq<Value>) => |r| == |t.columns| && SameCell(r[c], v), row);
  }

  /** Selection keeps the relative order of the rows: it commutes with concatenation. */
  lemma RowsWhereOrder(a: Table, b: Table, c: nat, v: Value)
    requires Rectangular(a) && Rectangular(b) && a.columns == b.columns && c < |a.columns|
    ensures RowsWhere(Table(a.columns, a.rows + b.rows), c, v) == RowsWhere(a, c, v) + RowsWhere(b, c, v)
  {
    FilterConcat(a.rows, b.rows, (r: seq<Value>) => |r| == |a.columns| && SameCell(r[c], v));
  }

  /** The slice the instance works on: df[df[groupby] == groupby_value]. */
  function Slice(t: Table, groupby: string, v: Value): (s: Table)
    requires Rectangular(t) && groupby in t.columns
    ensures Rectangular(s) && s.columns == t.columns
  {
    Table(t.columns, RowsWhere(t, ColumnIndex(t.columns, groupby).value, v))
  }

  // ---------------------------------------------------------------- groups

  /** The treatment groups, numbered from 0 in order of first appearance (unique()). */
  function Groups(s: Table, ti: nat): seq<Value>
    requires Rectangular(s) && ti < |s.columns|
  {
    Unique(Column(s, ti))
  }

  /** The rows of group g. */
  function GroupRows(s: Table, ti: nat, g: Value): seq<seq<Value>>
    requires Rectangular(s) && ti < |s.columns|
  {
    RowsWhere(s, ti, g)
  }

  /** n_i = len(df[df[treatment] == g]). */
  function GroupSize(s: Table, ti: nat, g: Value): nat
    requires Rectangular(s) && ti < |s.columns|
  {
    |GroupRows(s, ti, g)|
  }

  /** A group's size is the number of its occurrences in the treatment column,
      except that a NaN group has no rows. */
  lemma {:induction false} GroupSizeCount(s: Table, ti: nat, g: Value)
    requires Rectangular(s) && ti < |s.columns|
    ensures GroupSize(s, ti, g) == if g.NaN? then 0 else Count(Column(s, ti), g)
    decreases |s.rows|
  {
    if s.rows != [] {
      var n := |s.rows|;
      var row := s.rows[n - 1];
      var init := Table(s.columns, s.rows[..n - 1]);
      var last := Table(s.columns, [row]);
      assert s.rows == init.rows + last.rows;
      GroupSizeCount(init, ti, g);
      RowsWhereOrder(init, last, ti, g);
      ColumnSnoc(s, ti);
      CountConcat(Column(init, ti), [row[ti]], g);
      RowsWhereOne(s.columns, row, ti, g);
    }
  }

  /** The column of a table is the column of all but its last row, then that row's cell. */
  lemma ColumnSnoc(s: Table, c: nat)
    requires Rectangular(s) && c < |s.columns| && s.rows != []
    ensures Column(s, c) == Column(Table(s.columns, s.rows[..|s.rows| - 1]), c) + [s.rows[|s.rows| - 1][c]]
  {
  }

  /** A one-row table selects its row exactly when the row's cell compares equal. */
  lemma RowsWhereOne(columns: seq<string>, row: seq<Value>, c: nat, v: Value)
    requires |row| == |columns| && c < |columns|
    ensures |RowsWhere(Table(columns, [row]), c, v)| == if SameCell(row[c], v) then 1 else 0
  {
    assert [row][..0] == [];
  }

  /** Every listed group other than NaN has at least one row. */
  lemma GroupSizePositive(s: Table, ti: nat, k: nat)
    requires Rectangular(s) && ti < |s.columns| && k < |Groups(s, ti)|
    ensures GroupSize(s, ti, Groups(s, ti)[k]) == 0 <==> Groups(s, ti)[k].NaN?
  {
    GroupSizeCount(s, ti, Groups(s, ti)[k]);
  }

  /** The sum of the sizes of the groups listed in u. */
  function SizeTotal(s: Table, ti: nat, u: seq<Value>): nat
    requires Rectangular(s) && ti < |s.columns|
    decreases |u|
  {
    if u == [] then 0 else SizeTotal(s, ti, u[..|u| - 1]) + GroupSize(s, ti, u[|u| - 1])
  }

  /** The group sizes add up to the slice size, less the rows whose treatment is NaN. */
  lemma GroupSizesSum(s: Table, ti: nat)
    requires Rectangular(s) && ti < |s.columns|
    ensures SizeTotal(s, ti, Groups(s, ti)) == |s.rows| - Count(Column(s, ti), NaN)
  {
    var u := Groups(s, ti);
    UniqueCountsSum(Column(s, ti));
    SizeTotalCountAll(s, ti, u);
    if NaN !in u {
      assert NaN !in Column(s, ti);
    }
  }

  lemma {:induction false} SizeTotalCountAll(s: Table, ti: nat, u: seq<Value>)
    requires Rectangular(s) && ti < |s.columns| && Distinct(u)
    ensures SizeTotal(s, ti, u) + (if NaN in u then Count(Column(s, ti), NaN) else 0) == CountAll(u, Column(s, ti))
    decreases |u|
  {
    if u != [] {
      var init := u[..|u| - 1];
      var g := u[|u| - 1];
      assert u == init + [g];
      assert Distinct(init);
      SizeTotalCountAll(s, ti, init);
      GroupSizeCount(s, ti, g);
      assert g.NaN? ==> NaN !in init;
    }
  }

  // ---------------------------------------------------------------- means

  predicate AllNumeric(xs: seq<Value>)
  {
    forall k :: 0 <= k < |xs| ==> IsNumeric(xs[k])
  }

  /** The sum of the non-missing numbers. */
  function Total(xs: seq<Value>): real
    requires AllNumeric(xs)
    decreases |xs|
  {
    if xs == [] then 0.0
    else Total(xs[..|xs| - 1]) + (if xs[|xs| - 1].NaN? then 0.0 else AsReal(xs[|xs| - 1]))
  }

  /** The number of non-missing numbers, kept as a real since it is the mean's divisor. */
  function Present(xs: seq<Value>): (n: real)
    ensures n >= 0.0
    decreases |xs|
  {
    if xs == [] then 0.0 else Present(xs[..|xs| - 1]) + (if xs[|xs| - 1].NaN? then 0.0 else 1.0)
  }

  /** Series.mean(): NaN cells are skipped; with nothing left the mean is NaN (None). */
  function Mean(xs: seq<Value>): (m: Option<real>)
    requires AllNumeric(xs)
    ensures m.Some? <==> Present(xs) > 0.0
    ensures m.Some? ==> m.value * Present(xs) == Total(xs)
  {
    if Present(xs) == 0.0 then None else Some(Total(xs) / Present(xs))
  }

  /** The mean lies between any bounds of the values it averages. */
  lemma MeanBetween(xs: seq<Value>, lo: real, hi: real)
    requires AllNumeric(xs) && Present(xs) > 0.0 && InRange(xs, lo, hi)
    ensures lo <= Mean(xs).value <= hi
  {
    TotalBetween(xs, lo, hi);
    Divide(Present(xs), lo, hi, Total(xs));
  }

  /** t lies between n copies of lo and n copies of hi. */
  predicate Within(n: real, t: real, lo: real, hi: real)
  {
    n * lo <= t <= n * hi
  }

  /** From n*lo <= t <= n*hi and n > 0 follows lo <= t/n <= hi. */
  lemma Divide(n: real, lo: real, hi: real, t: real)
    requires n > 0.0 && Within(n, t, lo, hi)
    ensures lo <= t / n <= hi
  {
    var m := t / n;
    assert m * n == t;
    assert n * (m - lo) >= 0.0;
    assert n * (hi - m) >= 0.0;
  }

  /** Every non-missing value lies within [lo, hi]. */
  predicate InRange(xs: seq<Value>, lo: real, hi: real)
    requires AllNumeric(xs)
  {
    forall k :: 0 <= k < |xs| && !xs[k].NaN? ==> lo <= AsReal(xs[k]) <= hi
  }

  /** The total of values within [lo, hi] lies within Present*lo and Present*hi. */
  lemma {:induction false} TotalBetween(xs: seq<Value>, lo: real, hi: real)
    requires AllNumeric(xs) && InRange(xs, lo, hi)
    ensures Within(Present(xs), Total(xs), lo, hi)
    decreases |xs|
  {
    if xs != [] {
      var init := xs[..|xs| - 1];
      var x := xs[|xs| - 1];
      assert AllNumeric(init) && InRange(init, lo, hi) by {
        assert forall k :: 0 <= k < |init| ==> init[k] == xs[k];
      }
      TotalBetween(init, lo, hi);
      var v := if x.NaN? then 0.0 else AsReal(x);
      AddBounds(Present(init), Present(xs), lo, hi, Total(init), Total(xs), v);
    }
  }

  /** One more value within [lo, hi], or one more missing value, keeps the running
      total within bounds. */
  lemma AddBounds(p: real, q: real, lo: real, hi: real, t: real, u: real, v: real)
    requires Within(p, t, lo, hi)
    requires (q == p && u == t) || (q == p + 1.0 && u == t + v && lo <= v <= hi)
    ensures Within(q, u, lo, hi)
  {
    assert (p + 1.0) * lo == p * lo + lo;
    assert (p + 1.0) * hi == p * hi + hi;
  }

  /** Every row of the slice whose treatment is not NaN has a numeric (or missing) response. */
  predicate NumericResponses(s: Table, ti: nat, ri: nat)
    requires Rectangular(s) && ti < |s.columns| && ri < |s.columns|
  {
    forall i :: 0 <= i < |s.rows| && !s.rows[i][ti].NaN? ==> IsNumeric(s.rows[i][ri])
  }

  /** df[df[treatment] == g][response]. */
  function GroupResponses(s: Table, ti: nat, ri: nat, g: Value): (xs: seq<Value>)
    requires Rectangular(s) && ti < |s.columns| && ri < |s.columns|
    ensures |xs| == GroupSize(s, ti, g)
    ensures NumericResponses(s, ti, ri) ==> AllNumeric(xs)
  {
    var rows := GroupRows(s, ti, g);
    var xs := Column(Table(s.columns, rows), ri);
    assert forall k :: 0 <= k < |xs| ==> xs[k] == rows[k][ri] && rows[k] in s.rows && !rows[k][ti].NaN?;
    xs
  }

  /** sample_means: the mean response of each group, in group order. */
  function Means(s: Table, ti: nat, ri: nat, u: seq<Value>): (ms: seq<Option<real>>)
    requires Rectangular(s) && ti < |s.columns| && ri < |s.columns| && NumericResponses(s, ti, ri)
    ensures |ms| == |u|
  {
    seq(|u|, k requires 0 <= k < |u| => Mean(GroupResponses(s, ti, ri, u[k])))
  }

  // ---------------------------------------------------------------- one pair

  /** abs(mean_i - mean_j); NaN (None) when either mean is NaN. */
  function AbsDiff(a: Option<real>, b: Option<real>): (d: Option<real>)
    ensures d.Some? <==> a.Some? && b.Some?
    ensures d.Some? ==> d.value >= 0.0 && (d.value == a.value - b.value || d.value == b.value - a.value)
  {
    if a.None? || b.None? then None
    else if a.value >= b.value then Some(a.value - b.value) else Some(b.value - a.value)
  }

  /** The absolute difference does not depend on the order of the two means. */
  lemma AbsDiffSymmetric(a: Option<real>, b: Option<real>)
    ensures AbsDiff(a, b) == AbsDiff(b, a)
  {
  }

  /** The verdict: significant iff abs_diff >= critical_value. A NaN on either side (None)
      makes the comparison false, so it is never significant. */
  function Verdict(d: Option<real>, c: Option<real>): (v: string)
    ensures v == Significant <==> d.Some? && c.Some? && d.value >= c.value
    ensures v == Significant || v == NotSignificant
  {
    if d.Some? && c.Some? && d.value >= c.value then Significant else NotSignificant
  }

  /** f'{A} vs. {B}'. */
  function Label(a: Value, b: Value, floatText: real -> string): string
  {
    Show(a, floatText) + Separator + Show(b, floatText)
  }

  // ---------------------------------------------------------------- pair enumeration

  /** The pairs (i, j), j = i+1 .. k-1, of the inner loop for a given i. */
  function PairRow(i: nat, k: nat): (r: seq<(nat, nat)>)
    requires i < k
    ensures |r| == k - i - 1 && forall d :: 0 <= d < |r| ==> r[d] == (i, i + 1 + d)
  {
    seq(k - i - 1, d requires 0 <= d < k - i - 1 => (i, i + 1 + d))
  }

  /** The pairs the outer loop has emitted once it reaches i. */
  function PairsBefore(i: nat, k: nat): (ps: seq<(nat, nat)>)
    requires i <= k
    ensures forall p :: 0 <= p < |ps| ==> ps[p].0 < i && ps[p].0 < ps[p].1 < k
    decreases i
  {
    if i == 0 then [] else PairsBefore(i - 1, k) + PairRow(i - 1, k)
  }

  /** Every pair i < j of k groups, i ascending, then j ascending. */
  function PairsOf(k: nat): (ps: seq<(nat, nat)>)
    ensures forall p :: 0 <= p < |ps| ==> ps[p].0 < ps[p].1 < k
  {
    if k == 0 then [] else PairsBefore(k - 1, k)
  }

  lemma {:induction false} PairsBeforeSize(i: nat, k: nat)
    requires i <= k
    ensures 2 * |PairsBefore(i, k)| == i * (2 * k - i - 1)
    decreases i
  {
    if i > 0 {
      PairsBeforeSize(i - 1, k);
      assert |PairsBefore(i, k)| == |PairsBefore(i - 1, k)| + (k - i);
      SizeStep(i, k);
    }
  }

  /** The arithmetic of one row: (i-1)(2k-i) + 2(k-i) = i(2k-i-1). */
  lemma SizeStep(i: int, k: int)
    ensures (i - 1) * (2 * k - i) + 2 * (k - i) == i * (2 * k - i - 1)
  {
    assert (i - 1) * (2 * k - i) == i * (2 * k - i) - (2 * k - i);
    assert i * (2 * k - i) - i == i * (2 * k - i - 1);
  }

  /** The pair loop emits k(k-1)/2 entries. */
  lemma PairsOfSize(k: nat)
    ensures |PairsOf(k)| == k * (k - 1) / 2
  {
    if k > 0 {
      PairsBeforeSize(k - 1, k);
      assert (k - 1) * (2 * k - (k - 1) - 1) == k * (k - 1);
    }
  }

  lemma {:induction false} PairsBeforeMembers(i: nat, k: nat, a: nat, b: nat)
    requires i <= k
    ensures (a, b) in PairsBefore(i, k) <==> a < i && a < b < k
    decreases i
  {
    if i > 0 {
      PairsBeforeMembers(i - 1, k, a, b);
      if a == i - 1 && a < b < k {
        assert PairRow(i - 1, k)[b - i] == (a, b);
      }
    }
  }

  /** Every unordered pair of distinct groups is emitted, and nothing else. */
  lemma PairsOfMembers(k: nat, a: nat, b: nat)
    ensures (a, b) in PairsOf(k) <==> a < b < k
  {
    if k > 0 {
      PairsBeforeMembers(k - 1, k, a, b);
    }
  }

  /** (a, b) comes strictly before (c, d) in loop order. */
  predicate Earlier(x: (nat, nat), y: (nat, nat))
  {
    x.0 < y.0 || (x.0 == y.0 && x.1 < y.1)
  }

  lemma {:induction false} PairsBeforeOrdered(i: nat, k: nat)
    requires i <= k
    ensures forall p, q :: 0 <= p < q < |PairsBefore(i, k)| ==> Earlier(PairsBefore(i, k)[p], PairsBefore(i, k)[q])
    decreases i
  {
    if i > 0 {
      PairsBeforeOrdered(i - 1, k);
    }
  }

  /** The pairs come out in loop order, so no pair is emitted twice. */
  lemma PairsOfOrdered(k: nat)
    ensures forall p, q :: 0 <= p < q < |PairsOf(k)| ==> Earlier(PairsOf(k)[p], PairsOf(k)[q])
    ensures Distinct(PairsOf(k))
  {
    if k > 0 {
      PairsBeforeOrdered(k - 1, k);
    }
  }

  // ---------------------------------------------------------------- the table

  /** The result of table() once the columns exist, the responses are numbers and no
      pair involves an empty group: entry p describes the p-th pair of PairsOf. */
  function Summary(s: Table, ti: nat, ri: nat, critical: (nat, nat) -> Option<real>, floatText: real -> string): LsdTable
    requires Rectangular(s) && ti < |s.columns| && ri < |s.columns| && NumericResponses(s, ti, ri)
  {
    var u := Groups(s, ti);
    var means := Means(s, ti, ri, u);
    var ps := PairsOf(|u|);
    var diffs := seq(|ps|, p requires 0 <= p < |ps| => AbsDiff(means[ps[p].0], means[ps[p].1]));
    var crits := seq(|ps|, p requires 0 <= p < |ps| =>
      critical(GroupSize(s, ti, u[ps[p].0]), GroupSize(s, ti, u[ps[p].1])));
    LsdTable(seq(|ps|, p requires 0 <= p < |ps| => Label(u[ps[p].0], u[ps[p].1], floatText)),
             diffs, crits,
             seq(|ps|, p requires 0 <= p < |ps| => Verdict(diffs[p], crits[p])))
  }

  /** FishersLSD.table() on a slice, with the errors it raises. */
  function Outcome(s: Table, treatment: string, response: string,
                   critical: (nat, nat) -> Option<real>, floatText: real -> string): Result<LsdTable, LsdError>
    requires Rectangular(s)
  {
    match ColumnIndex(s.columns, treatment)
    case None => Failure(MissingColumn(treatment))
    case Some(ti) =>
      match ColumnIndex(s.columns, response)
      case None => Failure(MissingColumn(response))
      case Some(ri) =>
        if !NumericResponses(s, ti, ri) then Failure(NonNumericResponse)
        else if |Groups(s, ti)| >= 2 && NaN in Groups(s, ti) then Failure(ZeroDivision)
        else Success(Summary(s, ti, ri, critical, floatText))
  }

  /** The four result columns have k(k-1)/2 entries each, and entry p of every column
      is about the p-th pair (i, j): its label names groups i and j, its difference is
      |mean_i - mean_j|, its critical value comes from n_i and n_j, and its verdict is
      significant iff the difference reaches the critical value. */
  lemma SummaryEntries(s: Table, ti: nat, ri: nat, critical: (nat, nat) -> Option<real>, floatText: real -> string, p: nat)
    requires Rectangular(s) && ti < |s.columns| && ri < |s.columns| && NumericResponses(s, ti, ri)
    requires p < |PairsOf(|Groups(s, ti)|)|
    ensures var r := Summary(s, ti, ri, critical, floatText);
      var u := Groups(s, ti);
      var k := |u|;
      |r.pairs| == |r.absDiff| == |r.criticalValue| == |r.significance| == k * (k - 1) / 2
    ensures var r := Summary(s, ti, ri, critical, floatText);
      var u := Groups(s, ti);
      var (i, j) := PairsOf(|u|)[p];
      var mi := Mean(GroupResponses(s, ti, ri, u[i]));
      var mj := Mean(GroupResponses(s, ti, ri, u[j]));
      i < j < |u| &&
      r.pairs[p] == Label(u[i], u[j], floatText) &&
      r.absDiff[p] == AbsDiff(mi, mj) &&
      r.criticalValue[p] == critical(GroupSize(s, ti, u[i]), GroupSize(s, ti, u[j])) &&
      (r.significance[p] == Significant <==> r.absDiff[p].Some? && r.criticalValue[p].Some? && r.absDiff[p].value >= r.criticalValue[p].value)
  {
    PairsOfSize(|Groups(s, ti)|);
  }

  /** With a NaN critical value for every pair, as when every group has a single row and the
      within-groups dof of the fit is 0, no pair is significant. */
  lemma NaNCriticalNeverSignificant(s: Table, ti: nat, ri: nat, critical: (nat, nat) -> Option<real>,
                                    floatText: real -> string, p: nat)
    requires Rectangular(s) && ti < |s.columns| && ri < |s.columns| && NumericResponses(s, ti, ri)
    requires forall a: nat, b: nat :: critical(a, b).None?
    requires p < |PairsOf(|Groups(s, ti)|)|
    ensures Summary(s, ti, ri, critical, floatText).significance[p] == NotSignificant
  {
    SummaryEntries(s, ti, ri, critical, floatText, p);
  }

  /** table() fails with ZeroDivision exactly when some emitted pair has an empty group. */
  lemma ZeroDivisionExactly(s: Table, ti: nat)
    requires Rectangular(s) && ti < |s.columns|
    ensures var u := Groups(s, ti);
      (|u| >= 2 && NaN in u) <==>
      exists p :: 0 <= p < |PairsOf(|u|)| &&
        (GroupSize(s, ti, u[PairsOf(|u|)[p].0]) == 0 || GroupSize(s, ti, u[PairsOf(|u|)[p].1]) == 0)
  {
    var u := Groups(s, ti);
    var ps := PairsOf(|u|);
    if |u| >= 2 && NaN in u {
      EmptyPairExists(s, ti);
    }
    if p :| 0 <= p < |ps| && (GroupSize(s, ti, u[ps[p].0]) == 0 || GroupSize(s, ti, u[ps[p].1]) == 0) {
      EmptyGroupInPair(s, ti, ps[p].0, ps[p].1);
    }
  }

  /** With a NaN group among at least two, a listed pair contains it. */
  lemma EmptyPairExists(s: Table, ti: nat)
    requires Rectangular(s) && ti < |s.columns|
    requires |Groups(s, ti)| >= 2 && NaN in Groups(s, ti)
    ensures var u := Groups(s, ti);
      exists p :: 0 <= p < |PairsOf(|u|)| &&
        (GroupSize(s, ti, u[PairsOf(|u|)[p].0]) == 0 || GroupSize(s, ti, u[PairsOf(|u|)[p].1]) == 0)
  {
    var u := Groups(s, ti);
    var ps := PairsOf(|u|);
    var m :| 0 <= m < |u| && u[m] == NaN;
    var pair := if m == 0 then (0, 1) else (0, m);
    PairsOfMembers(|u|, pair.0, pair.1);
    var p :| 0 <= p < |ps| && ps[p] == pair;
    GroupSizePositive(s, ti, m);
    assert GroupSize(s, ti, u[ps[p].0]) == 0 || GroupSize(s, ti, u[ps[p].1]) == 0;
  }

  /** No listed pair has an empty group exactly when the table can be built. */
  lemma EmptyGroupInPair(s: Table, ti: nat, i: nat, j: nat)
    requires Rectangular(s) && ti < |s.columns| && i < j < |Groups(s, ti)|
    requires GroupSize(s, ti, Groups(s, ti)[i]) == 0 || GroupSize(s, ti, Groups(s, ti)[j]) == 0
    ensures |Groups(s, ti)| >= 2 && NaN in Groups(s, ti)
  {
    GroupSizePositive(s, ti, i);
    GroupSizePositive(s, ti, j);
  }

  // ---------------------------------------------------------------- the loops of table()

  /** The entries appended so far describe the pairs in done, in order, and every
      group met so far has at least one row. */
  ghost predicate Entries(s: Table, ti: nat, u: seq<Value>, means: seq<Option<real>>,
                          critical: (nat, nat) -> Option<real>, floatText: real -> string,
                          done: seq<(nat, nat)>, pairs: seq<string>, diffs: seq<Option<real>>, crits: seq<Option<real>>)
    requires Rectangular(s) && ti < |s.columns| && |means| == |u|
  {
    |pairs| == |done| && |diffs| == |done| && |crits| == |done| &&
    forall q :: 0 <= q < |done| ==> EntryAt(s, ti, u, means, critical, floatText, done[q], pairs[q], diffs[q], crits[q])
  }

  /** One entry of the three lists describes the pair (a, b). */
  ghost predicate EntryAt(s: Table, ti: nat, u: seq<Value>, means: seq<Option<real>>,
                          critical: (nat, nat) -> Option<real>, floatText: real -> string,
                          pair: (nat, nat), name: string, diff: Option<real>, crit: Option<real>)
    requires Rectangular(s) && ti < |s.columns| && |means| == |u|
  {
    pair.0 < pair.1 < |u| &&
    name == Label(u[pair.0], u[pair.1], floatText) &&
    diff == AbsDiff(means[pair.0], means[pair.1]) &&
    GroupSize(s, ti, u[pair.0]) > 0 && GroupSize(s, ti, u[pair.1]) > 0 &&
    crit == critical(GroupSize(s, ti, u[pair.0]), GroupSize(s, ti, u[pair.1]))
  }

  /** Once the loops have run over every pair, no group is NaN-only. */
  lemma EntriesNoEmptyGroup(s: Table, ti: nat, means: seq<Option<real>>, critical: (nat, nat) -> Option<real>,
                            floatText: real -> string, pairs: seq<string>, diffs: seq<Option<real>>, crits: seq<Option<real>>)
    requires Rectangular(s) && ti < |s.columns| && |means| == |Groups(s, ti)|
    requires Entries(s, ti, Groups(s, ti), means, critical, floatText, PairsOf(|Groups(s, ti)|), pairs, diffs, crits)
    ensures !(|Groups(s, ti)| >= 2 && NaN in Groups(s, ti))
  {
    var u := Groups(s, ti);
    ZeroDivisionExactly(s, ti);
    var ps := PairsOf(|u|);
    forall p | 0 <= p < |ps|
      ensures GroupSize(s, ti, u[ps[p].0]) > 0 && GroupSize(s, ti, u[ps[p].1]) > 0
    {
      assert EntryAt(s, ti, u, means, critical, floatText, ps[p], pairs[p], diffs[p], crits[p]);
    }
  }

  /** Once the loops have run over every pair, the lists are those of Summary. */
  lemma EntriesComplete(s: Table, ti: nat, ri: nat, critical: (nat, nat) -> Option<real>, floatText: real -> string,
                        pairs: seq<string>, diffs: seq<Option<real>>, crits: seq<Option<real>>, sig: seq<string>)
    requires Rectangular(s) && ti < |s.columns| && ri < |s.columns| && NumericResponses(s, ti, ri)
    requires Entries(s, ti, Groups(s, ti), Means(s, ti, ri, Groups(s, ti)), critical, floatText,
                     PairsOf(|Groups(s, ti)|), pairs, diffs, crits)
    requires |sig| == |diffs| && forall q :: 0 <= q < |sig| ==> sig[q] == Verdict(diffs[q], crits[q])
    ensures LsdTable(pairs, diffs, crits, sig) == Summary(s, ti, ri, critical, floatText)
  {
    var u := Groups(s, ti);
    var means := Means(s, ti, ri, u);
    var ps := PairsOf(|u|);
    var r := Summary(s, ti, ri, critical, floatText);
    forall p | 0 <= p < |ps|
      ensures r.pairs[p] == pairs[p] && r.absDiff[p] == diffs[p] && r.criticalValue[p] == crits[p]
    {
      assert EntryAt(s, ti, u, means, critical, floatText, ps[p], pairs[p], diffs[p], crits[p]);
    }
    assert r.pairs == pairs;
    assert r.absDiff == diffs;
    assert r.criticalValue == crits;
    assert r.significance == sig;
  }

  /** The nested loop of table() over the pairs (i, j), i < j: it appends a label, a
      difference and a critical value per pair, and stops at the first pair with an
      empty group, where 1/n_i or 1/n_j divides by zero. */
  method PairLoop(s: Table, ti: nat, u: seq<Value>, means: seq<Option<real>>,
                  critical: (nat, nat) -> Option<real>, floatText: real -> string)
    returns (empty: Option<(nat, nat)>, pairs: seq<string>, diffs: seq<Option<real>>, crits: seq<Option<real>>)
    requires Rectangular(s) && ti < |s.columns| && |means| == |u|
    ensures empty.Some? ==>
      empty.value.0 < empty.value.1 < |u| &&
      (GroupSize(s, ti, u[empty.value.0]) == 0 || GroupSize(s, ti, u[empty.value.1]) == 0)
    ensures empty.None? ==> Entries(s, ti, u, means, critical, floatText, PairsOf(|u|), pairs, diffs, crits)
  {
    var k := |u|;
    pairs, diffs, crits := [], [], [];
    var i: nat := 0;
    while i + 1 < k
      invariant i <= k && (k > 0 ==> i < k)
      invariant Entries(s, ti, u, means, critical, floatText, PairsBefore(i, k), pairs, diffs, crits)
    {
      empty, pairs, diffs, crits := RowLoop(s, ti, u, means, critical, floatText, i, PairsBefore(i, k), pairs, diffs, crits);
      if empty.Some? {
        return;
      }
      i := i + 1;
    }
    PairsBeforeAll(i, k);
    empty := None;
  }

  /** The inner loop of table() for group i: the pairs (i, j) for j from i + 1 on,
      appended after the entries for done. */
  method RowLoop(s: Table, ti: nat, u: seq<Value>, means: seq<Option<real>>,
                 critical: (nat, nat) -> Option<real>, floatText: real -> string, i: nat,
                 ghost done: seq<(nat, nat)>, pairs0: seq<string>, diffs0: seq<Option<real>>, crits0: seq<Option<real>>)
    returns (empty: Option<(nat, nat)>, pairs: seq<string>, diffs: seq<Option<real>>, crits: seq<Option<real>>)
    requires Rectangular(s) && ti < |s.columns| && |means| == |u| && i < |u|
    requires Entries(s, ti, u, means, critical, floatText, done, pairs0, diffs0, crits0)
    ensures empty.Some? ==>
      empty.value.0 == i < empty.value.1 < |u| &&
      (GroupSize(s, ti, u[empty.value.0]) == 0 || GroupSize(s, ti, u[empty.value.1]) == 0)
    ensures empty.None? ==> Entries(s, ti, u, means, critical, floatText, done + PairRow(i, |u|), pairs, diffs, crits)
  {
    var k := |u|;
    pairs, diffs, crits := pairs0, diffs0, crits0;
    var j: nat := i + 1;
    assert done + PairRow(i, j) == done;
    while j < k
      invariant i < j <= k
      invariant Entries(s, ti, u, means, critical, floatText, done + PairRow(i, j), pairs, diffs, crits)
    {
      var name := Label(u[i], u[j], floatText);
      var diff := AbsDiff(means[i], means[j]);
      var ni := GroupSize(s, ti, u[i]);
      var nj := GroupSize(s, ti, u[j]);
      if ni == 0 || nj == 0 {
        return Some((i, j)), pairs, diffs, crits;
      }
      var crit := critical(ni, nj);
      assert EntryAt(s, ti, u, means, critical, floatText, (i, j), name, diff, crit);
      EntriesSnoc(s, ti, u, means, critical, floatText, done + PairRow(i, j), pairs, diffs, crits, (i, j), name, diff, crit);
      pairs, diffs, crits := pairs + [name], diffs + [diff], crits + [crit];
      PairRowNext(done, i, j);
      j := j + 1;
    }
    empty := None;
  }

  /** The second loop of table(): one verdict per (difference, critical value). */
  method VerdictLoop(diffs: seq<Option<real>>, crits: seq<Option<real>>) returns (sig: seq<string>)
    requires |diffs| == |crits|
    ensures |sig| == |diffs| && forall q :: 0 <= q < |sig| ==> sig[q] == Verdict(diffs[q], crits[q])
  {
    sig := [];
    var p := 0;
    while p < |diffs|
      invariant p <= |diffs| && |sig| == p
      invariant forall q :: 0 <= q < p ==> sig[q] == Verdict(diffs[q], crits[q])
    {
      VerdictStep(diffs, crits, sig, p);
      if diffs[p].Some? && crits[p].Some? && diffs[p].value >= crits[p].value {
        sig := sig + [Significant];
      } else {
        sig := sig + [NotSignificant];
      }
      p := p + 1;
    }
  }

  /** Appending the verdict for position p keeps the verdicts before it. */
  lemma VerdictStep(diffs: seq<Option<real>>, crits: seq<Option<real>>, sig: seq<string>, p: nat)
    requires |diffs| == |crits| && p == |sig| < |diffs|
    requires forall q :: 0 <= q < p ==> sig[q] == Verdict(diffs[q], crits[q])
    ensures var v := Verdict(diffs[p], crits[p]);
      forall q :: 0 <= q <= p ==> (sig + [v])[q] == Verdict(diffs[q], crits[q])
  {
    var t := sig + [Verdict(diffs[p], crits[p])];
    forall q | 0 <= q <= p
      ensures t[q] == Verdict(diffs[q], crits[q])
    {
      if q < p {
        assert t[q] == sig[q];
      }
    }
  }

  /** Extending done by the pair (i, j) of the inner loop. */
  lemma PairRowNext(done: seq<(nat, nat)>, i: nat, j: nat)
    requires i < j
    ensures done + PairRow(i, j + 1) == done + PairRow(i, j) + [(i, j)]
  {
    assert PairRow(i, j + 1) == PairRow(i, j) + [(i, j)];
  }

  /** When the outer loop stops, it has emitted every pair. */
  lemma PairsBeforeAll(i: nat, k: nat)
    requires i <= k && k <= i + 1 && (k > 0 ==> i < k)
    ensures PairsBefore(i, k) == PairsOf(k)
  {
    if k == 0 {
      assert i == 0;
    } else {
      assert i == k - 1;
    }
  }

  /** Appending an entry that describes pair keeps the lists describing done + [pair]. */
  lemma EntriesSnoc(s: Table, ti: nat, u: seq<Value>, means: seq<Option<real>>,
                    critical: (nat, nat) -> Option<real>, floatText: real -> string,
                    done: seq<(nat, nat)>, pairs: seq<string>, diffs: seq<Option<real>>, crits: seq<Option<real>>,
                    pair: (nat, nat), name: string, diff: Option<real>, crit: Option<real>)
    requires Rectangular(s) && ti < |s.columns| && |means| == |u|
    requires Entries(s, ti, u, means, critical, floatText, done, pairs, diffs, crits)
    requires EntryAt(s, ti, u, means, critical, floatText, pair, name, diff, crit)
    ensures Entries(s, ti, u, means, critical, floatText, done + [pair], pairs + [name], diffs + [diff], crits + [crit])
  {
  }

  // ---------------------------------------------------------------- plot()

  /** The label splits into at least two pieces on " vs. ", so that plot() can take
      pieces [0] and [1]. */
  predicate Splits(name: string)
  {
    |Text.SplitOn(name, Separator)| >= 2
  }

  /** pair.split(' vs. ')[0] and pair.split(' vs. ')[1]. */
  function LabelParts(name: string): (string, string)
    requires Splits(name)
  {
    var parts := Text.SplitOn(name, Separator);
    (parts[0], parts[1])
  }

  /** Every label table() writes has the separator in it, so the split never comes up short. */
  lemma LabelSplits(a: string, b: string)
    ensures Splits(a + Separator + b)
  {
    var s := a + Separator + b;
    assert s[|a|..|a| + |Separator|] == Separator;
    assert Text.Occurs(s, Separator, |a|);
    var f := Text.FindFrom(s, Separator, 0);
    assert f.Some?;
  }

  /** Splitting a label gives back the two names, when the first name's earliest
      " vs. " is the one the label put after it and the second name has none. */
  lemma LabelRoundTrip(a: string, b: string)
    requires Text.JoinsCleanly(a, Separator) && Text.Lacks(b, Separator)
    ensures Splits(a + Separator + b) && LabelParts(a + Separator + b) == (a, b)
  {
    Text.SplitJoined(a, b, Separator);
  }

  /** A first name ending in " vs." contains no " vs. ", yet the split cuts it short:
      "x vs." and "y" come back as "x" and "vs. y". */
  lemma LabelSplitCounterexample()
    ensures Text.Lacks("x vs.", Separator) && Text.Lacks("y", Separator)
    ensures Splits("x vs." + Separator + "y")
    ensures LabelParts("x vs." + Separator + "y") == ("x", "vs. y")
  {
    var s := "x vs." + Separator + "y";
    assert s == "x vs. vs. y";
    assert !Text.Occurs(s, Separator, 0) by {
      assert s[0..5] == "x vs.";
    }
    assert Text.Occurs(s, Separator, 1) by {
      assert s[1..6] == " vs. ";
    }
    assert Text.FindFrom(s, Separator, 0) == Some(1) by {
      assert Text.FindFrom(s, Separator, 0) == Text.FindFrom(s, Separator, 1);
    }
    var rest := s[6..];
    assert rest == "vs. y";
    assert !Text.Occurs(rest, Separator, 0) by {
      assert rest[0..5] != Separator;
    }
    assert Text.FindFrom(rest, Separator, 0).None? by {
      assert Text.FindFrom(rest, Separator, 0) == Text.FindFrom(rest, Separator, 1);
      assert Text.FindFrom(rest, Separator, 1).None?;
    }
    assert Text.SplitOn(rest, Separator) == [rest];
    assert s[..1] == "x";
    assert Text.SplitOn(s, Separator) == [s[..1]] + Text.SplitOn(rest, Separator);
    assert Text.Lacks("x vs.", Separator);
    assert Text.Lacks("y", Separator);
  }

  /** df['comparison'] = str(n): every selected row gains the tag as a last cell. */
  function Tagged(rows: seq<seq<Value>>, tag: string): (r: seq<seq<Value>>)
    ensures |r| == |rows| && forall i :: 0 <= i < |rows| ==> r[i] == rows[i] + [Str(tag)]
  {
    seq(|rows|, i requires 0 <= i < |rows| => rows[i] + [Str(tag)])
  }

  /** The row carries the comparison tag given. */
  predicate HasTag(row: seq<Value>, tag: string)
  {
    |row| > 0 && row[|row| - 1] == Str(tag)
  }

  /** df_comparison['comparison'] == tag, as a row filter. */
  function TagIs(tag: string): seq<Value> -> bool
  {
    (row: seq<Value>) => HasTag(row, tag)
  }

  /** The rows of the comparisons, the p-th block tagged str(p), p counted from 1. */
  function Blocks(blocks: seq<seq<seq<Value>>>): seq<seq<Value>>
    decreases |blocks|
  {
    if blocks == [] then [] else Blocks(blocks[..|blocks| - 1]) + Tagged(blocks[|blocks| - 1], NatText(|blocks|))
  }

  /** The rows that plot() selects for one label: df[df[treatment] == pop] for each of
      the two names the label splits into, the first name's rows first. */
  function Chosen(s: Table, ti: nat, name: string): seq<seq<Value>>
    requires Rectangular(s) && ti < |s.columns| && Splits(name)
  {
    RowsWhere(s, ti, Str(LabelParts(name).0)) + RowsWhere(s, ti, Str(LabelParts(name).1))
  }

  /** The selections for all labels, in label order. */
  function ChosenAll(s: Table, ti: nat, names: seq<string>): (r: seq<seq<seq<Value>>>)
    requires Rectangular(s) && ti < |s.columns| && forall q :: 0 <= q < |names| ==> Splits(names[q])
    ensures |r| == |names|
    decreases |names|
  {
    if names == [] then []
    else ChosenAll(s, ti, names[..|names| - 1]) + [Chosen(s, ti, names[|names| - 1])]
  }

  /** Every label in a successful result of table() can be split. */
  lemma OutcomeLabelsSplit(s: Table, treatment: string, response: string,
                           critical: (nat, nat) -> Option<real>, floatText: real -> string)
    requires Rectangular(s) && Outcome(s, treatment, response, critical, floatText).Success?
    ensures ColumnIndex(s.columns, treatment).Some?
    ensures var names := Outcome(s, treatment, response, critical, floatText).value.pairs;
      forall q :: 0 <= q < |names| ==> Splits(names[q])
  {
    var ti := ColumnIndex(s.columns, treatment).value;
    var ri := ColumnIndex(s.columns, response).value;
    var u := Groups(s, ti);
    var ps := PairsOf(|u|);
    var names := Summary(s, ti, ri, critical, floatText).pairs;
    forall q | 0 <= q < |names|
      ensures Splits(names[q])
    {
      LabelSplits(Show(u[ps[q].0], floatText), Show(u[ps[q].1], floatText));
    }
  }

  /** FishersLSD.plot() up to the figure: the rows of every comparison, tagged with
      its number, under the slice's columns plus "comparison". */
  function PlotOutcome(s: Table, treatment: string, response: string,
                       critical: (nat, nat) -> Option<real>, floatText: real -> string): Result<Table, LsdError>
    requires Rectangular(s)
  {
    match Outcome(s, treatment, response, critical, floatText)
    case Failure(e) => Failure(e)
    case Success(t) =>
      OutcomeLabelsSplit(s, treatment, response, critical, floatText);
      if |t.pairs| == 0 then Failure(NothingToConcatenate)
      else
        var ti := ColumnIndex(s.columns, treatment).value;
        Success(Table(s.columns + ["comparison"], Blocks(ChosenAll(s, ti, t.pairs))))
  }

  /** Two comparison numbers have the same tag only when they are equal. */
  lemma TagsDiffer(m: nat, n: nat)
    ensures NatText(m) == NatText(n) <==> m == n
  {
    Text.ParseNatText(m);
    Text.ParseNatText(n);
  }

  /** Rows tagged with a number other than tag's are filtered out, rows tagged with it all kept. */
  lemma TaggedFilter(rows: seq<seq<Value>>, m: nat, n: nat)
    ensures Filter(Tagged(rows, NatText(m)), TagIs(NatText(n))) == if m == n then Tagged(rows, NatText(m)) else []
  {
    var t := Tagged(rows, NatText(m));
    var keep := TagIs(NatText(n));
    TagsDiffer(m, n);
    if m == n {
      FilterAll(t, keep);
    } else {
      forall k | 0 <= k < |t|
        ensures !keep(t[k])
      {
        assert t[k][|t[k]| - 1] == Str(NatText(m));
      }
      FilterNone(t, keep);
    }
  }

  /** Filtering the gathered rows by tag str(n) gives back the n-th block, tagged. */
  lemma {:induction false} BlocksByTag(blocks: seq<seq<seq<Value>>>, n: nat)
    requires 1 <= n
    ensures Filter(Blocks(blocks), TagIs(NatText(n))) == if n <= |blocks| then Tagged(blocks[n - 1], NatText(n)) else []
    decreases |blocks|
  {
    if blocks != [] {
      var k := |blocks|;
      var init := blocks[..k - 1];
      var last := blocks[k - 1];
      var keep := TagIs(NatText(n));
      assert Blocks(blocks) == Blocks(init) + Tagged(last, NatText(k));
      FilterConcat(Blocks(init), Tagged(last, NatText(k)), keep);
      BlocksByTag(init, n);
      TaggedFilter(last, k, n);
      if n < k {
        assert Filter(Blocks(blocks), keep) == Tagged(init[n - 1], NatText(n)) + [];
        assert init[n - 1] == blocks[n - 1];
      } else if n == k {
        assert Filter(Blocks(blocks), keep) == [] + Tagged(last, NatText(n));
      } else {
        assert Filter(Blocks(blocks), keep) == [] + [];
      }
    }
  }

  /** For comparison number n, the rows tagged str(n) are exactly the n-th selection
      (which ChosenAllAt spells out: the first name's rows, then the second's). */
  lemma PlotSelection(s: Table, treatment: string, response: string,
                      critical: (nat, nat) -> Option<real>, floatText: real -> string, n: nat)
    requires Rectangular(s) && PlotOutcome(s, treatment, response, critical, floatText).Success?
    requires 1 <= n
    ensures var names := Outcome(s, treatment, response, critical, floatText).value.pairs;
      forall q :: 0 <= q < |names| ==> Splits(names[q])
    ensures var names := Outcome(s, treatment, response, critical, floatText).value.pairs;
      var ti := ColumnIndex(s.columns, treatment).value;
      var rows := PlotOutcome(s, treatment, response, critical, floatText).value.rows;
      n <= |names| ==> Filter(rows, TagIs(NatText(n))) == Tagged(ChosenAll(s, ti, names)[n - 1], NatText(n))
    ensures var names := Outcome(s, treatment, response, critical, floatText).value.pairs;
      var rows := PlotOutcome(s, treatment, response, critical, floatText).value.rows;
      n > |names| ==> Filter(rows, TagIs(NatText(n))) == []
  {
    OutcomeLabelsSplit(s, treatment, response, critical, floatText);
    var names := Outcome(s, treatment, response, critical, floatText).value.pairs;
    var ti := ColumnIndex(s.columns, treatment).value;
    var rows := PlotOutcome(s, treatment, response, critical, floatText).value.rows;
    assert rows == Blocks(ChosenAll(s, ti, names));
    BlocksByTag(ChosenAll(s, ti, names), n);
  }

  /** The n-th selection is the rows of the two names label n splits into. */
  lemma {:induction false} ChosenAllAt(s: Table, ti: nat, names: seq<string>, q: nat)
    requires Rectangular(s) && ti < |s.columns| && forall q :: 0 <= q < |names| ==> Splits(names[q])
    requires q < |names|
    ensures ChosenAll(s, ti, names)[q] == Chosen(s, ti, names[q])
    decreases |names|
  {
    if q < |names| - 1 {
      ChosenAllAt(s, ti, names[..|names| - 1], q);
    }
  }

  /** When the two names of a pair are texts that split back cleanly, the label selects
      exactly the rows of the pair's two groups. */
  lemma ChosenGroups(s: Table, ti: nat, a: string, b: string, floatText: real -> string)
    requires Rectangular(s) && ti < |s.columns|
    requires Text.JoinsCleanly(a, Separator) && Text.Lacks(b, Separator)
    ensures Splits(Label(Str(a), Str(b), floatText))
    ensures Chosen(s, ti, Label(Str(a), Str(b), floatText)) == GroupRows(s, ti, Str(a)) + GroupRows(s, ti, Str(b))
  {
    LabelRoundTrip(a, b);
  }

  /** The selection plot() evidently means to make: for the p-th pair (i, j), p counted
      from 0, the rows of groups i and j, whatever their names. */
  function IntendedChosen(s: Table, ti: nat): (r: seq<seq<seq<Value>>>)
    requires Rectangular(s) && ti < |s.columns|
    ensures |r| == |PairsOf(|Groups(s, ti)|)|
  {
    var u := Groups(s, ti);
    var ps := PairsOf(|u|);
    seq(|ps|, p requires 0 <= p < |ps| => GroupRows(s, ti, u[ps[p].0]) + GroupRows(s, ti, u[ps[p].1]))
  }

  lemma IntendedChosenAt(s: Table, ti: nat, p: nat)
    requires Rectangular(s) && ti < |s.columns| && p < |PairsOf(|Groups(s, ti)|)|
    ensures var u := Groups(s, ti);
      var pair := PairsOf(|u|)[p];
      IntendedChosen(s, ti)[p] == GroupRows(s, ti, u[pair.0]) + GroupRows(s, ti, u[pair.1])
  {
  }

  /** With the intended selection, the rows tagged str(n) are the rows of the n-th pair's
      two groups. */
  lemma IntendedSelection(s: Table, ti: nat, n: nat)
    requires Rectangular(s) && ti < |s.columns| && 1 <= n <= |PairsOf(|Groups(s, ti)|)|
    ensures var u := Groups(s, ti);
      var pair := PairsOf(|u|)[n - 1];
      Filter(Blocks(IntendedChosen(s, ti)), TagIs(NatText(n))) ==
        Tagged(GroupRows(s, ti, u[pair.0]) + GroupRows(s, ti, u[pair.1]), NatText(n))
  {
    IntendedChosenAt(s, ti, n - 1);
    BlocksByTag(IntendedChosen(s, ti), n);
  }

  /** ... and there are n_i + n_j of them. */
  lemma IntendedSelectionSize(s: Table, ti: nat, n: nat)
    requires Rectangular(s) && ti < |s.columns| && 1 <= n <= |PairsOf(|Groups(s, ti)|)|
    ensures var u := Groups(s, ti);
      var pair := PairsOf(|u|)[n - 1];
      |Filter(Blocks(IntendedChosen(s, ti)), TagIs(NatText(n)))| ==
        GroupSize(s, ti, u[pair.0]) + GroupSize(s, ti, u[pair.1])
  {
    IntendedSelection(s, ti, n);
  }

  /** Tagging commutes with concatenation. */
  lemma TaggedConcat(a: seq<seq<Value>>, b: seq<seq<Value>>, tag: string)
    ensures Tagged(a, tag) + Tagged(b, tag) == Tagged(a + b, tag)
  {
  }

  /** The loop of plot() over the labels: comparison n (from 1) selects the rows of
      the two names in label n and tags them str(n); returns how many comparisons ran
      and the rows of all of them, in order. */
  method GatherLoop(s: Table, ti: nat, names: seq<string>) returns (comparisons: nat, rows: seq<seq<Value>>)
    requires Rectangular(s) && ti < |s.columns| && forall q :: 0 <= q < |names| ==> Splits(names[q])
    ensures comparisons == |names|
    ensures rows == Blocks(ChosenAll(s, ti, names))
  {
    rows := [];
    ghost var chosen: seq<seq<seq<Value>>> := [];
    comparisons := 0;
    while comparisons < |names|
      invariant comparisons <= |names| && |chosen| == comparisons
      invariant chosen == ChosenAll(s, ti, names[..comparisons])
      invariant rows == Blocks(chosen)
    {
      var parts := Text.SplitOn(names[comparisons], Separator);
      var pop1, pop2 := parts[0], parts[1];
      comparisons := comparisons + 1;
      var popTest := Tagged(RowsWhere(s, ti, Str(pop1)), NatText(comparisons))
                   + Tagged(RowsWhere(s, ti, Str(pop2)), NatText(comparisons));
      TaggedConcat(RowsWhere(s, ti, Str(pop1)), RowsWhere(s, ti, Str(pop2)), NatText(comparisons));
      ghost var block := RowsWhere(s, ti, Str(pop1)) + RowsWhere(s, ti, Str(pop2));
      assert Blocks(chosen + [block]) == Blocks(chosen) + Tagged(block, NatText(comparisons)) by {
        assert (chosen + [block])[..|chosen|] == chosen;
      }
      ChosenAllNext(s, ti, names, comparisons - 1);
      chosen := chosen + [block];
      rows := rows + popTest;
    }
    assert names[..comparisons] == names;
  }

  /** Selecting for one label more extends the selections by that label's. */
  lemma ChosenAllNext(s: Table, ti: nat, names: seq<string>, c: nat)
    requires Rectangular(s) && ti < |s.columns| && forall q :: 0 <= q < |names| ==> Splits(names[q])
    requires c < |names|
    ensures ChosenAll(s, ti, names[..c + 1]) == ChosenAll(s, ti, names[..c]) + [Chosen(s, ti, names[c])]
  {
    assert names[..c + 1][..c] == names[..c];
  }

  // ---------------------------------------------------------------- the class

  /** A FishersLSD instance: the slice it was built on and the names it was given.
      Nothing in table() or plot() writes to the instance, so its fields are constants. */
  class FishersLsd {
    const data: Table
    const treatment: string
    const response: string
    const groupby: string
    const groupbyValue: Value
    const confidence: real

    ghost predicate Valid()
    {
      Rectangular(data)
    }

    /** __init__ on a DataFrame that has the groupby column: keeps the matching rows. */
    constructor (df: Table, treatment: string, response: string, groupby: string, groupbyValue: Value,
                 confidence: real)
      requires Rectangular(df) && groupby in df.columns
      ensures Valid()
      ensures data == Slice(df, groupby, groupbyValue)
      ensures this.treatment == treatment && this.response == response
      ensures this.groupby == groupby && this.groupbyValue == groupbyValue && this.confidence == confidence
    {
      data := Slice(df, groupby, groupbyValue);
      this.treatment := treatment;
      this.response := response;
      this.groupby := groupby;
      this.groupbyValue := groupbyValue;
      this.confidence := confidence;
    }

    /** FishersLSD(df, ...): RuntimeError when df is not a DataFrame, KeyError when it
        has no groupby column, and otherwise an instance over the slice. */
    static method Create(df: Observed, treatment: string, response: string, groupby: string,
                         groupbyValue: Value, confidence: real) returns (r: Result<FishersLsd, LsdError>)
      requires df.DataFrame? ==> Rectangular(df.table)
      ensures df.Other? ==> r == Failure(NotADataFrame)
      ensures df.DataFrame? && groupby !in df.table.columns ==> r == Failure(MissingColumn(groupby))
      ensures df.DataFrame? && groupby in df.table.columns ==>
        r.Success? && fresh(r.value) && r.value.Valid() &&
        r.value.data == Slice(df.table, groupby, groupbyValue) &&
        r.value.treatment == treatment && r.value.response == response &&
        r.value.groupby == groupby && r.value.groupbyValue == groupbyValue && r.value.confidence == confidence
    {
      if df.Other? {
        return Failure(NotADataFrame);
      }
      if groupby !in df.table.columns {
        return Failure(MissingColumn(groupby));
      }
      var lsd := new FishersLsd(df.table, treatment, response, groupby, groupbyValue, confidence);
      return Success(lsd);
    }

    /** table(): the pair loop over the groups, then the verdict loop. */
    method Table(critical: (nat, nat) -> Option<real>, floatText: real -> string) returns (r: Result<LsdTable, LsdError>)
      requires Valid()
      ensures r == Outcome(data, treatment, response, critical, floatText)
    {
      var tio := ColumnIndex(data.columns, treatment);
      if tio.None? {
        return Failure(MissingColumn(treatment));
      }
      var rio := ColumnIndex(data.columns, response);
      if rio.None? {
        return Failure(MissingColumn(response));
      }
      var ti, ri := tio.value, rio.value;
      if !NumericResponses(data, ti, ri) {
        return Failure(NonNumericResponse);
      }
      var u := Groups(data, ti);
      var means := Means(data, ti, ri, u);
      var empty, pairs, diffs, crits := PairLoop(data, ti, u, means, critical, floatText);
      if empty.Some? {
        EmptyGroupInPair(data, ti, empty.value.0, empty.value.1);
        return Failure(ZeroDivision);
      }
      var sig := VerdictLoop(diffs, crits);
      EntriesNoEmptyGroup(data, ti, means, critical, floatText, pairs, diffs, crits);
      EntriesComplete(data, ti, ri, critical, floatText, pairs, diffs, crits, sig);
      return Success(LsdTable(pairs, diffs, crits, sig));
    }

    /** plot() up to the figure: for each label of table(), numbered from 1, the rows
        of the two named groups tagged with the number, all concatenated. */
    method Plot(critical: (nat, nat) -> Option<real>, floatText: real -> string) returns (r: Result<Tables.Table, LsdError>)
      requires Valid()
      ensures r == PlotOutcome(data, treatment, response, critical, floatText)
    {
      var lsdTable := Table(critical, floatText);
      if lsdTable.Failure? {
        return Failure(lsdTable.error);
      }
      OutcomeLabelsSplit(data, treatment, response, critical, floatText);
      var ti := ColumnIndex(data.columns, treatment).value;
      var comparisons, rows := GatherLoop(data, ti, lsdTable.value.pairs);
      if comparisons == 0 {
        return Failure(NothingToConcatenate);
      }
      return Success(Tables.Table(data.columns + ["comparison"], rows));
    }
  }
}
