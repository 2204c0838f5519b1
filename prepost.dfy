/** prepost_transform: the wide survey table (one row per client and test,
    one column per question) becomes a long table with one row per
    (client, question), carrying the pre-test score, the post-test score and
    their difference. */
module PrePost {
  import opened Values
  import opened Seqs
  import opened Tables
  import Text

  /** The columns removed from each side before unpivoting. */
  const Dropped: set<string> := {"zip_code", "test_type", "years_at_camp"}

  /** melt keeps the first five remaining columns as identifiers. */
  const IdCount: nat := 5

  /** One row of a melted side: the identifier cells, the question column's label and its cell. */
  datatype LongRow = LongRow(ids: seq<Value>, question: string, score: Value)

  /** One row of the inner merge: everything from the pre-test row plus the post-test score. */
  datatype Merged = Merged(ids: seq<Value>, question: string, scorePre: Value, scorePost: Value)

  /** One row of the result. */
  datatype OutRow = OutRow(ids: seq<Value>, question: string, scorePre: Value, scorePost: Value, delta: Value)

  /** The result: identifier column labels and rows; its columns are OutputColumns(idColumns). */
  datatype Long = Long(idColumns: seq<string>, rows: seq<OutRow>)

  datatype ReshapeError = MissingColumn(name: string) | NonNumericScore

  function OutputColumns(idColumns: seq<string>): seq<string>
  {
    idColumns + ["question", "score_pretest", "score_posttest", "delta"]
  }

  // ---------------------------------------------------------------- filter

  /** data[data['test_type'] == kind]: the rows whose test_type cell is exactly the string kind. */
  function Side(t: Table, ti: nat, kind: string): (rows: seq<seq<Value>>)
    requires Rectangular(t) && ti < |t.columns|
    ensures forall i :: 0 <= i < |rows| ==> |rows[i]| == |t.columns| && rows[i][ti] == Str(kind)
  {
    Filter(t.rows, (r: seq<Value>) => |r| == |t.columns| && r[ti] == Str(kind))
  }

  /** A row feeds a side exactly as often as it occurs in the input when its
      test_type is that side's string, and never otherwise. */
  lemma SideRows(t: Table, ti: nat, kind: string, row: seq<Value>)
    requires Rectangular(t) && ti < |t.columns| && |row| == |t.columns|
    ensures Count(Side(t, ti, kind), row) == if row[ti] == Str(kind) then Count(t.rows, row) else 0
  {
    FilterCount(t.rows, (r: seq<Value>) => |r| == |t.columns| && r[ti] == Str(kind), row);
  }

  // ---------------------------------------------------------------- melt

  /** The melted rows contributed by the value column at position q, one per input row. */
  function MeltColumn(t: Table, n: nat, q: nat): (r: seq<LongRow>)
    requires Rectangular(t) && n <= q < |t.columns|
    ensures |r| == |t.rows|
  {
    seq(|t.rows|, i requires 0 <= i < |t.rows| =>
      LongRow(t.rows[i][..n], t.columns[q], t.rows[i][q]))
  }

  /** melt with the first n columns as identifiers, value columns from position q on;
      pandas stacks the value columns one after the other. */
  function MeltFrom(t: Table, n: nat, q: nat): seq<LongRow>
    requires Rectangular(t) && n <= q <= |t.columns|
    decreases |t.columns| - q
  {
    if q == |t.columns| then [] else MeltColumn(t, n, q) + MeltFrom(t, n, q + 1)
  }

  function Melt(t: Table, n: nat): seq<LongRow>
    requires Rectangular(t) && n <= |t.columns|
  {
    MeltFrom(t, n, n)
  }

  /** melt yields one row per (input row, value column). */
  lemma {:induction false} MeltSize(t: Table, n: nat, q: nat)
    requires Rectangular(t) && n <= q <= |t.columns|
    ensures |MeltFrom(t, n, q)| == |t.rows| * (|t.columns| - q)
    decreases |t.columns| - q
  {
    if q < |t.columns| {
      MeltSize(t, n, q + 1);
      assert |t.rows| * (|t.columns| - q) == |t.rows| + |t.rows| * (|t.columns| - (q + 1));
    }
  }

  // ---------------------------------------------------------------- merge

  /** The merge key (client, question); ci is the client's position among the identifiers. */
  function Key(r: LongRow, ci: nat): (Value, string)
  {
    (if ci < |r.ids| then r.ids[ci] else NaN, r.question)
  }

  /** The merge keys of melted rows, in order. */
  function Keys(rows: seq<LongRow>, ci: nat): seq<(Value, string)>
    decreases |rows|
  {
    if rows == [] then [] else Keys(rows[..|rows| - 1], ci) + [Key(rows[|rows| - 1], ci)]
  }

  lemma {:induction false} KeysIndex(rows: seq<LongRow>, ci: nat)
    ensures |Keys(rows, ci)| == |rows|
    ensures forall i :: 0 <= i < |rows| ==> Keys(rows, ci)[i] == Key(rows[i], ci)
    decreases |rows|
  {
    if rows != [] {
      KeysIndex(rows[..|rows| - 1], ci);
    }
  }

  lemma {:induction false} KeysConcat(a: seq<LongRow>, b: seq<LongRow>, ci: nat)
    ensures Keys(a + b, ci) == Keys(a, ci) + Keys(b, ci)
    decreases |b|
  {
    if b == [] {
      assert a + b == a;
    } else {
      assert (a + b)[..|a + b| - 1] == a + b[..|b| - 1];
      KeysConcat(a, b[..|b| - 1], ci);
    }
  }

  function MergedKey(m: Merged, ci: nat): (Value, string)
  {
    (if ci < |m.ids| then m.ids[ci] else NaN, m.question)
  }

  function MergedKeys(rows: seq<Merged>, ci: nat): seq<(Value, string)>
    decreases |rows|
  {
    if rows == [] then [] else MergedKeys(rows[..|rows| - 1], ci) + [MergedKey(rows[|rows| - 1], ci)]
  }

  /** Only the post-test score is taken from the post-test row. */
  function Combine(pre: LongRow, post: LongRow): Merged
  {
    Merged(pre.ids, pre.question, pre.score, post.score)
  }

  /** The merged rows for one pre-test row: one per post-test row with the same key, in order. */
  function Matches(pre: LongRow, post: seq<LongRow>, ci: nat): seq<Merged>
    decreases |post|
  {
    if post == [] then []
    else
      var p := post[|post| - 1];
      Matches(pre, post[..|post| - 1], ci) + (if Key(p, ci) == Key(pre, ci) then [Combine(pre, p)] else [])
  }

  /** pretest.merge(posttest[['client', 'question', 'score_posttest']], on=['client', 'question'],
      how='inner'): the left rows in order, each followed by its matches. */
  function Join(pre: seq<LongRow>, post: seq<LongRow>, ci: nat): seq<Merged>
    decreases |pre|
  {
    if pre == [] then []
    else Join(pre[..|pre| - 1], post, ci) + Matches(pre[|pre| - 1], post, ci)
  }

  lemma {:induction false} MergedKeysConcat(a: seq<Merged>, b: seq<Merged>, ci: nat)
    ensures MergedKeys(a + b, ci) == MergedKeys(a, ci) + MergedKeys(b, ci)
    decreases |b|
  {
    if b == [] {
      assert a + b == a;
    } else {
      assert (a + b)[..|a + b| - 1] == a + b[..|b| - 1];
      MergedKeysConcat(a, b[..|b| - 1], ci);
    }
  }

  /** A pre-test row meets each post-test row with its key once. */
  lemma {:induction false} MatchesCount(pre: LongRow, post: seq<LongRow>, ci: nat, k: (Value, string))
    ensures Count(MergedKeys(Matches(pre, post, ci), ci), k) ==
      if Key(pre, ci) == k then Count(Keys(post, ci), k) else 0
    decreases |post|
  {
    if post != [] {
      MatchesStep(pre, post, ci, k);
      MatchesCount(pre, post[..|post| - 1], ci, k);
    }
  }

  /** The last post-test row adds one match of key k exactly when it and the pre-test row both have key k. */
  lemma MatchesStep(pre: LongRow, post: seq<LongRow>, ci: nat, k: (Value, string))
    requires post != []
    ensures var p := post[|post| - 1];
      var init := post[..|post| - 1];
      Count(MergedKeys(Matches(pre, post, ci), ci), k) ==
        Count(MergedKeys(Matches(pre, init, ci), ci), k) + (if Key(p, ci) == Key(pre, ci) && Key(pre, ci) == k then 1 else 0) &&
      Count(Keys(post, ci), k) == Count(Keys(init, ci), k) + (if Key(p, ci) == k then 1 else 0)
  {
    var p := post[|post| - 1];
    var init := post[..|post| - 1];
    var tail := if Key(p, ci) == Key(pre, ci) then [Combine(pre, p)] else [];
    var before := Matches(pre, init, ci);
    assert Matches(pre, post, ci) == before + tail;
    assert MergedKeys(tail, ci) == if tail == [] then [] else [Key(p, ci)] by {
      if tail != [] {
        assert MergedKeys(tail, ci) == MergedKeys([], ci) + [MergedKey(Combine(pre, p), ci)];
      }
    }
    MergedKeysConcat(before, tail, ci);
    CountConcat(MergedKeys(before, ci), MergedKeys(tail, ci), k);
    assert Keys(post, ci) == Keys(init, ci) + [Key(p, ci)];
    CountConcat(Keys(init, ci), [Key(p, ci)], k);
  }

  /** Inner-join multiplicity: a key occurs in the merge (#pre rows with it) x (#post rows with it) times. */
  lemma {:induction false} JoinCount(pre: seq<LongRow>, post: seq<LongRow>, ci: nat, k: (Value, string))
    ensures Count(MergedKeys(Join(pre, post, ci), ci), k) == Count(Keys(pre, ci), k) * Count(Keys(post, ci), k)
    decreases |pre|
  {
    if pre != [] {
      JoinCount(pre[..|pre| - 1], post, ci, k);
      JoinStep(pre, post, ci, k);
    }
  }

  /** The last pre-test row adds its matches to the merge and itself to the pre-test keys. */
  lemma JoinStep(pre: seq<LongRow>, post: seq<LongRow>, ci: nat, k: (Value, string))
    requires pre != []
    requires var init := pre[..|pre| - 1];
      Count(MergedKeys(Join(init, post, ci), ci), k) == Count(Keys(init, ci), k) * Count(Keys(post, ci), k)
    ensures Count(MergedKeys(Join(pre, post, ci), ci), k) == Count(Keys(pre, ci), k) * Count(Keys(post, ci), k)
  {
    var init := pre[..|pre| - 1];
    var l := pre[|pre| - 1];
    var e := if Key(l, ci) == k then 1 else 0;
    MatchesCount(l, post, ci, k);
    MergedKeysConcat(Join(init, post, ci), Matches(l, post, ci), ci);
    CountConcat(MergedKeys(Join(init, post, ci), ci), MergedKeys(Matches(l, post, ci), ci), k);
    assert Keys(pre, ci) == Keys(init, ci) + [Key(l, ci)];
    CountConcat(Keys(init, ci), [Key(l, ci)], k);
    MulStep(e, Count(Keys(init, ci), k), Count(Keys(post, ci), k),
            Count(MergedKeys(Matches(l, post, ci), ci), k), Count(MergedKeys(Join(init, post, ci), ci), k),
            Count(MergedKeys(Join(pre, post, ci), ci), k), Count(Keys(pre, ci), k));
  }

  lemma MulStep(e: nat, b: nat, c: nat, h: nat, r: nat, total: nat, count: nat)
    requires e <= 1 && h == (if e == 1 then c else 0) && r == b * c
    requires total == h + r && count == e + b
    ensures total == count * c
  {
  }

  lemma PositiveProduct(a: nat, b: nat)
    ensures a * b > 0 <==> a > 0 && b > 0
  {
  }

  /** Inner-join semantics: a (client, question) key is in the merge iff it is on both sides. */
  lemma JoinHasKey(pre: seq<LongRow>, post: seq<LongRow>, ci: nat, k: (Value, string))
    ensures k in MergedKeys(Join(pre, post, ci), ci) <==> k in Keys(pre, ci) && k in Keys(post, ci)
  {
    JoinCount(pre, post, ci, k);
    PositiveProduct(Count(Keys(pre, ci), k), Count(Keys(post, ci), k));
  }

  /** Every merged row is a pre-test row combined with a post-test row of the same key. */
  lemma {:induction false} JoinProvenance(pre: seq<LongRow>, post: seq<LongRow>, ci: nat, k: nat)
    requires k < |Join(pre, post, ci)|
    ensures exists i, j :: 0 <= i < |pre| && 0 <= j < |post| && Key(pre[i], ci) == Key(post[j], ci) &&
                           Join(pre, post, ci)[k] == Combine(pre[i], post[j])
    decreases |pre|
  {
    var init := pre[..|pre| - 1];
    var l := pre[|pre| - 1];
    var head := Join(init, post, ci);
    if k < |head| {
      JoinProvenance(init, post, ci, k);
      var i, j :| 0 <= i < |init| && 0 <= j < |post| && Key(init[i], ci) == Key(post[j], ci) &&
        head[k] == Combine(init[i], post[j]);
      assert pre[i] == init[i];
    } else {
      var j := MatchesProvenance(l, post, ci, k - |head|);
      assert pre[|pre| - 1] == l;
    }
  }

  /** The m-th match of a pre-test row comes from a post-test row with its key. */
  lemma {:induction false} MatchesProvenance(l: LongRow, post: seq<LongRow>, ci: nat, m: nat) returns (j: nat)
    requires m < |Matches(l, post, ci)|
    ensures j < |post| && Key(post[j], ci) == Key(l, ci) && Matches(l, post, ci)[m] == Combine(l, post[j])
    decreases |post|
  {
    var init := post[..|post| - 1];
    if m < |Matches(l, init, ci)| {
      j := MatchesProvenance(l, init, ci, m);
    } else {
      j := |post| - 1;
    }
  }

  /** A pre-test row has as many matches as there are post-test rows with its key. */
  lemma {:induction false} MatchesSize(l: LongRow, post: seq<LongRow>, ci: nat)
    ensures |Matches(l, post, ci)| == Count(Keys(post, ci), Key(l, ci))
    decreases |post|
  {
    if post != [] {
      var init := post[..|post| - 1];
      MatchesSize(l, init, ci);
      assert Keys(post, ci) == Keys(init, ci) + [Key(post[|post| - 1], ci)];
      CountConcat(Keys(init, ci), [Key(post[|post| - 1], ci)], Key(l, ci));
    }
  }

  /** When every pre-test key has exactly one post-test partner, the merge has one row per pre-test row. */
  lemma {:induction false} JoinSizeMatched(pre: seq<LongRow>, post: seq<LongRow>, ci: nat)
    requires forall i :: 0 <= i < |pre| ==> Count(Keys(post, ci), Key(pre[i], ci)) == 1
    ensures |Join(pre, post, ci)| == |pre|
    decreases |pre|
  {
    if pre != [] {
      var init := pre[..|pre| - 1];
      var l := pre[|pre| - 1];
      assert forall i :: 0 <= i < |init| ==> init[i] == pre[i];
      JoinSizeMatched(init, post, ci);
      MatchesSize(l, post, ci);
    }
  }

  // ---------------------------------------------------------------- delta and label

  /** post - pre on two numeric cells: NaN propagates, int - int stays an int. */
  function Delta(pre: Value, post: Value): (d: Value)
    requires IsNumeric(pre) && IsNumeric(post)
    ensures IsNumeric(d)
    ensures pre.NaN? || post.NaN? <==> d.NaN?
    ensures !d.NaN? ==> (d.Int? <==> pre.Int? && post.Int?)
    ensures !d.NaN? ==> AsReal(d) == AsReal(post) - AsReal(pre)
  {
    if pre.NaN? || post.NaN? then NaN
    else if pre.Int? && post.Int? then Int(post.i - pre.i)
    else Float(AsReal(post) - AsReal(pre))
  }

  /** Adds delta and keeps only the question label before the first '.'. */
  function Finish(m: Merged): OutRow
    requires IsNumeric(m.scorePre) && IsNumeric(m.scorePost)
  {
    OutRow(m.ids, Text.BeforeFirst(m.question, '.'), m.scorePre, m.scorePost, Delta(m.scorePre, m.scorePost))
  }

  predicate NumericScores(ms: seq<Merged>)
  {
    forall k :: 0 <= k < |ms| ==> IsNumeric(ms[k].scorePre) && IsNumeric(ms[k].scorePost)
  }

  // ---------------------------------------------------------------- the whole transform

  /** The column positions the transform relies on, once it is known they exist:
      test_type in the input, the number of identifier columns and the client's
      position among them after the drop. */
  datatype Plan = Plan(ti: nat, n: nat, ci: nat)

  /** The columns left after the drop; both sides share them. */
  function KeptColumns(t: Table): seq<string>
    requires Rectangular(t)
  {
    DropColumns(t, Dropped).columns
  }

  predicate Fits(t: Table, p: Plan)
  {
    Rectangular(t) && p.ti < |t.columns| && p.ci < p.n <= |KeptColumns(t)|
  }

  /** The column lookups of prepost_transform, with the KeyError each can raise. */
  function MakePlan(t: Table): (r: Result<Plan, ReshapeError>)
    requires Rectangular(t)
    ensures r.Success? ==> Fits(t, r.value) && t.columns[r.value.ti] == "test_type"
    ensures r.Success? ==> KeptColumns(t)[r.value.ci] == "client" && r.value.n == Min(|KeptColumns(t)|, IdCount)
    ensures r.Failure? <==> ("test_type" !in t.columns || "zip_code" !in t.columns ||
                             "years_at_camp" !in t.columns ||
                             "client" !in KeptColumns(t)[..Min(|KeptColumns(t)|, IdCount)])
  {
    match ColumnIndex(t.columns, "test_type")
    case None => Failure(MissingColumn("test_type"))
    case Some(ti) =>
      if "zip_code" !in t.columns then Failure(MissingColumn("zip_code"))
      else if "years_at_camp" !in t.columns then Failure(MissingColumn("years_at_camp"))
      else
        var kept := KeptColumns(t);
        var n := Min(|kept|, IdCount);
        match ColumnIndex(kept[..n], "client")
        case None => Failure(MissingColumn("client"))
        case Some(ci) => Success(Plan(ti, n, ci))
  }

  function Min(a: nat, b: nat): nat
  {
    if a < b then a else b
  }

  /** One side, filtered by test_type, with the three columns dropped. */
  function SideTable(t: Table, p: Plan, kind: string): (s: Table)
    requires Fits(t, p)
    ensures Rectangular(s) && s.columns == KeptColumns(t)
  {
    DropColumns(Table(t.columns, Side(t, p.ti, kind)), Dropped)
  }

  function PreRows(t: Table, p: Plan): seq<LongRow>
    requires Fits(t, p)
  {
    Melt(SideTable(t, p, "pre-test"), p.n)
  }

  function PostRows(t: Table, p: Plan): seq<LongRow>
    requires Fits(t, p)
  {
    Melt(SideTable(t, p, "post-test"), p.n)
  }

  /** The inner merge of the two melted sides. */
  function MergeSides(t: Table, p: Plan): seq<Merged>
    requires Fits(t, p)
  {
    Join(PreRows(t, p), PostRows(t, p), p.ci)
  }

  /** The output rows, one per merged row, in order. */
  function Finished(ms: seq<Merged>): (os: seq<OutRow>)
    requires NumericScores(ms)
    ensures |os| == |ms| && forall k :: 0 <= k < |ms| ==> os[k] == Finish(ms[k])
  {
    seq(|ms|, k requires 0 <= k < |ms| => Finish(ms[k]))
  }

  /** prepost_transform. */
  function Reshape(t: Table): (r: Result<Long, ReshapeError>)
    requires Rectangular(t)
  {
    match MakePlan(t)
    case Failure(e) => Failure(e)
    case Success(p) =>
      var merged := MergeSides(t, p);
      if !NumericScores(merged) then Failure(NonNumericScore)
      else Success(Long(KeptColumns(t)[..p.n], Finished(merged)))
  }

  /** A successful transform is the plan's merge, finished row by row. */
  lemma ReshapeByPlan(t: Table)
    requires Rectangular(t) && Reshape(t).Success?
    ensures MakePlan(t).Success? && NumericScores(MergeSides(t, MakePlan(t).value))
    ensures Reshape(t).value == Long(KeptColumns(t)[..MakePlan(t).value.n], Finished(MergeSides(t, MakePlan(t).value)))
  {
  }

  // ---------------------------------------------------------------- properties of the whole

  /** zip_code, test_type and years_at_camp are not among the output columns. */
  lemma DroppedColumnsAbsent(t: Table)
    requires Rectangular(t) && Reshape(t).Success?
    ensures forall name :: name in Dropped ==> name !in OutputColumns(Reshape(t).value.idColumns)
  {
    ReshapeByPlan(t);
    var ids := KeptColumns(t)[..MakePlan(t).value.n];
    assert Reshape(t).value.idColumns == ids;
    assert forall name :: name in Dropped ==> name !in ids by {
      forall name | name in Dropped
        ensures name !in ids
      {
        assert name !in KeptColumns(t);
      }
    }
    DroppedNotAdded(ids);
  }

  /** None of the dropped labels is one of the four columns the transform adds. */
  lemma DroppedNotAdded(ids: seq<string>)
    requires forall name :: name in Dropped ==> name !in ids
    ensures forall name :: name in Dropped ==> name !in OutputColumns(ids)
  {
    assert forall name :: name in Dropped ==> name[0] == 'z' || name[0] == 't' || name[0] == 'y';
    assert forall name :: name in ["question", "score_pretest", "score_posttest", "delta"] ==>
      name[0] == 'q' || name[0] == 's' || name[0] == 'd';
  }

  /** Each output row is a merged row: its identifiers and pre-test score come from
      a pre-test row and its post-test score from a post-test row with the same
      client and full question text; its question is the label before the first '.'
      and its delta is score_posttest - score_pretest. */
  lemma ReshapeRow(t: Table, k: nat)
    requires Rectangular(t) && Reshape(t).Success? && k < |Reshape(t).value.rows|
    ensures MakePlan(t).Success?
    ensures var p := MakePlan(t).value;
      var pre := PreRows(t, p);
      var post := PostRows(t, p);
      var o := Reshape(t).value.rows[k];
      exists i, j :: 0 <= i < |pre| && 0 <= j < |post| && Key(pre[i], p.ci) == Key(post[j], p.ci) &&
        o.ids == pre[i].ids && o.scorePre == pre[i].score && o.scorePost == post[j].score &&
        o.question == Text.BeforeFirst(pre[i].question, '.')
    ensures var o := Reshape(t).value.rows[k];
      IsNumeric(o.scorePre) && IsNumeric(o.scorePost) && (o.scorePre.NaN? || o.scorePost.NaN? <==> o.delta.NaN?) &&
      (!o.delta.NaN? ==> AsReal(o.delta) == AsReal(o.scorePost) - AsReal(o.scorePre))
  {
    ReshapeByPlan(t);
    var p := MakePlan(t).value;
    JoinProvenance(PreRows(t, p), PostRows(t, p), p.ci, k);
  }

  /** Output rows correspond one-to-one, in order, to the merged rows. */
  lemma ReshapeSize(t: Table)
    requires Rectangular(t) && Reshape(t).Success?
    ensures MakePlan(t).Success? && |Reshape(t).value.rows| == |MergeSides(t, MakePlan(t).value)|
  {
    ReshapeByPlan(t);
  }

  // ---------------------------------------------------------------- row count

  /** Each client paired with the question label y. */
  function Paired(xs: seq<Value>, y: string): seq<(Value, string)>
  {
    seq(|xs|, i requires 0 <= i < |xs| => (xs[i], y))
  }

  lemma {:induction false} PairCount(xs: seq<Value>, y: string, k: (Value, string))
    ensures Count(Paired(xs, y), k) == if k.1 == y then Count(xs, k.0) else 0
    decreases |xs|
  {
    if xs != [] {
      var init := xs[..|xs| - 1];
      PairCount(init, y, k);
      assert Paired(xs, y)[..|xs| - 1] == Paired(init, y);
    }
  }

  /** The merge keys a melt produces, computed from the side directly. */
  function MeltKeys(s: Table, q: nat, ci: nat): seq<(Value, string)>
    requires Rectangular(s) && ci < q <= |s.columns|
    decreases |s.columns| - q
  {
    if q == |s.columns| then []
    else
      Paired(Column(s, ci), s.columns[q]) + MeltKeys(s, q + 1, ci)
  }

  lemma {:induction false} MeltKeysAgree(s: Table, n: nat, q: nat, ci: nat)
    requires Rectangular(s) && ci < n <= q <= |s.columns|
    ensures Keys(MeltFrom(s, n, q), ci) == MeltKeys(s, q, ci)
    decreases |s.columns| - q
  {
    if q < |s.columns| {
      MeltKeysAgree(s, n, q + 1, ci);
      KeysConcat(MeltColumn(s, n, q), MeltFrom(s, n, q + 1), ci);
      KeysIndex(MeltColumn(s, n, q), ci);
      assert Keys(MeltColumn(s, n, q), ci) == Paired(Column(s, ci), s.columns[q]);
    }
  }

  /** A (client, question) key occurs among the melt keys (#columns labelled question) x
      (#rows of that client) times. */
  lemma {:induction false} MeltKeysCount(s: Table, q: nat, ci: nat, k: (Value, string))
    requires Rectangular(s) && ci < q <= |s.columns|
    ensures Count(MeltKeys(s, q, ci), k) == Count(s.columns[q..], k.1) * Count(Column(s, ci), k.0)
    decreases |s.columns| - q
  {
    if q < |s.columns| {
      MeltKeysCount(s, q + 1, ci, k);
      MeltKeysStep(s, q, ci, k);
    } else {
      assert s.columns[q..] == [];
    }
  }

  /** Adding the value column at position q multiplies out: one more column labelled
      k.1 adds one more copy of each row of client k.0. */
  lemma MeltKeysStep(s: Table, q: nat, ci: nat, k: (Value, string))
    requires Rectangular(s) && ci < q < |s.columns|
    requires Count(MeltKeys(s, q + 1, ci), k) == Count(s.columns[q + 1..], k.1) * Count(Column(s, ci), k.0)
    ensures Count(MeltKeys(s, q, ci), k) == Count(s.columns[q..], k.1) * Count(Column(s, ci), k.0)
  {
    var cs := Column(s, ci);
    var y := s.columns[q];
    var head := Paired(cs, y);
    var e := if k.1 == y then 1 else 0;
    CountConcat(head, MeltKeys(s, q + 1, ci), k);
    PairCount(cs, y, k);
    assert s.columns[q..] == [y] + s.columns[q + 1..];
    CountConcat([y], s.columns[q + 1..], k.1);
    MulStep(e, Count(s.columns[q + 1..], k.1), Count(cs, k.0), Count(head, k), Count(MeltKeys(s, q + 1, ci), k),
            Count(MeltKeys(s, q, ci), k), Count(s.columns[q..], k.1));
  }

  /** Every melted row carries the client of some input row and the label of a value column. */
  lemma {:induction false} MeltKeyShape(s: Table, n: nat, q: nat, ci: nat, m: nat)
    requires Rectangular(s) && ci < n <= q <= |s.columns| && m < |MeltFrom(s, n, q)|
    ensures exists i, c :: 0 <= i < |s.rows| && q <= c < |s.columns| &&
                           Key(MeltFrom(s, n, q)[m], ci) == (s.rows[i][ci], s.columns[c])
    decreases |s.columns| - q
  {
    var head := MeltColumn(s, n, q);
    if m < |head| {
      assert Key(head[m], ci) == (s.rows[m][ci], s.columns[q]);
    } else {
      MeltKeyShape(s, n, q + 1, ci, m - |head|);
    }
  }

  /** Each client has exactly one post-test row and every pre-test client has one. */
  predicate ClientsPaired(t: Table, p: Plan)
    requires Fits(t, p)
  {
    var pre := SideTable(t, p, "pre-test");
    var post := SideTable(t, p, "post-test");
    Distinct(Column(post, p.ci)) &&
    forall i :: 0 <= i < |pre.rows| ==> pre.rows[i][p.ci] in Column(post, p.ci)
  }

  /** The merge has one row per (pre-test row, question column) when each client has
      exactly one post-test row and every pre-test client has one. */
  lemma MergeRowCount(t: Table, p: Plan)
    requires Fits(t, p) && Distinct(t.columns) && ClientsPaired(t, p)
    ensures |MergeSides(t, p)| == |SideTable(t, p, "pre-test").rows| * (|KeptColumns(t)| - p.n)
  {
    PreKeysMatchedOnce(t, p);
    JoinSizeMatched(PreRows(t, p), PostRows(t, p), p.ci);
    PreRowsSize(t, p, |MergeSides(t, p)|);
  }

  /** Under the same conditions every pre-test key meets exactly one post-test key. */
  lemma PreKeysMatchedOnce(t: Table, p: Plan)
    requires Fits(t, p) && Distinct(t.columns) && ClientsPaired(t, p)
    ensures forall m :: 0 <= m < |PreRows(t, p)| ==>
      Count(Keys(PostRows(t, p), p.ci), Key(PreRows(t, p)[m], p.ci)) == 1
  {
    var pre := SideTable(t, p, "pre-test");
    var post := SideTable(t, p, "post-test");
    assert Distinct(post.columns);
    forall m | 0 <= m < |PreRows(t, p)|
      ensures Count(Keys(PostRows(t, p), p.ci), Key(PreRows(t, p)[m], p.ci)) == 1
    {
      MeltedKeyOnce(pre, post, p.n, p.ci, m);
    }
  }

  /** Two sides with the same distinct columns, distinct clients on the second and
      every client of the first among them: each melted key of the first side occurs
      once among the melted keys of the second. */
  lemma MeltedKeyOnce(pre: Table, post: Table, n: nat, ci: nat, m: nat)
    requires Rectangular(pre) && Rectangular(post) && pre.columns == post.columns
    requires Distinct(post.columns) && ci < n <= |pre.columns|
    requires Distinct(Column(post, ci))
    requires forall i :: 0 <= i < |pre.rows| ==> pre.rows[i][ci] in Column(post, ci)
    requires m < |Melt(pre, n)|
    ensures Count(Keys(Melt(post, n), ci), Key(Melt(pre, n)[m], ci)) == 1
  {
    MeltKeysAgree(post, n, n, ci);
    MeltKeyShape(pre, n, n, ci, m);
    var i, c :| 0 <= i < |pre.rows| && n <= c < |pre.columns| &&
                Key(Melt(pre, n)[m], ci) == (pre.rows[i][ci], pre.columns[c]);
    UniqueKeyCount(post, n, ci, pre.rows[i][ci], c);
  }

  /** The melted pre-test side has one row per (pre-test row, question column). */
  lemma PreRowsSize(t: Table, p: Plan, size: nat)
    requires Fits(t, p) && size == |PreRows(t, p)|
    ensures size == |SideTable(t, p, "pre-test").rows| * (|KeptColumns(t)| - p.n)
  {
    MeltSize(SideTable(t, p, "pre-test"), p.n, p.n);
  }

  /** With distinct column labels and distinct clients, a present (client, question) key
      occurs exactly once among the melt keys. */
  lemma UniqueKeyCount(s: Table, n: nat, ci: nat, client: Value, c: nat)
    requires Rectangular(s) && ci < n <= c < |s.columns| && Distinct(s.columns)
    requires Distinct(Column(s, ci)) && client in Column(s, ci)
    ensures Count(MeltKeys(s, n, ci), (client, s.columns[c])) == 1
  {
    MeltKeysCount(s, n, ci, (client, s.columns[c]));
    assert s.columns[n..][c - n] == s.columns[c];
    assert Distinct(s.columns[n..]);
    DistinctCountOne(s.columns[n..], s.columns[c]);
    DistinctCountOne(Column(s, ci), client);
  }

  /** Row count of the transform: under the conditions of MergeRowCount the output has
      (pre-test rows) x (question columns) rows; with C clients answering Q questions
      that is C x Q. */
  lemma ReshapeRowCount(t: Table, p: Plan)
    requires Rectangular(t) && Distinct(t.columns) && Reshape(t).Success?
    requires MakePlan(t) == Success(p) && ClientsPaired(t, p)
    ensures |Reshape(t).value.rows| == |SideTable(t, p, "pre-test").rows| * (|KeptColumns(t)| - p.n)
  {
    ReshapeSize(t);
    MergeRowCount(t, p);
  }
}
