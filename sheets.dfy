/** A column-major model of a pandas DataFrame, for the cleaning steps that work on
    columns by label and by position: selection by label, iloc column slices, drop,
    pop/insert, and row selection by a boolean mask. */
module Sheets {
  import opened Values
  import opened Seqs

  /** One labelled column of a DataFrame, top to bottom. */
  datatype Column = Column(name: string, cells: seq<Value>)

  /** Every column has n rows. */
  predicate Height(sh: seq<Column>, n: nat)
  {
    forall i :: 0 <= i < |sh| ==> |sh[i].cells| == n
  }

  /** The column labels, left to right (df.columns). */
  function Names(sh: seq<Column>): (r: seq<string>)
    ensures |r| == |sh| && forall i :: 0 <= i < |sh| ==> r[i] == sh[i].name
  {
    seq(|sh|, i requires 0 <= i < |sh| => sh[i].name)
  }

  lemma NamesConcat(a: seq<Column>, b: seq<Column>)
    ensures Names(a + b) == Names(a) + Names(b)
  {
  }

  /** The position of the column labelled name: df[name] raises KeyError when there is none. */
  function Find(sh: seq<Column>, name: string): (r: Option<nat>)
    ensures r.Some? ==> r.value < |sh| && sh[r.value].name == name
    ensures r.None? <==> name !in Names(sh)
  {
    if name in Names(sh) then Some(FirstIndex(Names(sh), name)) else None
  }

  /** Python's resolution of a slice bound against a length n: a negative bound counts
      from the end, and the result is clamped to 0..n. */
  function Clamp(i: int, n: nat): (r: nat)
    ensures r <= n
    ensures 0 <= i <= n ==> r == i
    ensures i < 0 && n + i >= 0 ==> r == n + i
  {
    if i < 0 then (if n + i < 0 then 0 else n + i) else if i > n then n else i
  }

  /** s[lo:hi] with Python's slice rules (df.iloc[:, lo:hi] on the columns). */
  function Slice<T>(s: seq<T>, lo: int, hi: int): (r: seq<T>)
    ensures |r| <= |s|
    ensures Clamp(lo, |s|) <= Clamp(hi, |s|) ==> r == s[Clamp(lo, |s|)..Clamp(hi, |s|)]
    ensures Clamp(lo, |s|) > Clamp(hi, |s|) ==> r == []
  {
    var a := Clamp(lo, |s|);
    var b := Clamp(hi, |s|);
    if a <= b then s[a..b] else []
  }

  /** df.drop(columns=[name]) once name is known to be present: every column carrying
      the label goes, the others keep their order. */
  function Without(sh: seq<Column>, name: string): (r: seq<Column>)
    ensures name !in Names(r)
    ensures |r| <= |sh|
    decreases |sh|
  {
    if sh == [] then []
    else
      var rest := Without(sh[..|sh| - 1], name);
      var last := sh[|sh| - 1];
      if last.name == name then rest else rest + [last]
  }

  /** Dropping a label that no column carries changes nothing. */
  lemma {:induction false} WithoutAbsent(sh: seq<Column>, name: string)
    requires forall c :: c in sh ==> c.name != name
    ensures Without(sh, name) == sh
    decreases |sh|
  {
    if sh != [] {
      var init := sh[..|sh| - 1];
      WithoutAbsent(init, name);
      assert init + [sh[|sh| - 1]] == sh;
    }
  }

  /** Dropping over a concatenation drops from both parts. */
  lemma {:induction false} WithoutConcat(a: seq<Column>, b: seq<Column>, name: string)
    ensures Without(a + b, name) == Without(a, name) + Without(b, name)
    decreases |b|
  {
    if b == [] {
      assert a + b == a;
    } else {
      var b' := b[..|b| - 1];
      assert (a + b)[..|a + b| - 1] == a + b';
      assert (a + b)[|a + b| - 1] == b[|b| - 1];
      WithoutConcat(a, b', name);
    }
  }

  /** With distinct labels, dropping the label at position k removes exactly that column. */
  lemma WithoutAt(sh: seq<Column>, k: nat)
    requires k < |sh| && Distinct(Names(sh))
    ensures Without(sh, sh[k].name) == sh[..k] + sh[k + 1..]
  {
    var name := sh[k].name;
    var a, b := sh[..k], sh[k + 1..];
    Split3(sh, k);
    OtherNames(sh, k);
    WithoutConcat(a + [sh[k]], b, name);
    WithoutConcat(a, [sh[k]], name);
    assert Without([sh[k]], name) == [] by {
      assert [sh[k]][..0] == [];
    }
    WithoutAbsent(a, name);
    WithoutAbsent(b, name);
  }

  /** The test of Filter that keeps every label but name. */
  function NotNamed(name: string): string -> bool
  {
    x => x != name
  }

  /** The labels left by a drop are the old labels with name filtered out. */
  lemma {:induction false} NamesWithout(sh: seq<Column>, name: string)
    ensures Names(Without(sh, name)) == Filter(Names(sh), NotNamed(name))
    decreases |sh|
  {
    if sh != [] {
      var init := sh[..|sh| - 1];
      var last := sh[|sh| - 1];
      NamesWithout(init, name);
      assert Names(sh)[..|sh| - 1] == Names(init);
      NamesConcat(Without(init, name), [last]);
    }
  }

  /** Filtering out a label shortens the labels by its number of occurrences. */
  lemma {:induction false} NotNamedLength(s: seq<string>, name: string)
    ensures |Filter(s, NotNamed(name))| + Count(s, name) == |s|
    decreases |s|
  {
    if s != [] {
      NotNamedLength(s[..|s| - 1], name);
    }
  }

  /** A drop keeps exactly the columns with another label. */
  lemma {:induction false} WithoutMembers(sh: seq<Column>, name: string, c: Column)
    ensures c in Without(sh, name) <==> c in sh && c.name != name
    decreases |sh|
  {
    if sh != [] {
      var init := sh[..|sh| - 1];
      WithoutMembers(init, name, c);
      assert sh == init + [sh[|sh| - 1]];
    }
  }

  lemma Split3<T>(s: seq<T>, k: nat)
    requires k < |s|
    ensures s == s[..k] + [s[k]] + s[k + 1..]
  {
  }

  /** With distinct labels, no other column carries the label of column k. */
  lemma OtherNames(sh: seq<Column>, k: nat)
    requires k < |sh| && Distinct(Names(sh))
    ensures forall c :: c in sh[..k] ==> c.name != sh[k].name
    ensures forall c :: c in sh[k + 1..] ==> c.name != sh[k].name
  {
    forall c | c in sh[..k] || c in sh[k + 1..]
      ensures c.name != sh[k].name
    {
      var i :| 0 <= i < |sh| && i != k && sh[i] == c;
      assert Names(sh)[i] == c.name;
    }
  }

  /** The positions of the cells equal to v, in ascending order (the boolean mask
      df[col] == v). A NaN cell never equals anything under pandas' ==, so v is never NaN. */
  function Where(cells: seq<Value>, v: Value): (pos: seq<nat>)
    requires !v.NaN?
    ensures |pos| == Count(cells, v)
    ensures forall i :: 0 <= i < |pos| ==> pos[i] < |cells| && cells[pos[i]] == v
    ensures forall i, j :: 0 <= i < j < |pos| ==> pos[i] < pos[j]
    ensures forall k :: 0 <= k < |cells| && cells[k] == v ==> k in pos
    decreases |cells|
  {
    if cells == [] then []
    else
      var init := cells[..|cells| - 1];
      var rest := Where(init, v);
      if cells[|cells| - 1] == v then rest + [|cells| - 1] else rest
  }

  /** The cells at the given positions, in the order given (a row selection). */
  function Pick(cells: seq<Value>, pos: seq<nat>): (r: seq<Value>)
    requires forall i :: 0 <= i < |pos| ==> pos[i] < |cells|
    ensures |r| == |pos| && forall i :: 0 <= i < |pos| ==> r[i] == cells[pos[i]]
  {
    seq(|pos|, i requires 0 <= i < |pos| => cells[pos[i]])
  }
}
