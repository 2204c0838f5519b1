/** Series.mode() on an object column, as the missing-value fill of the cleaning uses it:
    the most frequent value other than NaN, ties broken by pandas' sort order. */
module Modes {
  import opened Values
  import opened Seqs

  /** Python's < on two texts: lexicographic by code point, a proper prefix first. */
  predicate TextLess(a: string, b: string)
    decreases |a|
  {
    |b| > 0 && (|a| == 0 || a[0] < b[0] || (a[0] == b[0] && TextLess(a[1..], b[1..])))
  }

  lemma {:induction false} TextLessTrans(a: string, b: string, c: string)
    requires TextLess(a, b) && TextLess(b, c)
    ensures TextLess(a, c)
    decreases |a|
  {
    if |a| > 0 && a[0] == b[0] && b[0] == c[0] {
      TextLessTrans(a[1..], b[1..], c[1..]);
    }
  }

  lemma {:induction false} TextLessTotal(a: string, b: string)
    ensures a == b || TextLess(a, b) || TextLess(b, a)
    decreases |a|
  {
    if |a| > 0 && |b| > 0 && a[0] == b[0] {
      TextLessTotal(a[1..], b[1..]);
      assert a == [a[0]] + a[1..] && b == [b[0]] + b[1..];
    }
  }

  lemma {:induction false} TextLessIrreflexive(a: string)
    ensures !TextLess(a, a)
    decreases |a|
  {
    if |a| > 0 {
      TextLessIrreflexive(a[1..]);
    }
  }

  /** The order in which pandas sorts the modes of a column that mixes kinds: numbers
      by value (an int before an equal float), then texts. */
  predicate Before(v: Value, w: Value)
    requires !v.NaN? && !w.NaN?
  {
    if v.Str? then w.Str? && TextLess(v.s, w.s)
    else if w.Str? then true
    else AsReal(v) < AsReal(w) || (AsReal(v) == AsReal(w) && v.Int? && w.Float?)
  }

  lemma BeforeTrans(u: Value, v: Value, w: Value)
    requires !u.NaN? && !v.NaN? && !w.NaN?
    requires Before(u, v) && Before(v, w)
    ensures Before(u, w)
  {
    if u.Str? {
      TextLessTrans(u.s, v.s, w.s);
    }
  }

  lemma BeforeIrreflexive(v: Value)
    requires !v.NaN?
    ensures !Before(v, v)
  {
    if v.Str? {
      TextLessIrreflexive(v.s);
    }
  }

  lemma BeforeTotal(v: Value, w: Value)
    requires !v.NaN? && !w.NaN?
    ensures v == w || Before(v, w) || Before(w, v)
  {
    if v.Str? && w.Str? {
      TextLessTotal(v.s, w.s);
    }
  }

  /** v beats w as a mode: it occurs more often, or as often and sorts first. */
  predicate Beats(cells: seq<Value>, v: Value, w: Value)
    requires !v.NaN? && !w.NaN?
  {
    Count(cells, v) > Count(cells, w) || (Count(cells, v) == Count(cells, w) && Before(v, w))
  }

  /** The candidate that no other candidate beats. */
  function Best(cands: seq<Value>, cells: seq<Value>): (b: Value)
    requires |cands| > 0 && forall k :: 0 <= k < |cands| ==> !cands[k].NaN?
    ensures b in cands
    ensures forall k :: 0 <= k < |cands| ==> !Beats(cells, cands[k], b)
    decreases |cands|
  {
    var last := cands[|cands| - 1];
    BeforeIrreflexive(last);
    if |cands| == 1 then last
    else
      var init := cands[..|cands| - 1];
      var b := Best(init, cells);
      assert forall k :: 0 <= k < |init| ==> cands[k] == init[k];
      if Beats(cells, last, b) then
        assert forall k :: 0 <= k < |cands| ==> !Beats(cells, cands[k], last) by {
          forall k | 0 <= k < |cands|
            ensures !Beats(cells, cands[k], last)
          {
            if k < |init| && Count(cells, cands[k]) == Count(cells, last) && Before(cands[k], last) {
              BeforeTrans(cands[k], last, b);
            }
          }
        }
        last
      else b
  }

  predicate NotMissing(v: Value)
  {
    !v.NaN?
  }

  /** The cells other than NaN, in order. */
  function Present(cells: seq<Value>): (r: seq<Value>)
    ensures forall k :: 0 <= k < |r| ==> !r[k].NaN?
    ensures forall v :: v in cells && !v.NaN? ==> v in r
  {
    var r := Filter(cells, NotMissing);
    forall v | v in cells && !v.NaN?
      ensures v in r
    {
      FilterCount(cells, NotMissing, v);
    }
    r
  }

  /** Series.mode()[0]: the most frequent value other than NaN, the first in sort order
      among equally frequent ones; None when every cell is NaN (mode() is then empty). */
  function Mode(cells: seq<Value>): (m: Option<Value>)
    ensures m.None? <==> forall k :: 0 <= k < |cells| ==> cells[k].NaN?
    ensures m.Some? ==> !m.value.NaN? && m.value in cells
    ensures m.Some? ==> forall v :: v in cells && !v.NaN? ==> Count(cells, v) <= Count(cells, m.value)
    ensures m.Some? ==> forall v :: v in cells && !v.NaN? && Count(cells, v) == Count(cells, m.value) ==>
      v == m.value || Before(m.value, v)
  {
    if forall k :: 0 <= k < |cells| ==> cells[k].NaN? then None
    else
      var cands := Present(cells);
      var k :| 0 <= k < |cells| && !cells[k].NaN?;
      assert cells[k] in cands;
      var b := Best(cands, cells);
      forall v | v in cells && !v.NaN? && Count(cells, v) == Count(cells, b)
        ensures v == b || Before(b, v)
      {
        BeforeTotal(v, b);
      }
      Some(b)
  }

  /** fillna(m): every NaN becomes m, every other cell stays. */
  function FillMissing(cells: seq<Value>, m: Value): (r: seq<Value>)
    ensures |r| == |cells|
    ensures forall k :: 0 <= k < |cells| ==> r[k] == if cells[k].NaN? then m else cells[k]
  {
    seq(|cells|, k requires 0 <= k < |cells| => if cells[k].NaN? then m else cells[k])
  }

  /** After filling with the mode, no cell is missing, and the cells that were present
      are the same. */
  lemma FillWithMode(cells: seq<Value>)
    requires Mode(cells).Some?
    ensures forall k :: 0 <= k < |cells| ==> !FillMissing(cells, Mode(cells).value)[k].NaN?
    ensures forall k :: 0 <= k < |cells| && !cells[k].NaN? ==> FillMissing(cells, Mode(cells).value)[k] == cells[k]
  {
  }
}
