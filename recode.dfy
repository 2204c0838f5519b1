/** The per-cell recoding rules of the raw-data cleaning: the race/ethnicity rewrite
    chain and its four-way grouping, the Likert label scores, the zip-code prefix and
    the years-at-camp parse. */
module Recode {
  import opened Values
  import Text

  // ---------------------------------------------------------------- race/ethnicity

  const Caucasian: string := "caucasian"
  const Black: string := "black"
  const MultiRacial: string := "multi-racial"
  const OtherRace: string := "other"

  /** The substitutions applied to a lower-cased race label, in the order they are applied. */
  const Rewrites: seq<(string, string)> := [
    (", ", "/"), (" / ", "/"), (" /", "/"),
    ("black/african", "black"),
    ("hispanic/latinx", "hispanic"), ("hispanic latinx", "hispanic"),
    ("korean", "asian"),
    ("asian/caucasian", "caucasian/asian")]

  /** Applies the rewrites rs in order, each one to the whole text (chained str.replace calls). */
  function RewriteAll(s: string, rs: seq<(string, string)>): string
    requires forall k :: 0 <= k < |rs| ==> |rs[k].0| > 0
    decreases |rs|
  {
    if rs == [] then s
    else
      var last := rs[|rs| - 1];
      Text.ReplaceAll(RewriteAll(s, rs[..|rs| - 1]), last.0, last.1)
  }

  predicate NoUpper(s: string)
  {
    forall k :: 0 <= k < |s| ==> !('A' <= s[k] <= 'Z')
  }

  /** Replacing with a lower-case text keeps a lower-case text lower-case. */
  lemma {:induction false} ReplaceKeepsLower(s: string, pat: string, rep: string)
    requires |pat| > 0 && NoUpper(s) && NoUpper(rep)
    ensures NoUpper(Text.ReplaceAll(s, pat, rep))
    decreases |s|
  {
    if |s| >= |pat| {
      if s[..|pat|] == pat {
        ReplaceKeepsLower(s[|pat|..], pat, rep);
      } else {
        ReplaceKeepsLower(s[1..], pat, rep);
      }
    }
  }

  /** .str.lower() followed by the rewrite chain. A cell that is not text becomes NaN,
      as .str.lower() turns it into NaN and .str.replace leaves NaN alone. */
  function RaceText(v: Value): (r: Value)
    ensures r.Str? <==> v.Str?
    ensures r.Str? ==> NoUpper(r.s)
    ensures !r.Str? ==> r == NaN
  {
    match v
    case Str(s) =>
      var t := RewriteAll(Text.Lower(s), Rewrites);
      RewriteLower(Text.Lower(s), Rewrites);
      Str(t)
    case _ => NaN
  }

  /** Every step of the chain keeps the text lower-case. */
  lemma {:induction false} RewriteLower(s: string, rs: seq<(string, string)>)
    requires forall k :: 0 <= k < |rs| ==> |rs[k].0| > 0 && NoUpper(rs[k].1)
    requires NoUpper(s)
    ensures NoUpper(RewriteAll(s, rs))
    decreases |rs|
  {
    if rs != [] {
      RewriteLower(s, rs[..|rs| - 1]);
      ReplaceKeepsLower(RewriteAll(s, rs[..|rs| - 1]), rs[|rs| - 1].0, rs[|rs| - 1].1);
    }
  }

  /** race_grouping on a recoded cell: exact matches for caucasian and black, any other
      text with a slash is multi-racial, and everything else (NaN included, whose text
      "nan" has no slash) is other. */
  function RaceGroup(v: Value): (g: string)
    ensures g == Caucasian <==> v == Str(Caucasian)
    ensures g == Black <==> v == Str(Black)
    ensures g == MultiRacial <==> v.Str? && v != Str(Caucasian) && v != Str(Black) && '/' in v.s
    ensures g == Caucasian || g == Black || g == MultiRacial || g == OtherRace
  {
    match v
    case Str(s) =>
      if s == Caucasian then Caucasian
      else if s == Black then Black
      else if '/' in s then MultiRacial
      else OtherRace
    case _ => OtherRace
  }

  /** The substitutions run in order: "korean" becomes "asian" before the asian/caucasian
      pair is swapped, so "Korean, Caucasian" ends up as "caucasian/asian". */
  lemma RaceChainOrder()
    ensures RaceText(Str("Korean, Caucasian")) == Str("caucasian/asian")
    ensures RaceGroup(RaceText(Str("Korean, Caucasian"))) == MultiRacial
  {
    LowerExample();
    var s0, s1, s2, s3 := "korean, caucasian", "korean/caucasian", "asian/caucasian", "caucasian/asian";
    CommaStep(s0, s1);
    UntouchedSteps(s1);
    KoreanStep(s1, s2);
    SwapStep(s2, s3);
    RewriteChainSteps(s0, s1, s2, s3);
  }

  lemma LowerExample()
    ensures Text.Lower("Korean, Caucasian") == "korean, caucasian"
  {
  }

  lemma CommaStep(s0: string, s1: string)
    requires s0 == "korean, caucasian" && s1 == "korean/caucasian"
    ensures Text.ReplaceAll(s0, ", ", "/") == s1
  {
    assert s0 == "korean" + ", " + "caucasian";
    assert s1 == "korean" + "/" + "caucasian";
    ReplaceSingle("korean", ", ", "/", "caucasian");
  }

  lemma UntouchedSteps(s1: string)
    requires s1 == "korean/caucasian"
    ensures Text.ReplaceAll(s1, " / ", "/") == s1
    ensures Text.ReplaceAll(s1, " /", "/") == s1
    ensures Text.ReplaceAll(s1, "black/african", "black") == s1
    ensures Text.ReplaceAll(s1, "hispanic/latinx", "hispanic") == s1
    ensures Text.ReplaceAll(s1, "hispanic latinx", "hispanic") == s1
  {
    AbsentStart(s1, " / ", "/");
    AbsentStart(s1, " /", "/");
    AbsentStart(s1, "black/african", "black");
    AbsentStart(s1, "hispanic/latinx", "hispanic");
    AbsentStart(s1, "hispanic latinx", "hispanic");
  }

  /** The five substitutions that do not apply: none of their first characters is in s1. */
  lemma AbsentStart(s1: string, pat: string, rep: string)
    requires s1 == "korean/caucasian"
    requires |pat| > 0 && (pat[0] == ' ' || pat[0] == 'b' || pat[0] == 'h')
    ensures Text.ReplaceAll(s1, pat, rep) == s1
  {
    NoFirstChar(s1, pat, rep);
  }

  lemma KoreanStep(s1: string, s2: string)
    requires s1 == "korean/caucasian" && s2 == "asian/caucasian"
    ensures Text.ReplaceAll(s1, "korean", "asian") == s2
  {
    assert s1 == [] + "korean" + "/caucasian";
    assert s2 == [] + "asian" + "/caucasian";
    ReplaceSingle([], "korean", "asian", "/caucasian");
  }

  lemma SwapStep(s2: string, s3: string)
    requires s2 == "asian/caucasian" && s3 == "caucasian/asian"
    ensures Text.ReplaceAll(s2, s2, s3) == s3
  {
    assert s2 == [] + s2 + [];
    ReplaceSingle([], s2, s3, []);
  }

  /** A single occurrence, with the first character of pat appearing nowhere else,
      is the one place replace changes. */
  lemma ReplaceSingle(a: string, pat: string, rep: string, b: string)
    requires |pat| > 0 && pat[0] !in a && pat[0] !in b
    ensures Text.ReplaceAll(a + pat + b, pat, rep) == a + rep + b
  {
    assert a + pat + b == a + (pat + b);
    SkipChars(a, pat + b, pat, rep);
    assert (pat + b)[..|pat|] == pat && (pat + b)[|pat|..] == b;
    NoFirstChar(b, pat, rep);
  }

  /** The chain on "korean, caucasian", one substitution at a time. */
  lemma RewriteChainSteps(s0: string, s1: string, s2: string, s3: string)
    requires Text.ReplaceAll(s0, ", ", "/") == s1
    requires Text.ReplaceAll(s1, " / ", "/") == s1 && Text.ReplaceAll(s1, " /", "/") == s1
    requires Text.ReplaceAll(s1, "black/african", "black") == s1
    requires Text.ReplaceAll(s1, "hispanic/latinx", "hispanic") == s1
    requires Text.ReplaceAll(s1, "hispanic latinx", "hispanic") == s1
    requires Text.ReplaceAll(s1, "korean", "asian") == s2
    requires Text.ReplaceAll(s2, "asian/caucasian", "caucasian/asian") == s3
    ensures RewriteAll(s0, Rewrites) == s3
  {
    var rs := Rewrites;
    assert rs[..8] == rs;
    assert rs[..8][..7] == rs[..7];
    assert rs[..7][..6] == rs[..6];
    assert rs[..6][..5] == rs[..5];
    assert rs[..5][..4] == rs[..4];
    assert rs[..4][..3] == rs[..3];
    assert rs[..3][..2] == rs[..2];
    assert rs[..2][..1] == rs[..1];
    assert rs[..1][..0] == [];
    assert RewriteAll(s0, rs[..1]) == s1;
    assert RewriteAll(s0, rs[..2]) == s1;
    assert RewriteAll(s0, rs[..3]) == s1;
    assert RewriteAll(s0, rs[..4]) == s1;
    assert RewriteAll(s0, rs[..5]) == s1;
    assert RewriteAll(s0, rs[..6]) == s1;
    assert RewriteAll(s0, rs[..7]) == s2;
  }

  /** A prefix none of whose characters can start an occurrence is copied unchanged. */
  lemma {:induction false} SkipChars(a: string, b: string, pat: string, rep: string)
    requires |pat| > 0 && pat[0] !in a
    ensures Text.ReplaceAll(a + b, pat, rep) == a + Text.ReplaceAll(b, pat, rep)
    decreases |a|
  {
    if a == [] {
      assert a + b == b;
    } else if |a + b| >= |pat| {
      var s := a + b;
      assert s[0] == a[0];
      SkipOne(s, pat, rep);
      assert s[1..] == a[1..] + b;
      assert pat[0] !in a[1..];
      SkipChars(a[1..], b, pat, rep);
      assert [a[0]] + a[1..] == a;
    }
  }

  /** A first character that cannot start an occurrence is copied unchanged. */
  lemma SkipOne(s: string, pat: string, rep: string)
    requires |pat| > 0 && |s| >= |pat| && s[0] != pat[0]
    ensures Text.ReplaceAll(s, pat, rep) == [s[0]] + Text.ReplaceAll(s[1..], pat, rep)
  {
    assert s[..|pat|][0] == s[0];
  }

  /** A text in which the first character of pat never appears is left unchanged. */
  lemma NoFirstChar(s: string, pat: string, rep: string)
    requires |pat| > 0 && pat[0] !in s
    ensures Text.ReplaceAll(s, pat, rep) == s
  {
    SkipChars(s, [], pat, rep);
    assert s + [] == s;
  }

  // ---------------------------------------------------------------- Likert scores

  /** score_dict: the six answer texts and their scores. */
  function Likert(answer: string): (r: Option<int>)
    ensures r.Some? ==> 1 <= r.value <= 6
  {
    if answer == "strongly disagree" then Some(6)
    else if answer == "disagree" then Some(5)
    else if answer == "somewhat disagree" then Some(4)
    else if answer == "somewhat agree" then Some(3)
    else if answer == "agree" then Some(2)
    else if answer == "strongly agree" then Some(1)
    else None
  }

  /** The answer that carries a score, read off the table the other way. */
  function LikertLabel(k: int): (answer: string)
    requires 1 <= k <= 6
  {
    match k
    case 6 => "strongly disagree"
    case 5 => "disagree"
    case 4 => "somewhat disagree"
    case 3 => "somewhat agree"
    case 2 => "agree"
    case 1 => "strongly agree"
  }

  /** The table is a bijection between the six labels and 1..6: every score has its
      answer, and an answer's score leads back to that answer. */
  lemma LikertBijection(answer: string, k: int)
    ensures 1 <= k <= 6 ==> Likert(LikertLabel(k)) == Some(k)
    ensures Likert(answer).Some? ==> LikertLabel(Likert(answer).value) == answer
  {
  }

  /** Two labels with the same score are the same answer. */
  lemma LikertInjective(a: string, b: string)
    requires Likert(a).Some? && Likert(a) == Likert(b)
    ensures a == b
  {
    LikertBijection(a, 0);
    LikertBijection(b, 0);
  }

  /** One answer cell of the last three questions: .str.lower() (NaN for a cell that is
      not text), then the score of an answer in the table; any other text stays as lowered. */
  function Score(v: Value): (r: Value)
    ensures v.Str? && Likert(Text.Lower(v.s)).Some? ==> r == Int(Likert(Text.Lower(v.s)).value)
    ensures v.Str? && Likert(Text.Lower(v.s)).None? ==> r == Str(Text.Lower(v.s))
    ensures !v.Str? ==> r == NaN
  {
    match v
    case Str(s) =>
      var l := Text.Lower(s);
      if Likert(l).Some? then Int(Likert(l).value) else Str(l)
    case _ => NaN
  }

  // ---------------------------------------------------------------- zip code and years

  /** str(zip).split('.')[0]: the text of the cell up to its first '.'. */
  function ZipPrefix(v: Value, floatText: real -> string): (r: string)
    ensures '.' !in r
    ensures |r| <= |Show(v, floatText)| && r == Show(v, floatText)[..|r|]
    ensures '.' !in Show(v, floatText) ==> r == Show(v, floatText)
  {
    Text.BeforeFirstIdempotent(Show(v, floatText), '.');
    Text.BeforeFirst(Show(v, floatText), '.')
  }

  /** The zip-code cell after cleaning: the prefix, as text. */
  function ZipCell(v: Value, floatText: real -> string): Value
  {
    Str(ZipPrefix(v, floatText))
  }

  /** Cleaning a cleaned zip code changes nothing. */
  lemma ZipCellIdempotent(v: Value, floatText: real -> string)
    ensures ZipCell(ZipCell(v, floatText), floatText) == ZipCell(v, floatText)
  {
  }

  /** A zip code read as the float 68102.0 comes out as "68102". */
  lemma ZipFloatExample(floatText: real -> string)
    requires floatText(68102.0) == "68102.0"
    ensures ZipCell(Float(68102.0), floatText) == Str("68102")
  {
    var t := floatText(68102.0);
    assert t[5] == '.';
    assert Text.BeforeFirst(t, '.') == "68102" by {
      assert t[..5] == "68102";
      assert forall k :: 0 <= k < 5 ==> t[k] != '.';
      BeforeFirstAt(t, '.', 5);
    }
  }

  /** The text before the first c is the prefix up to the first position holding c. */
  lemma {:induction false} BeforeFirstAt(s: string, c: char, k: nat)
    requires k < |s| && s[k] == c && forall j :: 0 <= j < k ==> s[j] != c
    ensures Text.BeforeFirst(s, c) == s[..k]
  {
    if k > 0 {
      BeforeFirstAt(s[1..], c, k - 1);
      assert [s[0]] + s[1..][..k - 1] == s[..k];
    }
  }

  /** The characters that .str.rstrip('nd|th|st|rd') removes: a set, not a list of suffixes. */
  const YearChars: set<char> := {'n', 'd', '|', 't', 'h', 's', 'r'}

  /** str(cell).rstrip(...) then int(): None where int() raises ValueError. */
  function Years(v: Value, floatText: real -> string): Option<int>
  {
    Text.ParseInt(Text.RStrip(Show(v, floatText), YearChars))
  }

  /** Stripping a tail made only of set characters from a text that does not end in one
      gives back the text. */
  lemma {:induction false} RStripTail(t: string, tail: string, chars: set<char>)
    requires |t| > 0 && t[|t| - 1] !in chars
    requires forall k :: 0 <= k < |tail| ==> tail[k] in chars
    ensures Text.RStrip(t + tail, chars) == t
    decreases |tail|
  {
    if tail != [] {
      var init := tail[..|tail| - 1];
      assert (t + tail)[..|t + tail| - 1] == t + init;
      RStripTail(t, init, chars);
    } else {
      assert t + tail == t;
    }
  }

  /** An ordinal such as "2nd", "3rd", "4th" or "11th" parses to its number. */
  lemma YearsOrdinal(n: nat, suffix: string, floatText: real -> string)
    requires suffix in {"st", "nd", "rd", "th"}
    ensures Years(Str(NatText(n) + suffix), floatText) == Some(n)
  {
    var t := NatText(n);
    assert t[|t| - 1] !in YearChars;
    RStripTail(t, suffix, YearChars);
    Text.ParseIntText(n);
  }

  /** The character set also eats letters that belong to the word: "nan", the text of a
      missing cell, loses its final 'n' and does not parse. */
  lemma YearsMissing(floatText: real -> string)
    ensures Years(NaN, floatText).None?
  {
    assert Text.RStrip("nan", YearChars) == "na" by {
      assert "nan"[..2] == "na";
    }
  }
}
