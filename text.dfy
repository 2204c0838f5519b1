/** The Python string operations the pipeline relies on: split on a separator,
    str.replace, str.lower, str.rstrip with a character set, and int() parsing. */
module Text {
  import opened Values

  /** Python's s.split(c)[0] for a one-character separator: the text before the
      first c, or all of s when there is none. */
  function BeforeFirst(s: string, c: char): (r: string)
    ensures |r| <= |s| && r == s[..|r|]
    ensures c !in r
    ensures |r| < |s| ==> s[|r|] == c
    decreases |s|
  {
    if s == [] || s[0] == c then [] else [s[0]] + BeforeFirst(s[1..], c)
  }

  /** Truncating twice is truncating once, and a text without c is unchanged. */
  lemma BeforeFirstIdempotent(s: string, c: char)
    ensures BeforeFirst(BeforeFirst(s, c), c) == BeforeFirst(s, c)
    ensures c !in s ==> BeforeFirst(s, c) == s
  {
  }

  /** pat occurs in s starting at position k. */
  predicate Occurs(s: string, pat: string, k: nat)
  {
    k + |pat| <= |s| && s[k..k + |pat|] == pat
  }

  /** pat occurs nowhere in s. */
  predicate Lacks(s: string, pat: string)
  {
    forall m: nat :: m <= |s| ==> !Occurs(s, pat, m)
  }

  /** The first position at or after k where pat occurs (Python's str.find). */
  function FindFrom(s: string, pat: string, k: nat): (r: Option<nat>)
    requires k <= |s|
    ensures r.Some? ==> k <= r.value && Occurs(s, pat, r.value)
    ensures r.Some? ==> forall m: nat :: k <= m < r.value ==> !Occurs(s, pat, m)
    ensures r.None? ==> forall m: nat :: k <= m ==> !Occurs(s, pat, m)
    decreases |s| - k
  {
    if Occurs(s, pat, k) then Some(k)
    else if k == |s| then None
    else FindFrom(s, pat, k + 1)
  }

  /** Python's s.split(sep) for a non-empty separator. */
  function SplitOn(s: string, sep: string): (r: seq<string>)
    requires |sep| > 0
    ensures |r| >= 1
    decreases |s|
  {
    match FindFrom(s, sep, 0)
    case None => [s]
    case Some(k) => [s[..k]] + SplitOn(s[k + |sep|..], sep)
  }

  /** The first occurrence of sep in a + sep is the one that was appended. */
  predicate JoinsCleanly(a: string, sep: string)
  {
    forall m: nat :: m < |a| ==> !Occurs(a + sep, sep, m)
  }

  /** Splitting a + sep + b on sep gives back a and b, provided sep first occurs
      where it was put and does not occur in b. */
  lemma SplitJoined(a: string, b: string, sep: string)
    requires |sep| > 0 && JoinsCleanly(a, sep) && Lacks(b, sep)
    ensures SplitOn(a + sep + b, sep) == [a, b]
  {
    var s := a + sep + b;
    assert s[|a|..|a| + |sep|] == sep;
    assert Occurs(s, sep, |a|);
    forall m: nat | m < |a|
      ensures !Occurs(s, sep, m)
    {
      assert s[m..m + |sep|] == (a + sep)[m..m + |sep|];
      assert !Occurs(a + sep, sep, m);
    }
    var f := FindFrom(s, sep, 0);
    assert f == Some(|a|);
    assert s[..|a|] == a;
    assert s[|a| + |sep|..] == b;
    assert SplitOn(b, sep) == [b] by {
      var g := FindFrom(b, sep, 0);
      assert g.None?;
    }
  }

  /** Python's s.replace(pat, rep): every occurrence of pat, scanning left to
      right without overlap, is replaced by rep. */
  function ReplaceAll(s: string, pat: string, rep: string): string
    requires |pat| > 0
    decreases |s|
  {
    if |s| < |pat| then s
    else if s[..|pat|] == pat then rep + ReplaceAll(s[|pat|..], pat, rep)
    else [s[0]] + ReplaceAll(s[1..], pat, rep)
  }

  /** A text in which pat does not occur is left unchanged by replace. */
  lemma {:induction false} ReplaceAbsent(s: string, pat: string, rep: string)
    requires |pat| > 0 && Lacks(s, pat)
    ensures ReplaceAll(s, pat, rep) == s
    decreases |s|
  {
    if |s| >= |pat| {
      assert !Occurs(s, pat, 0);
      forall m: nat | m <= |s[1..]| ensures !Occurs(s[1..], pat, m) {
        if m + |pat| <= |s[1..]| {
          assert s[1..][m..m + |pat|] == s[m + 1..m + 1 + |pat|];
        }
        assert !Occurs(s, pat, m + 1);
      }
      ReplaceAbsent(s[1..], pat, rep);
    }
  }

  /** ASCII lower-casing of one character. */
  function LowerChar(c: char): (r: char)
    ensures 'A' <= c <= 'Z' ==> 'a' <= r <= 'z' && (r as int) - (c as int) == 32
    ensures !('A' <= c <= 'Z') ==> r == c
  {
    if 'A' <= c <= 'Z' then (c as int + 32) as char else c
  }

  /** Python's str.lower, restricted to ASCII letters. */
  function Lower(s: string): (r: string)
    ensures |r| == |s| && forall k :: 0 <= k < |s| ==> r[k] == LowerChar(s[k])
    ensures forall k :: 0 <= k < |r| ==> !('A' <= r[k] <= 'Z')
  {
    seq(|s|, k requires 0 <= k < |s| => LowerChar(s[k]))
  }

  /** Python's s.rstrip(chars): trailing characters that belong to the set are
      removed; chars is a set of characters, not a suffix. */
  function RStrip(s: string, chars: set<char>): (r: string)
    ensures |r| <= |s| && r == s[..|r|]
    ensures |r| == 0 || r[|r| - 1] !in chars
    ensures forall k :: |r| <= k < |s| ==> s[k] in chars
    decreases |s|
  {
    if |s| > 0 && s[|s| - 1] in chars then RStrip(s[..|s| - 1], chars) else s
  }

  function DigitValue(c: char): nat
    requires '0' <= c <= '9'
  {
    (c as int) - ('0' as int)
  }

  predicate AllDigits(s: string)
  {
    forall k :: 0 <= k < |s| ==> '0' <= s[k] <= '9'
  }

  /** The value of a non-empty string of decimal digits; None for anything else. */
  function ParseNat(s: string): (r: Option<nat>)
    ensures r.Some? <==> |s| > 0 && AllDigits(s)
    decreases |s|
  {
    if |s| == 0 || !('0' <= s[|s| - 1] <= '9') then None
    else if |s| == 1 then Some(DigitValue(s[0]))
    else match ParseNat(s[..|s| - 1])
      case None => None
      case Some(n) => Some(10 * n + DigitValue(s[|s| - 1]))
  }

  /** Python's int() on a string: an optional sign and decimal digits. */
  function ParseInt(s: string): Option<int>
  {
    if |s| > 0 && (s[0] == '-' || s[0] == '+') then
      match ParseNat(s[1..])
      case None => None
      case Some(n) => if s[0] == '-' then Some(-(n as int)) else Some(n)
    else
      match ParseNat(s)
      case None => None
      case Some(n) => Some(n)
  }

  /** Parsing the decimal text of a natural number gives the number back. */
  lemma {:induction false} ParseNatText(n: nat)
    ensures ParseNat(NatText(n)) == Some(n)
    decreases n
  {
    if n >= 10 {
      ParseNatText(n / 10);
      var t := NatText(n);
      assert t[..|t| - 1] == NatText(n / 10);
    }
  }

  /** int(str(i)) == i. */
  lemma ParseIntText(i: int)
    ensures ParseInt(IntText(i)) == Some(i)
  {
    var t := IntText(i);
    if i < 0 {
      ParseNatText(-i);
      assert t == "-" + NatText(-i);
      assert t[0] == '-' && t[1..] == NatText(-i);
    } else {
      ParseNatText(i);
      assert t == NatText(i);
      assert '0' <= t[0] <= '9';
    }
  }
}
