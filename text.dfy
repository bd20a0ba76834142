/**
 * Text helpers shared by the string code of the library: std::string::find on a character
 * and on a substring, find_last_of, and the decimal text that `%d` and `operator<<` write.
 */
module Text {

  // ---------------------------------------------------------------- decimal text of an int

  function DigitChar(d: nat): (c: char)
    requires d < 10
    ensures '0' <= c <= '9'
  {
    "0123456789"[d]
  }

  /** The decimal digits of n, most significant first, with no leading zero. */
  function NatText(n: nat): (s: string)
    ensures |s| > 0 && (forall i :: 0 <= i < |s| ==> '0' <= s[i] <= '9')
    ensures s[0] == '0' ==> n == 0
  {
    if n < 10 then [DigitChar(n)] else NatText(n / 10) + [DigitChar(n % 10)]
  }

  /** `%d` of an int: a minus sign, then the digits of the magnitude. */
  function IntText(n: int): (s: string)
  {
    if n < 0 then "-" + NatText(-n) else NatText(n)
  }

  /** The number a digit string spells. */
  function DigitsValue(s: string): nat
    requires forall i :: 0 <= i < |s| ==> '0' <= s[i] <= '9'
  {
    if s == [] then 0 else DigitsValue(s[..|s| - 1]) * 10 + ((s[|s| - 1] as int) - ('0' as int))
  }

  predicate IsDigits(d: string)
  {
    |d| > 0 && forall i :: 0 <= i < |d| ==> '0' <= d[i] <= '9'
  }

  /** A decimal int as `%d` writes one: an optional minus sign, then one or more digits. */
  predicate IsIntText(s: string)
  {
    IsDigits(s) || (|s| > 1 && s[0] == '-' && IsDigits(s[1..]))
  }

  /** The number a decimal int text spells. */
  function ParseInt(s: string): int
    requires IsIntText(s)
  {
    if IsDigits(s) then DigitsValue(s) else 0 - DigitsValue(s[1..])
  }

  /** Reading the digits back gives the number. */
  lemma {:induction false} NatTextValue(n: nat)
    ensures DigitsValue(NatText(n)) == n
  {
    if n >= 10 {
      NatTextValue(n / 10);
      var s := NatText(n);
      assert s[..|s| - 1] == NatText(n / 10);
    }
  }

  /** `%d` is read back by ParseInt: the text is a faithful rendering of the number. */
  lemma IntTextValue(n: int)
    ensures IsIntText(IntText(n)) && ParseInt(IntText(n)) == n
  {
    var d := NatText(if n < 0 then -n else n);
    NatTextValue(if n < 0 then -n else n);
    if n < 0 {
      assert IntText(n) == "-" + d;
      ParseNegative(d);
    } else {
      assert IntText(n) == d;
      ParseDigits(d);
    }
  }

  /** A digit string reads as its value. */
  lemma ParseDigits(d: string)
    requires IsDigits(d)
    ensures IsIntText(d) && ParseInt(d) == DigitsValue(d)
  {
  }

  /** A minus sign before a digit string reads as the negated value. */
  lemma ParseNegative(d: string)
    requires IsDigits(d)
    ensures IsIntText("-" + d) && ParseInt("-" + d) == 0 - DigitsValue(d)
  {
    var t := "-" + d;
    assert t[0] == '-' && t[1..] == d;
    assert !IsDigits(t);
  }

  /** Different numbers have different texts. */
  lemma IntTextInjective(a: int, b: int)
    requires IntText(a) == IntText(b)
    ensures a == b
  {
    IntTextValue(a);
    IntTextValue(b);
  }

  // ---------------------------------------------------------------- searching

  /** std::string::find(c, from): the first index at or after `from` holding c, or -1 (npos). */
  function FindFrom(s: string, c: char, from: nat): (r: int)
    requires from <= |s|
    ensures r == -1 || from <= r < |s|
    decreases |s| - from
  {
    if from == |s| then -1
    else if s[from] == c then from
    else FindFrom(s, c, from + 1)
  }

  /** FindFrom finds the first c at or after `from`, and -1 exactly when there is none. */
  lemma {:induction false} FindFromSpec(s: string, c: char, from: nat)
    requires from <= |s|
    ensures FindFrom(s, c, from) == -1 <==> forall i :: from <= i < |s| ==> s[i] != c
    ensures FindFrom(s, c, from) != -1 ==>
              s[FindFrom(s, c, from)] == c && forall i :: from <= i < FindFrom(s, c, from) ==> s[i] != c
    decreases |s| - from
  {
    if from < |s| && s[from] != c {
      FindFromSpec(s, c, from + 1);
    }
  }

  /** The first c at or after `from` is at k. */
  lemma {:induction false} FindFromAt(t: string, c: char, from: nat, k: nat)
    requires from <= k < |t| && t[k] == c
    requires forall i :: from <= i < k ==> t[i] != c
    ensures FindFrom(t, c, from) == k
    decreases k - from
  {
    if from < k {
      FindFromAt(t, c, from + 1, k);
    }
  }

  /** There is no c at or after `from`. */
  lemma {:induction false} FindFromNone(t: string, c: char, from: nat)
    requires from <= |t|
    requires forall i :: from <= i < |t| ==> t[i] != c
    ensures FindFrom(t, c, from) == -1
    decreases |t| - from
  {
    if from < |t| {
      FindFromNone(t, c, from + 1);
    }
  }

  /** pat occurs in s at index i. */
  predicate OccursAt(s: string, pat: string, i: nat)
  {
    i + |pat| <= |s| && s[i..i + |pat|] == pat
  }

  /** std::string::find(pat, from): the first index at or after `from` where pat occurs, or -1. */
  function FindSub(s: string, pat: string, from: nat): (r: int)
    requires from <= |s|
    ensures r == -1 || from <= r <= |s| - |pat|
    decreases |s| - from
  {
    if from + |pat| > |s| then -1
    else if OccursAt(s, pat, from) then from
    else FindSub(s, pat, from + 1)
  }

  /** FindSub finds the first occurrence at or after `from`, and -1 exactly when there is none. */
  lemma {:induction false} FindSubSpec(s: string, pat: string, from: nat)
    requires from <= |s|
    ensures var r := FindSub(s, pat, from);
            (r != -1 ==> OccursAt(s, pat, r))
            && (forall i :: from <= i && (r == -1 || i < r) ==> !OccursAt(s, pat, i))
    decreases |s| - from
  {
    if from + |pat| <= |s| && !OccursAt(s, pat, from) {
      FindSubSpec(s, pat, from + 1);
    }
  }

  /** The first occurrence of pat at or after `from` is at k. */
  lemma {:induction false} FindSubAt(s: string, pat: string, from: nat, k: nat)
    requires from <= k && OccursAt(s, pat, k)
    requires forall i :: from <= i < k ==> !OccursAt(s, pat, i)
    ensures FindSub(s, pat, from) == k
    decreases k - from
  {
    if from < k {
      FindSubAt(s, pat, from + 1, k);
    }
  }

  /** The last c at or before index i, or -1. */
  function LastAtOrBefore(s: string, c: char, i: nat): (r: int)
    requires i < |s|
    ensures -1 <= r <= i && (r >= 0 ==> s[r] == c)
    ensures forall j :: r < j <= i ==> s[j] != c
    ensures r == -1 <==> c !in s[..i + 1]
  {
    if s[i] == c then i else if i == 0 then -1 else LastAtOrBefore(s, c, i - 1)
  }

  /** std::string::find_last_of(c, pos): the last c at or before min(pos, |s| - 1), or -1. */
  function FindLastOf(s: string, c: char, pos: nat): (r: int)
    ensures -1 <= r < |s| && r <= pos && (r >= 0 ==> s[r] == c)
    ensures forall j :: r < j < |s| && j <= pos ==> s[j] != c
    ensures r == -1 <==> c !in s[..if pos < |s| then pos + 1 else |s|]
  {
    if |s| == 0 then -1 else LastAtOrBefore(s, c, if pos < |s| then pos else |s| - 1)
  }

  /**
   * std::string::substr(pos, len) where len is an int converted to size_type: a negative len
   * becomes a huge count, and any count reaching past the end takes the rest of the string.
   */
  function Substr(s: string, pos: nat, len: int): (r: string)
    requires pos <= |s|
    ensures |r| == if 0 <= len && pos + len <= |s| then len else |s| - pos
    ensures forall k :: 0 <= k < |r| ==> r[k] == s[pos + k]
  {
    if 0 <= len && pos + len <= |s| then s[pos..pos + len] else s[pos..]
  }
}
