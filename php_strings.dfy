/**
  The handful of PHP string primitives the table engine is built from:
  decimal conversion, array-key normalisation, numeric-string comparison,
  explode/implode, strpos, substr and str_replace.

  PHP strings are byte strings; here a `char` stands for one byte.
  Comparisons of numeric strings follow PHP 8.
 */
module PhpStrings {
  import opened Wrappers

  predicate IsDigit(c: char) { '0' <= c <= '9' }

  predicate AllDigits(s: string) { forall k :: 0 <= k < |s| ==> IsDigit(s[k]) }

  predicate NoDigit(s: string) { forall k :: 0 <= k < |s| ==> !IsDigit(s[k]) }

  function DigitChar(d: nat): (c: char)
    requires d < 10
    ensures IsDigit(c) && c as int - '0' as int == d
  {
    ('0' as int + d) as char
  }

  /** Decimal text of a natural number, as PHP writes an int into a string. */
  function NatToString(n: nat): (s: string)
    ensures |s| > 0 && AllDigits(s)
    ensures (s[0] == '0') == (n == 0)
    decreases n
  {
    if n < 10 then [DigitChar(n)] else NatToString(n / 10) + [DigitChar(n % 10)]
  }

  function IntToString(i: int): (s: string)
    ensures |s| > 0
  {
    if i < 0 then "-" + NatToString(-i) else NatToString(i)
  }

  /** Value of a string of decimal digits. */
  function DigitsValue(s: string): nat
    requires AllDigits(s)
  {
    if s == [] then 0 else DigitsValue(s[..|s| - 1]) * 10 + (s[|s| - 1] as int - '0' as int)
  }

  lemma {:induction false} DigitsValueOfNatToString(n: nat)
    ensures DigitsValue(NatToString(n)) == n
  {
    if n >= 10 {
      DigitsValueOfNatToString(n / 10);
      var s := NatToString(n);
      assert s[..|s| - 1] == NatToString(n / 10);
    }
  }

  /** Different numbers have different decimal texts. */
  lemma NatToStringInjective(a: nat, b: nat)
    ensures NatToString(a) == NatToString(b) ==> a == b
  {
    DigitsValueOfNatToString(a);
    DigitsValueOfNatToString(b);
  }

  lemma {:induction false} DigitsValuePositive(s: string)
    requires |s| > 0 && AllDigits(s) && s[0] != '0'
    ensures DigitsValue(s) >= 1
  {
    if |s| > 1 {
      DigitsValuePositive(s[..|s| - 1]);
    }
  }

  /** A digit string without a leading zero is the decimal text of its value. */
  lemma {:induction false} NatToStringOfDigits(s: string)
    requires |s| > 0 && AllDigits(s) && (s[0] != '0' || s == "0")
    ensures NatToString(DigitsValue(s)) == s
  {
    if |s| > 1 {
      var init := s[..|s| - 1];
      DigitsValuePositive(init);
      NatToStringOfDigits(init);
      var v := DigitsValue(s);
      assert v / 10 == DigitsValue(init) && v % 10 == s[|s| - 1] as int - '0' as int;
      assert DigitChar(v % 10) == s[|s| - 1];
      assert s == init + [s[|s| - 1]];
    }
  }

  /**
    PHP's array-key normalisation: a string that is the canonical decimal
    form of an integer ("0", "12", "-3"; not "012", "+1" or " 1") is used
    as that integer key; any other string stays a string key.
   */
  function CanonicalInt(s: string): Option<int>
  {
    if s == "0" then Some(0)
    else if |s| > 0 && '1' <= s[0] <= '9' && AllDigits(s) then Some(DigitsValue(s))
    else if |s| > 1 && s[0] == '-' && '1' <= s[1] <= '9' && AllDigits(s[1..]) then Some(0 - DigitsValue(s[1..]) as int)
    else None
  }

  lemma CanonicalOfPositive(n: nat)
    requires n > 0
    ensures CanonicalInt(NatToString(n)) == Some(n)
  {
    DigitsValueOfNatToString(n);
  }

  lemma CanonicalOfNegative(n: nat)
    requires n > 0
    ensures CanonicalInt("-" + NatToString(n)) == Some(-(n as int))
  {
    var d := NatToString(n);
    var s := "-" + d;
    DigitsValueOfNatToString(n);
    assert s[1..] == d;
  }

  lemma CanonicalOfDecimal(i: int)
    ensures CanonicalInt(IntToString(i)) == Some(i)
  {
    if i < 0 {
      CanonicalOfNegative(-i);
    } else if i > 0 {
      CanonicalOfPositive(i);
    }
  }

  lemma DecimalOfCanonical(s: string, i: int)
    requires CanonicalInt(s) == Some(i)
    ensures s == IntToString(i)
  {
    if s == "0" {
    } else if '1' <= s[0] <= '9' {
      NatToStringOfDigits(s);
    } else {
      NatToStringOfDigits(s[1..]);
      assert s == "-" + s[1..];
    }
  }

  /** A string normalises to the integer key i exactly when it is i's decimal text. */
  lemma CanonicalIntIsDecimalText(s: string, i: int)
    ensures CanonicalInt(s) == Some(i) <==> s == IntToString(i)
  {
    if s == IntToString(i) {
      CanonicalOfDecimal(i);
    }
    if CanonicalInt(s) == Some(i) {
      DecimalOfCanonical(s, i);
    }
  }

  predicate IsWhitespace(c: char)
  {
    c == ' ' || c == '\t' || c == '\n' || c == '\r' || c as int == 11 || c as int == 12
  }

  function TrimLeading(s: string): string
  {
    if |s| > 0 && IsWhitespace(s[0]) then TrimLeading(s[1..]) else s
  }

  function TrimTrailing(s: string): string
  {
    if |s| > 0 && IsWhitespace(s[|s| - 1]) then TrimTrailing(s[..|s| - 1]) else s
  }

  /**
    The integer a PHP 8 integer-form numeric string stands for: optional
    leading and trailing whitespace around an optional sign and at least
    one decimal digit.
   */
  function NumericInt(s: string): Option<int>
  {
    var t := TrimTrailing(TrimLeading(s));
    if |t| > 1 && (t[0] == '+' || t[0] == '-') && AllDigits(t[1..]) then
      Some(if t[0] == '-' then 0 - DigitsValue(t[1..]) as int else DigitsValue(t[1..]) as int)
    else if |t| > 0 && AllDigits(t) then Some(DigitsValue(t))
    else None
  }

  /** PHP 8 `s == n` for a string s and an int n. */
  predicate LooseEqualsInt(s: string, n: int)
  {
    NumericInt(s) == Some(n)
  }

  /** PHP 8 `a == b` for two strings: numerically when both are numeric. */
  predicate LooseEqualsString(a: string, b: string)
  {
    if NumericInt(a).Some? && NumericInt(b).Some? then NumericInt(a) == NumericInt(b) else a == b
  }

  lemma DecimalTextIsNumeric(n: nat)
    ensures LooseEqualsInt(NatToString(n), n)
  {
    var s := NatToString(n);
    DigitsValueOfNatToString(n);
    assert TrimLeading(s) == s;
    assert TrimTrailing(s) == s;
  }

  predicate OccursAt(needle: string, s: string, j: int)
  {
    0 <= j && j + |needle| <= |s| && s[j..j + |needle|] == needle
  }

  /** A needle is not found where one of its bytes differs. */
  lemma Mismatch(needle: string, s: string, j: int, m: int)
    requires 0 <= j && 0 <= m < |needle| && j + m < |s| && s[j + m] != needle[m]
    ensures !OccursAt(needle, s, j)
  {
    if j + |needle| <= |s| {
      assert s[j..j + |needle|][m] == s[j + m];
    }
  }

  /** No occurrence of `sep` starts inside `p` when `sep` is written after it. */
  predicate NoEarlyOccurrence(sep: string, p: string)
  {
    forall j :: 0 <= j < |p| ==> !OccursAt(sep, p + sep, j)
  }

  /**
    PHP `explode(sep, s)`: the pieces between the non-overlapping
    occurrences of `sep`, found from left to right.
   */
  function Explode(sep: string, s: string): (parts: seq<string>)
    requires |sep| > 0
    ensures |parts| > 0
    decreases |s|
  {
    if |s| < |sep| then [s]
    else if s[..|sep|] == sep then [""] + Explode(sep, s[|sep|..])
    else
      var r := Explode(sep, s[1..]);
      [[s[0]] + r[0]] + r[1..]
  }

  /** PHP `implode(sep, parts)`. */
  function Join(sep: string, parts: seq<string>): string
    decreases |parts|
  {
    if |parts| == 0 then "" else if |parts| == 1 then parts[0] else parts[0] + sep + Join(sep, parts[1..])
  }

  /**
    PHP `explode(sep, s, 2)`: the text before the first occurrence of `sep`
    and, when there is one, the text after it.
   */
  function SplitFirst(sep: string, s: string): (string, Option<string>)
    requires |sep| > 0
  {
    var parts := Explode(sep, s);
    (parts[0], if |parts| == 1 then None else Some(Join(sep, parts[1..])))
  }

  /** PHP `strpos(h, n) !== false` (PHP 8: the empty needle is found at 0). */
  predicate Contains(h: string, n: string)
  {
    exists j | 0 <= j <= |h| - |n| :: OccursAt(n, h, j)
  }

  /** PHP `substr(s, 0, len)`: a negative length leaves that many bytes off the end. */
  function Substr0(s: string, len: int): string
  {
    if len >= 0 then s[..if len < |s| then len else |s|]
    else s[..if |s| + len > 0 then |s| + len else 0]
  }

  /** PHP `str_replace(needle, rep, s)` for a non-empty needle. */
  function ReplaceAll(needle: string, rep: string, s: string): string
    requires |needle| > 0
  {
    Join(rep, Explode(needle, s))
  }

  lemma NoEarlyTail(sep: string, p: string)
    requires |p| > 0 && NoEarlyOccurrence(sep, p)
    ensures NoEarlyOccurrence(sep, p[1..])
  {
    forall j | 0 <= j < |p[1..]|
      ensures !OccursAt(sep, p[1..] + sep, j)
    {
      assert !OccursAt(sep, p + sep, j + 1);
      assert (p[1..] + sep)[j..j + |sep|] == (p + sep)[j + 1..j + 1 + |sep|];
    }
  }

  /** Explode stops at the first occurrence of the separator. */
  lemma {:induction false} ExplodeAtFirst(sep: string, p: string, rest: string)
    requires |sep| > 0 && NoEarlyOccurrence(sep, p)
    ensures Explode(sep, p + sep + rest) == [p] + Explode(sep, rest)
    decreases |p|
  {
    var s := p + sep + rest;
    if |p| == 0 {
      assert s[..|sep|] == sep;
      assert s[|sep|..] == rest;
      ExplodeAtStart(sep, s);
    } else {
      assert !OccursAt(sep, p + sep, 0);
      assert s[..|sep|] == (p + sep)[0..|sep|];
      ExplodeNotAtStart(sep, s);
      NoEarlyTail(sep, p);
      var tail := p[1..];
      ExplodeAtFirst(sep, tail, rest);
      assert s[1..] == tail + sep + rest;
      assert [s[0]] + tail == p;
    }
  }

  /** A string without the separator explodes to itself. */
  lemma {:induction false} ExplodeWithout(sep: string, p: string)
    requires |sep| > 0
    requires forall j :: 0 <= j < |p| ==> !OccursAt(sep, p, j)
    ensures Explode(sep, p) == [p]
    decreases |p|
  {
    if |p| >= |sep| {
      assert !OccursAt(sep, p, 0);
      forall j | 0 <= j < |p[1..]|
        ensures !OccursAt(sep, p[1..], j)
      {
        assert !OccursAt(sep, p, j + 1);
        if j + |sep| <= |p[1..]| {
          assert p[1..][j..j + |sep|] == p[j + 1..j + 1 + |sep|];
        }
      }
      ExplodeWithout(sep, p[1..]);
      assert [p[0]] + p[1..] == p;
    }
  }

  /** Exploding the join of separator-free pieces gives the pieces back. */
  lemma {:induction false} ExplodeJoin(sep: string, parts: seq<string>)
    requires |sep| > 0 && |parts| > 0
    requires forall k :: 0 <= k < |parts| ==> NoEarlyOccurrence(sep, parts[k])
    ensures Explode(sep, Join(sep, parts)) == parts
    decreases |parts|
  {
    var p := parts[0];
    if |parts| == 1 {
      forall j | 0 <= j < |p|
        ensures !OccursAt(sep, p, j)
      {
        assert !OccursAt(sep, p + sep, j);
        if j + |sep| <= |p| {
          assert (p + sep)[j..j + |sep|] == p[j..j + |sep|];
        }
      }
      ExplodeWithout(sep, p);
    } else {
      ExplodeAtFirst(sep, p, Join(sep, parts[1..]));
      ExplodeJoin(sep, parts[1..]);
      assert [p] + parts[1..] == parts;
    }
  }

  lemma JoinCons(sep: string, c: char, r: seq<string>)
    requires |r| > 0
    ensures Join(sep, [[c] + r[0]] + r[1..]) == [c] + Join(sep, r)
  {
    var q := [[c] + r[0]] + r[1..];
    if |r| > 1 {
      assert q[1..] == r[1..];
    }
  }

  lemma ExplodeAtStart(sep: string, s: string)
    requires |sep| > 0 && |s| >= |sep| && s[..|sep|] == sep
    ensures Explode(sep, s) == [""] + Explode(sep, s[|sep|..])
  {
  }

  lemma ExplodeNotAtStart(sep: string, s: string)
    requires |sep| > 0 && |s| >= |sep| && s[..|sep|] != sep
    ensures var r := Explode(sep, s[1..]); Explode(sep, s) == [[s[0]] + r[0]] + r[1..]
  {
  }

  /** Joining the pieces of an explode restores the string. */
  lemma {:induction false} JoinExplode(sep: string, s: string)
    requires |sep| > 0
    ensures Join(sep, Explode(sep, s)) == s
    decreases |s|
  {
    if |s| < |sep| {
    } else if s[..|sep|] == sep {
      var r := Explode(sep, s[|sep|..]);
      JoinExplode(sep, s[|sep|..]);
      ExplodeAtStart(sep, s);
      assert Join(sep, [""] + r) == "" + sep + Join(sep, r);
      assert s == s[..|sep|] + s[|sep|..];
    } else {
      var r := Explode(sep, s[1..]);
      JoinExplode(sep, s[1..]);
      ExplodeNotAtStart(sep, s);
      JoinCons(sep, s[0], r);
      assert s == [s[0]] + s[1..];
    }
  }

  /** explode with limit 2 splits at the first occurrence. */
  lemma SplitFirstAt(sep: string, p: string, rest: string)
    requires |sep| > 0 && NoEarlyOccurrence(sep, p)
    ensures SplitFirst(sep, p + sep + rest) == (p, Some(rest))
  {
    ExplodeAtFirst(sep, p, rest);
    var parts := Explode(sep, p + sep + rest);
    assert parts[1..] == Explode(sep, rest);
    JoinExplode(sep, rest);
  }

  /** When explode with limit 2 finds the separator, the string is the two halves around it. */
  lemma SplitFirstJoins(sep: string, s: string)
    requires |sep| > 0 && SplitFirst(sep, s).1.Some?
    ensures s == SplitFirst(sep, s).0 + sep + SplitFirst(sep, s).1.value
  {
    var parts := Explode(sep, s);
    JoinExplode(sep, s);
    assert Join(sep, parts) == parts[0] + sep + Join(sep, parts[1..]);
  }

  /** str_replace with a needle that does not occur leaves the subject alone. */
  lemma ReplaceAbsent(needle: string, rep: string, s: string)
    requires |needle| > 0
    requires forall j :: 0 <= j < |s| ==> !OccursAt(needle, s, j)
    ensures ReplaceAll(needle, rep, s) == s
  {
    ExplodeWithout(needle, s);
  }

  /** Replacing a needle by itself changes nothing. */
  lemma ReplaceBySelf(needle: string, s: string)
    requires |needle| > 0
    ensures ReplaceAll(needle, needle, s) == s
  {
    JoinExplode(needle, s);
  }
}
