/** Python string behaviour the pipeline relies on: `re.findall(r'\d+')`
    followed by `int`, decimal rendering of integers (numpy's `str` of an
    int), `int(str)` as used by `astype(int)`, `str` ordering, substring
    tests, `str.strip()` and slicing. Digits are ASCII digits. */
module Text {

  import opened Results

  predicate IsDigit(c: char) {
    '0' <= c <= '9'
  }

  predicate AllDigits(s: string) {
    forall i :: 0 <= i < |s| ==> IsDigit(s[i])
  }

  predicate NoDigits(s: string) {
    forall i :: 0 <= i < |s| ==> !IsDigit(s[i])
  }

  function DigitValue(c: char): nat
    requires IsDigit(c)
  {
    c as int - '0' as int
  }

  function DigitChar(d: nat): (c: char)
    requires d < 10
    ensures IsDigit(c) && DigitValue(c) == d
  {
    ('0' as int + d) as char
  }

  function Pow10(k: nat): (p: nat)
    ensures p >= 1
  {
    if k == 0 then 1 else 10 * Pow10(k - 1)
  }

  /** The value of a run of decimal digits, as Python's `int` reads it
      (leading zeros allowed). */
  function ParseDigits(s: string): nat
    requires AllDigits(s)
  {
    if |s| == 0 then 0 else ParseDigits(s[..|s| - 1]) * 10 + DigitValue(s[|s| - 1])
  }

  /** Decimal rendering of a natural number, without leading zeros. */
  function Show(n: nat): (r: string)
    ensures |r| > 0 && AllDigits(r)
    ensures |r| > 1 ==> r[0] != '0'
  {
    if n < 10 then [DigitChar(n)] else Show(n / 10) + [DigitChar(n % 10)]
  }

  /** `str(i)` for any Python int. */
  function IntText(i: int): string {
    if i >= 0 then Show(i) else "-" + Show(-i)
  }

  lemma {:induction false} ParseShow(n: nat)
    ensures ParseDigits(Show(n)) == n
  {
    if n >= 10 {
      var s := Show(n / 10);
      var t := s + [DigitChar(n % 10)];
      assert t[..|t| - 1] == s;
      ParseShow(n / 10);
    }
  }

  /** `int(s)` on the strings `astype(int)` meets: an optional minus sign
      followed by at least one digit; anything else is a ValueError. */
  function ParseInt(s: string): (r: Option<int>)
    ensures r.Some? <==> (AllDigits(s) && |s| > 0) || (|s| > 1 && s[0] == '-' && AllDigits(s[1..]))
  {
    if |s| > 0 && AllDigits(s) then Some(ParseDigits(s))
    else if |s| > 1 && s[0] == '-' && AllDigits(s[1..]) then Some(0 - ParseDigits(s[1..]) as int)
    else None
  }

  lemma ParseIntText(i: int)
    ensures ParseInt(IntText(i)) == Some(i)
  {
    if i >= 0 {
      ParseShow(i);
    } else {
      var t := "-" + Show(-i);
      assert t[1..] == Show(-i);
      assert t[0] == '-';
      assert !IsDigit(t[0]);
      ParseShow(-i);
    }
  }

  // ---------------------------------------------------------------------------
  // re.findall(r'\d+', text) mapped through int

  /** Length of the maximal run of digits at the start of `s`. */
  function DigitPrefix(s: string): (k: nat)
    ensures k <= |s|
    ensures AllDigits(s[..k])
    ensures k < |s| ==> !IsDigit(s[k])
    ensures |s| > 0 && IsDigit(s[0]) ==> k >= 1
  {
    if |s| == 0 || !IsDigit(s[0]) then 0
    else
      var k' := DigitPrefix(s[1..]);
      assert s[..1 + k'] == [s[0]] + s[1..][..k'];
      1 + k'
  }

  /** The integers of the maximal digit runs of `s`, in order of appearance. */
  function DigitRuns(s: string): (r: seq<nat>)
    ensures |r| <= |s|
    decreases |s|
  {
    if |s| == 0 then []
    else if !IsDigit(s[0]) then DigitRuns(s[1..])
    else
      var k := DigitPrefix(s);
      [ParseDigits(s[..k])] + DigitRuns(s[k..])
  }

  lemma {:induction false} DigitRunsSkip(junk: string, t: string)
    requires NoDigits(junk)
    ensures DigitRuns(junk + t) == DigitRuns(t)
    decreases |junk|
  {
    if |junk| > 0 {
      assert (junk + t)[1..] == junk[1..] + t;
      DigitRunsSkip(junk[1..], t);
    } else {
      assert junk + t == t;
    }
  }

  lemma {:induction false} DigitPrefixOfRun(x: string, rest: string)
    requires AllDigits(x)
    requires |rest| == 0 || !IsDigit(rest[0])
    ensures DigitPrefix(x + rest) == |x|
    decreases |x|
  {
    if |x| > 0 {
      assert (x + rest)[1..] == x[1..] + rest;
      DigitPrefixOfRun(x[1..], rest);
    } else {
      assert x + rest == rest;
    }
  }

  /** A number written out and followed by a non-digit (or the end) is
      read back as one run with that value. */
  lemma DigitRunsShow(n: nat, rest: string)
    requires |rest| == 0 || !IsDigit(rest[0])
    ensures DigitRuns(Show(n) + rest) == [n] + DigitRuns(rest)
  {
    var x := Show(n);
    var s := x + rest;
    DigitPrefixOfRun(x, rest);
    assert s[..|x|] == x;
    assert s[|x|..] == rest;
    ParseShow(n);
  }

  /** `seps[0] + Show(ns[0]) + seps[1] + ... + Show(ns[k-1]) + seps[k]`. */
  function Render(seps: seq<string>, ns: seq<nat>): string
    requires |seps| == |ns| + 1
  {
    if |ns| == 0 then seps[0] else seps[0] + Show(ns[0]) + Render(seps[1..], ns[1..])
  }

  /** Digit runs invert `Render` when the separators carry no digits and
      the inner ones are non-empty: this is how seeds are read off a
      game's text. */
  lemma {:induction false} DigitRunsRender(seps: seq<string>, ns: seq<nat>)
    requires |seps| == |ns| + 1
    requires forall i :: 0 <= i < |seps| ==> NoDigits(seps[i])
    requires forall i :: 1 <= i < |ns| ==> |seps[i]| > 0
    ensures DigitRuns(Render(seps, ns)) == ns
    decreases |ns|
  {
    if |ns| == 0 {
      DigitRunsSkip(seps[0], "");
      assert seps[0] + "" == seps[0];
    } else {
      var tail := Render(seps[1..], ns[1..]);
      assert |tail| == 0 || !IsDigit(tail[0]) by {
        if |ns| > 1 {
          assert tail == seps[1] + Show(ns[1]) + Render(seps[2..], ns[2..]);
          assert |seps[1]| > 0;
          assert tail[0] == seps[1][0];
        } else {
          assert tail == seps[1];
          assert NoDigits(seps[1]);
        }
      }
      assert seps[0] + Show(ns[0]) + tail == seps[0] + (Show(ns[0]) + tail);
      DigitRunsSkip(seps[0], Show(ns[0]) + tail);
      DigitRunsShow(ns[0], tail);
      DigitRunsRender(seps[1..], ns[1..]);
    }
  }

  // ---------------------------------------------------------------------------
  // str ordering

  /** Python's `a < b` on strings: lexicographic by code point. */
  predicate LexLess(a: string, b: string)
    decreases |a|
  {
    |b| > 0 && (|a| == 0 || a[0] < b[0] || (a[0] == b[0] && LexLess(a[1..], b[1..])))
  }

  lemma Regroup(d: int, p: int, q: int, e: int)
    ensures (d * p + q) * 10 + e == d * (p * 10) + (q * 10 + e)
  {
  }

  lemma {:induction false} ParseFront(s: string)
    requires AllDigits(s) && |s| > 0
    ensures ParseDigits(s) == DigitValue(s[0]) * Pow10(|s| - 1) + ParseDigits(s[1..])
    decreases |s|
  {
    if |s| > 1 {
      var u := s[..|s| - 1];
      assert u[1..] == s[1..][..|s[1..]| - 1];
      assert u[0] == s[0];
      ParseFront(u);
      assert s[1..][|s[1..]| - 1] == s[|s| - 1];
      var d, p, q, e := DigitValue(s[0]), Pow10(|u| - 1), ParseDigits(u[1..]), DigitValue(s[|s| - 1]);
      assert ParseDigits(s) == ParseDigits(u) * 10 + e;
      assert ParseDigits(s[1..]) == q * 10 + e;
      assert Pow10(|s| - 1) == p * 10;
      Regroup(d, p, q, e);
    } else {
      assert s[..0] == [];
      assert s[1..] == [];
    }
  }

  lemma {:induction false} ParseBound(s: string)
    requires AllDigits(s)
    ensures ParseDigits(s) < Pow10(|s|)
    decreases |s|
  {
    if |s| > 0 {
      ParseBound(s[..|s| - 1]);
    }
  }

  /** On digit strings of equal length, string order is numeric order. */
  lemma {:induction false} LexLessEqualLength(x: string, y: string)
    requires AllDigits(x) && AllDigits(y) && |x| == |y|
    ensures LexLess(x, y) <==> ParseDigits(x) < ParseDigits(y)
    decreases |x|
  {
    if |x| > 0 {
      ParseFront(x);
      ParseFront(y);
      ParseBound(x[1..]);
      ParseBound(y[1..]);
      var p := Pow10(|x| - 1);
      var a, b := DigitValue(x[0]), DigitValue(y[0]);
      if x[0] < y[0] {
        LeadingDigitDecides(a, b, p, ParseDigits(x[1..]), ParseDigits(y[1..]));
      } else if x[0] > y[0] {
        LeadingDigitDecides(b, a, p, ParseDigits(y[1..]), ParseDigits(x[1..]));
      } else {
        LexLessEqualLength(x[1..], y[1..]);
      }
    }
  }

  lemma LeadingDigitDecides(a: nat, b: nat, p: nat, rx: nat, ry: nat)
    requires a < b && rx < p && ry < p
    ensures a * p + rx < b * p + ry
  {
    assert (a + 1) * p <= b * p by { MulMono(a + 1, b, p); }
  }

  lemma MulMono(a: nat, b: nat, p: nat)
    requires a <= b
    ensures a * p <= b * p
  {}

  /** Distinct lengths break the correspondence: the shorter number can be
      the larger string. */
  lemma LexLessMisordersScores()
    ensures !LexLess("99", "100") && 99 < 100
    ensures LexLess("100", "99")
  {}

  // ---------------------------------------------------------------------------
  // substrings, stripping, slicing

  /** Python's `sub in s`. */
  predicate Contains(s: string, sub: string)
    decreases |s|
  {
    sub <= s || (|s| > 0 && Contains(s[1..], sub))
  }

  /** A text that lacks the first character of `sub` cannot contain it. */
  lemma {:induction false} AbsentLeadNotContained(s: string, sub: string)
    requires |sub| > 0 && sub[0] !in s
    ensures !Contains(s, sub)
    decreases |s|
  {
    if |s| > 0 {
      assert s[0] != sub[0];
      assert forall c :: c in s[1..] ==> c in s;
      AbsentLeadNotContained(s[1..], sub);
    }
  }

  /** The characters Python's `str.strip()` removes. */
  predicate IsSpace(c: char) {
    var n := c as int;
    (9 <= n <= 13) || (28 <= n <= 32) || n == 0x85 || n == 0xA0 || n == 0x1680
    || (0x2000 <= n <= 0x200A) || n == 0x2028 || n == 0x2029 || n == 0x202F
    || n == 0x205F || n == 0x3000
  }

  predicate AllSpace(s: string) {
    forall i :: 0 <= i < |s| ==> IsSpace(s[i])
  }

  function LeadingSpaces(s: string): (k: nat)
    ensures k <= |s| && AllSpace(s[..k])
    ensures k < |s| ==> !IsSpace(s[k])
  {
    if |s| == 0 || !IsSpace(s[0]) then 0
    else
      var k' := LeadingSpaces(s[1..]);
      assert s[..1 + k'] == [s[0]] + s[1..][..k'];
      1 + k'
  }

  function TrailingSpaces(s: string): (k: nat)
    ensures k <= |s| && AllSpace(s[|s| - k..])
    ensures k < |s| ==> !IsSpace(s[|s| - 1 - k])
  {
    if |s| == 0 || !IsSpace(s[|s| - 1]) then 0
    else
      var u := s[..|s| - 1];
      var k' := TrailingSpaces(u);
      assert s[|s| - (1 + k')..] == u[|u| - k'..] + [s[|s| - 1]];
      1 + k'
  }

  /** `s.strip()`: the slice of `s` that is left once the leading and
      trailing whitespace is removed. */
  function Strip(s: string): (r: string)
    ensures exists i, j :: 0 <= i <= j <= |s| && r == s[i..j] && AllSpace(s[..i]) && AllSpace(s[j..])
    ensures |r| > 0 ==> !IsSpace(r[0]) && !IsSpace(r[|r| - 1])
  {
    var a := LeadingSpaces(s);
    var t := s[a..];
    var b := TrailingSpaces(t);
    assert t[..|t| - b] == s[a..|s| - b];
    assert s[|s| - b..] == t[|t| - b..];
    var r := s[a..|s| - b];
    assert |r| > 0 ==> r[0] == s[a] && r[|r| - 1] == t[|t| - 1 - b];
    r
  }

  /** `s[:-n]` for `n >= 1`. */
  function DropLast(s: string, n: nat): (r: string)
    requires n >= 1
    ensures |s| >= n ==> r == s[..|s| - n]
    ensures |s| < n ==> r == ""
  {
    if |s| >= n then s[..|s| - n] else ""
  }

  /** `name[:-(len(name) // 2)].strip()`: the cleaning applied to the
      doubled round and team names of historical games. */
  function Halve(name: string): (r: string) {
    var h := |name| / 2;
    if h == 0 then "" else Strip(name[..|name| - h])
  }

  lemma HalveDoubled(w: string)
    ensures Halve(w + w) == Strip(w)
  {
    if |w| > 0 {
      assert (w + w)[..|w + w| - |w|] == w;
    } else {
      assert w + w == "";
      assert Strip("") == "";
    }
  }

  lemma HalveShort(name: string)
    requires |name| <= 1
    ensures Halve(name) == ""
  {}
}
