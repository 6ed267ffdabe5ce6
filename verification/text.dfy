/**
 The parts of Python's `str` the system relies on: comparison of titles
 (code-point lexicographic order, as `sorted()` and pandas use), `strip()`,
 `rstrip(c)`, ASCII `lower()`, the substring test `q in t`, `rfind` and
 the decimal rendering of a count.
 */
module Text {
  import opened Sorting

  /** Python's `a < b` on strings: lexicographic by code point, a proper prefix first. */
  predicate Less(a: string, b: string)
  {
    if |a| == 0 then |b| > 0
    else if |b| == 0 then false
    else if a[0] != b[0] then a[0] < b[0]
    else Less(a[1..], b[1..])
  }

  lemma {:induction false} LessIrreflexive(a: string)
    ensures !Less(a, a)
  {
    if |a| > 0 {
      LessIrreflexive(a[1..]);
    }
  }

  lemma {:induction false} LessTransitive(a: string, b: string, c: string)
    requires Less(a, b) && Less(b, c)
    ensures Less(a, c)
  {
    if |a| > 0 && a[0] == b[0] && b[0] == c[0] {
      LessTransitive(a[1..], b[1..], c[1..]);
    }
  }

  lemma {:induction false} LessTotal(a: string, b: string)
    requires a != b
    ensures Less(a, b) || Less(b, a)
  {
    if |a| > 0 && |b| > 0 && a[0] == b[0] {
      assert a == [a[0]] + a[1..];
      assert b == [b[0]] + b[1..];
      LessTotal(a[1..], b[1..]);
    }
  }

  /** String comparison is a strict total order, so titles can be sorted by it. */
  lemma LessIsStrictTotalOrder()
    ensures StrictTotalOrder(Less)
  {
    forall a: string {
      LessIrreflexive(a);
    }
    forall a: string, b: string, c: string | Less(a, b) && Less(b, c) {
      LessTransitive(a, b, c);
    }
    forall a: string, b: string | a != b {
      LessTotal(a, b);
    }
  }

  /**
   The whitespace `str.strip()` removes, restricted to ASCII: tab, line feed,
   vertical tab, form feed, carriage return, the four information
   separators and space.
   */
  predicate IsSpace(c: char) {
    c == ' ' || ('\t' <= c <= '\r') || ('\U{1C}' <= c <= '\U{1F}')
  }

  /** `s.lstrip()`: the longest suffix of `s` that does not start with whitespace. */
  function LStrip(s: string): (r: string)
    ensures |r| <= |s| && r == s[|s| - |r|..]
    ensures forall k :: 0 <= k < |s| - |r| ==> IsSpace(s[k])
    ensures |r| > 0 ==> !IsSpace(r[0])
  {
    if |s| > 0 && IsSpace(s[0]) then LStrip(s[1..]) else s
  }

  /** `s.rstrip(c)` for a single character `c`: drop every trailing `c`. */
  function RStripChar(s: string, c: char): (r: string)
    ensures |r| <= |s| && r == s[..|r|]
    ensures forall k :: |r| <= k < |s| ==> s[k] == c
    ensures |r| > 0 ==> r[|r| - 1] != c
  {
    if |s| > 0 && s[|s| - 1] == c then RStripChar(s[..|s| - 1], c) else s
  }

  /** `s[k..].rstrip(c)` is the slice of `s` from `k` up to the trailing run of `c`. */
  lemma RStripCharOfSuffix(s: string, k: nat, c: char)
    requires k <= |s|
    ensures var r := RStripChar(s[k..], c);
            && k + |r| <= |s| && r == s[k..k + |r|]
            && forall n :: k + |r| <= n < |s| ==> s[n] == c
  {
    var r := RStripChar(s[k..], c);
    forall n | k + |r| <= n < |s| ensures s[n] == c {
      assert s[n] == s[k..][n - k];
    }
  }

  /** A trailing `c` is stripped along with the rest. */
  lemma RStripCharAppend(s: string, c: char)
    ensures RStripChar(s + [c], c) == RStripChar(s, c)
  {
    assert (s + [c])[..|s|] == s;
  }

  /** `s.rstrip()`: drop every trailing whitespace character. */
  function RStrip(s: string): (r: string)
    ensures |r| <= |s| && r == s[..|r|]
    ensures forall k :: |r| <= k < |s| ==> IsSpace(s[k])
    ensures |r| > 0 ==> !IsSpace(r[|r| - 1])
  {
    if |s| > 0 && IsSpace(s[|s| - 1]) then RStrip(s[..|s| - 1]) else s
  }

  /**
   `s.strip()`: the slice `s[i..j]` left after removing whitespace from both
   ends; what remains neither starts nor ends with whitespace.
   */
  function Strip(s: string): (r: string)
    ensures exists i, j ::
              && 0 <= i <= j <= |s| && r == s[i..j]
              && (forall k :: 0 <= k < i ==> IsSpace(s[k]))
              && (forall k :: j <= k < |s| ==> IsSpace(s[k]))
    ensures |r| > 0 ==> !IsSpace(r[0]) && !IsSpace(r[|r| - 1])
  {
    var l := LStrip(s);
    var r := RStrip(l);
    var i := |s| - |l|;
    assert r == s[i..i + |r|];
    r
  }

  /** Stripping the first `k` characters of `s` leaves a slice `s[i..j]` of that prefix with only whitespace around it. */
  lemma StripOfPrefix(s: string, k: nat)
    requires k <= |s|
    ensures exists i, j ::
              && 0 <= i <= j <= k && Strip(s[..k]) == s[i..j]
              && (forall n :: 0 <= n < i ==> IsSpace(s[n]))
              && (forall n :: j <= n < k ==> IsSpace(s[n]))
  {
    var p := s[..k];
    var l := LStrip(p);
    var i := k - |l|;
    var r := RStrip(l);
    var j := i + |r|;
    assert Strip(p) == r;
    assert l == p[i..];
    assert r == l[..|r|];
    assert r == s[i..j];
    forall n | 0 <= n < i ensures IsSpace(s[n]) {
      assert s[n] == p[n];
    }
    forall n | j <= n < k ensures IsSpace(s[n]) {
      assert s[n] == p[n] == l[n - i];
    }
  }

  /** A string that neither starts nor ends with whitespace is its own strip. */
  lemma StripOfTrimmed(s: string)
    requires |s| > 0 ==> !IsSpace(s[0]) && !IsSpace(s[|s| - 1])
    ensures Strip(s) == s
  {
  }

  /** Whitespace in front of a string is stripped along with the rest of the leading run. */
  lemma {:induction false} LStripAppend(s: string, t: string)
    ensures LStrip(s + t) == if LStrip(s) == "" then LStrip(t) else LStrip(s) + t
  {
    if |s| == 0 {
      assert s + t == t;
    } else {
      assert (s + t)[1..] == s[1..] + t;
      if IsSpace(s[0]) {
        LStripAppend(s[1..], t);
      }
    }
  }

  /** Trailing whitespace appended to a string is stripped along with the rest. */
  lemma RStripSpaceAfter(s: string, c: char)
    requires IsSpace(c)
    ensures RStrip(s + [c]) == RStrip(s)
  {
    assert (s + [c])[..|s|] == s;
  }

  /** Any run of trailing whitespace appended to a string is stripped along with the rest. */
  lemma {:induction false} RStripSpacesAfter(s: string, t: string)
    requires forall k :: 0 <= k < |t| ==> IsSpace(t[k])
    ensures RStrip(s + t) == RStrip(s)
  {
    if |t| == 0 {
      assert s + t == s;
    } else {
      var u := t[..|t| - 1];
      assert s + t == (s + u) + [t[|t| - 1]];
      RStripSpaceAfter(s + u, t[|t| - 1]);
      RStripSpacesAfter(s, u);
    }
  }

  /** Surrounding a string with whitespace on either side does not change its strip. */
  lemma StripSurroundingSpace(pre: string, s: string, post: string)
    requires forall k :: 0 <= k < |pre| ==> IsSpace(pre[k])
    requires forall k :: 0 <= k < |post| ==> IsSpace(post[k])
    ensures Strip(pre + s + post) == Strip(s)
  {
    assert pre + s + post == pre + (s + post);
    assert LStrip(pre) == "";
    assert LStrip(post) == "";
    LStripAppend(pre, s + post);
    LStripAppend(s, post);
    if LStrip(s) != "" {
      RStripSpacesAfter(LStrip(s), post);
    }
  }

  /** A trimmed string followed by one whitespace character strips back to itself. */
  lemma StripTrailingSpace(s: string, d: char)
    requires IsSpace(d)
    requires |s| > 0 ==> !IsSpace(s[0]) && !IsSpace(s[|s| - 1])
    ensures Strip(s + [d]) == s
  {
    LStripAppend(s, [d]);
    if |s| > 0 {
      RStripSpaceAfter(s, d);
    }
  }

  /** Python's `c.lower()` on ASCII letters; every other character is kept. */
  function LowerChar(c: char): (d: char)
    ensures !('A' <= d <= 'Z')
    ensures IsSpace(d) <==> IsSpace(c)
  {
    if 'A' <= c <= 'Z' then (c as int + 32) as char else c
  }

  /** `s.lower()`, character by character. */
  function Lower(s: string): (r: string)
    ensures |r| == |s|
    ensures forall k :: 0 <= k < |s| ==> r[k] == LowerChar(s[k])
  {
    seq(|s|, k requires 0 <= k < |s| => LowerChar(s[k]))
  }

  /** Lower-casing twice is lower-casing once. */
  lemma LowerIdempotent(s: string)
    ensures Lower(Lower(s)) == Lower(s)
  {
  }

  /** `LStrip` stops at the first character that is not whitespace. */
  lemma {:induction false} LStripAt(s: string, i: nat)
    requires i <= |s|
    requires forall k :: 0 <= k < i ==> IsSpace(s[k])
    requires i < |s| ==> !IsSpace(s[i])
    ensures LStrip(s) == s[i..]
  {
    if i > 0 {
      assert s[1..][i - 1..] == s[i..];
      LStripAt(s[1..], i - 1);
    }
  }

  /** Lower-casing neither creates nor removes whitespace. */
  lemma LStripLower(s: string)
    ensures LStrip(Lower(s)) == Lower(LStrip(s))
  {
    var i := |s| - |LStrip(s)|;
    LStripAt(Lower(s), i);
    assert Lower(s)[i..] == Lower(s[i..]);
  }

  lemma {:induction false} RStripLower(s: string)
    ensures RStrip(Lower(s)) == Lower(RStrip(s))
  {
    if |s| > 0 {
      assert Lower(s)[..|s| - 1] == Lower(s[..|s| - 1]);
      if IsSpace(s[|s| - 1]) {
        RStripLower(s[..|s| - 1]);
      }
    }
  }

  /** `s.lower().strip()` and `s.strip().lower()` agree. */
  lemma StripLower(s: string)
    ensures Strip(Lower(s)) == Lower(Strip(s))
  {
    LStripLower(s);
    RStripLower(LStrip(s));
  }

  /** `q` occurs in `t` starting at position `i`. */
  predicate OccursAt(q: string, t: string, i: int) {
    0 <= i && i + |q| <= |t| && t[i..i + |q|] == q
  }

  /** Python's `q in t` for strings, scanning `t` from the left. */
  function Contains(t: string, q: string): bool
  {
    if |q| <= |t| && t[..|q|] == q then true
    else if |t| == 0 then false
    else Contains(t[1..], q)
  }

  /** The scan agrees with the definition of a substring occurrence. */
  lemma {:induction false} ContainsIsSubstring(t: string, q: string)
    ensures Contains(t, q) <==> exists i :: OccursAt(q, t, i)
  {
    if |q| <= |t| && t[..|q|] == q {
      assert OccursAt(q, t, 0);
    } else if |t| == 0 {
      assert forall i :: !OccursAt(q, t, i);
    } else {
      ContainsIsSubstring(t[1..], q);
      if exists i :: OccursAt(q, t[1..], i) {
        var i :| OccursAt(q, t[1..], i);
        assert t[i + 1..i + 1 + |q|] == t[1..][i..i + |q|];
        assert OccursAt(q, t, i + 1);
      }
      if exists i :: OccursAt(q, t, i) {
        var i :| OccursAt(q, t, i);
        assert i != 0;
        assert t[1..][i - 1..i - 1 + |q|] == t[i..i + |q|];
        assert OccursAt(q, t[1..], i - 1);
      }
    }
  }

  /** The empty string occurs in every string. */
  lemma ContainsEmpty(t: string)
    ensures Contains(t, "")
  {
  }

  /** Index of the last occurrence of `c` in `s` (`s.rfind(c)`), or -1 when there is none. */
  function RFind(s: string, c: char): (k: int)
    ensures -1 <= k < |s|
    ensures k == -1 <==> c !in s
    ensures k >= 0 ==> s[k] == c && c !in s[k + 1..]
  {
    if |s| == 0 then -1
    else if s[|s| - 1] == c then |s| - 1
    else
      var p := s[..|s| - 1];
      var k := RFind(p, c);
      assert s == p + [s[|s| - 1]];
      if k < 0 then k
      else
        assert s[k + 1..] == p[k + 1..] + [s[|s| - 1]];
        k
  }

  function DigitChar(d: nat): char
    requires d < 10
  {
    ('0' as int + d) as char
  }

  predicate IsDigit(c: char) { '0' <= c <= '9' }

  /** `str(n)` for a non-negative integer: its decimal digits, most significant first. */
  function Decimal(n: nat): (s: string)
    ensures |s| >= 1
    ensures forall k :: 0 <= k < |s| ==> IsDigit(s[k])
    ensures |s| > 1 ==> s[0] != '0'
    ensures n < 10 <==> |s| == 1
  {
    if n < 10 then [DigitChar(n)] else Decimal(n / 10) + [DigitChar(n % 10)]
  }

  /** The number a string of decimal digits denotes. */
  function DigitsValue(s: string): nat
    requires forall k :: 0 <= k < |s| ==> IsDigit(s[k])
  {
    if |s| == 0 then 0
    else
      assert IsDigit(s[|s| - 1]);
      10 * DigitsValue(s[..|s| - 1]) + (s[|s| - 1] as int - '0' as int)
  }

  /** Rendering a count in decimal loses nothing: reading the digits back gives the count. */
  lemma {:induction false} DecimalRoundTrip(n: nat)
    ensures DigitsValue(Decimal(n)) == n
  {
    if n >= 10 {
      DecimalRoundTrip(n / 10);
      var s := Decimal(n);
      assert s[..|s| - 1] == Decimal(n / 10);
    }
  }

  /** Different counts render differently. */
  lemma DecimalInjective(a: nat, b: nat)
    requires Decimal(a) == Decimal(b)
    ensures a == b
  {
    DecimalRoundTrip(a);
    DecimalRoundTrip(b);
  }
}
