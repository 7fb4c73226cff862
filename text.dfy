/**
  The few string operations of Python the loaders use: `str.endswith`,
  `str(j)` for a non-negative int, `os.path.join` (POSIX), and the
  `f"{name}-{j}"` identifiers a YAML manifest entry is expanded into.
 */
module Text {
  import opened Wrappers

  /** `s.endswith(suffix)`. */
  predicate EndsWith(s: string, suffix: string) {
    |suffix| <= |s| && s[|s| - |suffix|..] == suffix
  }

  /** `endswith` holds exactly when the string is something followed by the suffix. */
  lemma EndsWithIffConcat(s: string, suffix: string)
    ensures EndsWith(s, suffix) <==> exists p :: s == p + suffix
  {
    if EndsWith(s, suffix) {
      assert s == s[..|s| - |suffix|] + suffix;
    }
    if exists p :: s == p + suffix {
      var p :| s == p + suffix;
      assert s[|p|..] == suffix;
    }
  }

  /** `os.path.join(a, b)` on POSIX: an absolute `b` replaces `a`, and no separator is doubled. */
  function PosixJoin(a: string, b: string): (r: string)
    ensures EndsWith(r, b)
  {
    if |b| > 0 && b[0] == '/' then b
    else if a == [] || a[|a| - 1] == '/' then a + b
    else a + "/" + b
  }

  predicate IsDigit(c: char) {
    '0' <= c <= '9'
  }

  predicate IsDigits(s: string) {
    forall i :: 0 <= i < |s| ==> IsDigit(s[i])
  }

  function DigitChar(d: nat): (c: char)
    requires d < 10
    ensures IsDigit(c)
  {
    ('0' as int + d) as char
  }

  /** `str(n)` for `n >= 0`: decimal digits, most significant first, no leading zero. */
  function NatToString(n: nat): string
    decreases n
  {
    if n < 10 then [DigitChar(n)] else NatToString(n / 10) + [DigitChar(n % 10)]
  }

  /** `int(s)` for a string of decimal digits. */
  function DecimalValue(s: string): nat
    requires IsDigits(s)
    decreases |s|
  {
    if s == [] then 0 else DecimalValue(s[..|s| - 1]) * 10 + (s[|s| - 1] as int - '0' as int)
  }

  /** Reading back what `str` wrote gives the number again. */
  lemma {:induction false} DecimalRoundTrip(n: nat)
    ensures NatToString(n) != [] && IsDigits(NatToString(n))
    ensures DecimalValue(NatToString(n)) == n
    decreases n
  {
    if n >= 10 {
      DecimalRoundTrip(n / 10);
      var s := NatToString(n);
      assert s[..|s| - 1] == NatToString(n / 10);
    }
  }

  lemma NatToStringInjective(m: nat, n: nat)
    requires NatToString(m) == NatToString(n)
    ensures m == n
  {
    DecimalRoundTrip(m);
    DecimalRoundTrip(n);
  }

  /** Index of the last occurrence of `c` in `s` (`s.rfind(c)`), or -1. */
  function LastIndex(s: string, c: char): (k: int)
    ensures -1 <= k < |s|
    decreases |s|
  {
    if s == [] then -1
    else if s[|s| - 1] == c then |s| - 1
    else LastIndex(s[..|s| - 1], c)
  }

  lemma {:induction false} LastIndexBefore(p: string, c: char, q: string)
    requires c !in q
    ensures LastIndex(p + [c] + q, c) == |p|
    decreases |q|
  {
    var s := p + [c] + q;
    if q != [] {
      assert s[|s| - 1] == q[|q| - 1];
      assert s[..|s| - 1] == p + [c] + q[..|q| - 1];
      LastIndexBefore(p, c, q[..|q| - 1]);
    }
  }

  /** The identifier `f"{name}-{j}"` of the `j`-th repetition of a manifest entry. */
  function Suffixed(name: string, j: nat): string {
    name + "-" + NatToString(j)
  }

  /** Splits an identifier at its last dash into the name and the repetition number. */
  function SplitSuffixed(s: string): Option<(string, nat)> {
    var k := LastIndex(s, '-');
    if k < 0 then None
    else
      var digits := s[k + 1..];
      if digits != [] && IsDigits(digits) then Some((s[..k], DecimalValue(digits))) else None
  }

  /** Splitting undoes suffixing, whatever dashes the name itself contains. */
  lemma SplitSuffixedRoundTrip(name: string, j: nat)
    ensures SplitSuffixed(Suffixed(name, j)) == Some((name, j))
  {
    var d := NatToString(j);
    DecimalRoundTrip(j);
    assert '-' !in d by {
      forall i | 0 <= i < |d| ensures d[i] != '-' {
        assert IsDigit(d[i]);
      }
    }
    assert Suffixed(name, j) == name + ['-'] + d;
    LastIndexBefore(name, '-', d);
    assert Suffixed(name, j)[|name| + 1..] == d;
    assert Suffixed(name, j)[..|name|] == name;
  }

  /** Different (name, repetition) pairs never produce the same identifier. */
  lemma SuffixedInjective(a: string, i: nat, b: string, j: nat)
    ensures Suffixed(a, i) == Suffixed(b, j) <==> a == b && i == j
  {
    SplitSuffixedRoundTrip(a, i);
    SplitSuffixedRoundTrip(b, j);
  }
}
