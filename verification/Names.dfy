/** Names safe to use for types and properties, and the numeric suffixes that keep them apart. */
module Names {
  predicate IsAsciiLetterOrDigit(c: char) {
    'a' <= c <= 'z' || 'A' <= c <= 'Z' || '0' <= c <= '9'
  }

  predicate IsNameChar(c: char) {
    IsAsciiLetterOrDigit(c) || c == '_'
  }

  ghost predicate IsName(s: string) {
    forall i :: 0 <= i < |s| ==> IsNameChar(s[i])
  }

  function SafeChar(c: char): char {
    if IsAsciiLetterOrDigit(c) then c else '_'
  }

  /** Every other character becomes an underscore. */
  method Sanitize(identifier: string) returns (safe: string)
    ensures safe == Sanitized(identifier)
  {
    safe := "";
    for i := 0 to |identifier|
      invariant safe == Sanitized(identifier)[..i]
    {
      safe := safe + [SafeChar(identifier[i])];
    }
  }

  function Sanitized(identifier: string): (safe: string)
    ensures |safe| == |identifier| && IsName(safe)
    ensures forall i :: 0 <= i < |safe| ==>
      var c := identifier[i];
      safe[i] == if 'a' <= c <= 'z' || 'A' <= c <= 'Z' || '0' <= c <= '9' then c else '_'
  {
    seq(|identifier|, i requires 0 <= i < |identifier| => SafeChar(identifier[i]))
  }

  // ------------------------------------------------------------------------------------------------------------
  // Decimal suffixes

  function Digit(n: nat): char
    requires n < 10
  {
    '0' + n as char
  }

  function Decimal(n: nat): (s: string)
    ensures s != [] && (|s| > 1 <==> n >= 10) && IsName(s) && (forall i :: 0 <= i < |s| ==> '0' <= s[i] <= '9')
  {
    if n < 10 then [Digit(n)] else Decimal(n / 10) + [Digit(n % 10)]
  }

  lemma {:induction false} DecimalInjective(m: nat, n: nat)
    requires Decimal(m) == Decimal(n)
    ensures m == n
  {
    var dm, dn := Decimal(m), Decimal(n);
    assert dm[|dm| - 1] == Digit(m % 10) && dn[|dn| - 1] == Digit(n % 10);
    assert m % 10 == n % 10;
    if m >= 10 && n >= 10 {
      assert Decimal(m / 10) == dm[..|dm| - 1] && Decimal(n / 10) == dn[..|dn| - 1];
      DecimalInjective(m / 10, n / 10);
    }
  }

  lemma {:induction false} DecimalLength(n: nat)
    ensures n < 1000 ==> |Decimal(n)| <= 3
  {
    if n >= 10 {
      DecimalLength(n / 10);
      if n < 1000 && n / 10 >= 10 { assert n / 10 < 100; assert n / 100 < 10; assert (n / 10) / 10 == n / 100; }
    }
  }

  /** The number a text of digits stands for. */
  function ValueOf(digits: string): int {
    if digits == "" then 0
    else 10 * ValueOf(digits[..|digits| - 1]) + (digits[|digits| - 1] as int - '0' as int)
  }

  lemma {:induction false} DecimalValue(n: nat)
    ensures ValueOf(Decimal(n)) == n
  {
    if n >= 10 {
      DecimalValue(n / 10);
      assert Decimal(n)[..|Decimal(n)| - 1] == Decimal(n / 10);
    } else {
      assert Decimal(n)[..0] == "";
    }
  }

  function Suffixed(name: string, suffix: nat): (suffixed: string)
    ensures name < suffixed && suffixed[|name|..] == "_" + Decimal(suffix)
  {
    name + "_" + Decimal(suffix)
  }

  lemma SuffixedInjective(name: string, m: nat, n: nat)
    requires Suffixed(name, m) == Suffixed(name, n)
    ensures m == n
  {
    var s := Suffixed(name, m);
    assert s[|name| + 1..] == Decimal(m);
    assert s[|name| + 1..] == Decimal(n);
    DecimalInjective(m, n);
  }

  /** The first suffix from 2 on that is not taken. */
  ghost predicate IsFirstFree(name: string, taken: set<string>, suffix: nat) {
    suffix >= 2 && Suffixed(name, suffix) !in taken && forall k :: 2 <= k < suffix ==> Suffixed(name, k) in taken
  }

  /** The search ends because only finitely many names are taken. */
  method FirstFreeSuffix(name: string, taken: set<string>) returns (suffix: nat)
    ensures IsFirstFree(name, taken, suffix)
  {
    suffix := 2;
    ghost var tried: set<string> := {};
    while Suffixed(name, suffix) in taken
      invariant suffix >= 2 && tried <= taken
      invariant forall k :: 2 <= k < suffix ==> Suffixed(name, k) in taken
      invariant forall s :: s in tried ==> exists k :: 2 <= k < suffix && s == Suffixed(name, k)
      decreases taken - tried
    {
      var next := Suffixed(name, suffix);
      assert next !in tried by {
        if next in tried {
          var k :| 2 <= k < suffix && next == Suffixed(name, k);
          SuffixedInjective(name, suffix, k);
        }
      }
      tried := tried + {next};
      suffix := suffix + 1;
    }
  }
}
