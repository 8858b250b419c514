/** Cache keys (internal/proxy/upstream.go). */
module CacheKeys {
  import opened Cache
  import opened Text

  /** `%d` of a non-negative number. */
  function Decimal(n: nat): (s: string)
    ensures s != "" && !Contains(s, '|')
  {
    if n < 10 then [Digit(n)] else Decimal(n / 10) + [Digit(n % 10)]
  }

  lemma {:induction false} DecimalInjective(m: nat, n: nat)
    requires Decimal(m) == Decimal(n)
    ensures m == n
  {
    var a, b := Decimal(m), Decimal(n);
    assert a[|a| - 1] == Digit(m % 10) && b[|b| - 1] == Digit(n % 10);
    if m >= 10 && n >= 10 {
      assert a[..|a| - 1] == Decimal(m / 10) && b[..|b| - 1] == Decimal(n / 10);
      DecimalInjective(m / 10, n / 10);
    }
  }

  function CacheKey(q: Question): string {
    Lower(q.name) + "|" + Decimal(q.qtype as nat)
  }

  lemma BarSplitsOnce(a: string, d: string, b: string, e: string)
    requires a + "|" + d == b + "|" + e && !Contains(d, '|') && !Contains(e, '|')
    ensures a == b && d == e
  {
    var s := a + "|" + d;
    assert s[|a|] == '|' && s[|b|] == '|';
    assert forall i | |a| < i < |s| :: s[i] == d[i - |a| - 1];
    assert forall i | |b| < i < |s| :: s[i] == e[i - |b| - 1];
    assert a == s[..|a|] && b == s[..|b|] && d == s[|a| + 1..] && e == s[|b| + 1..];
  }

  /** Two questions share a key exactly when they ask for the same type of the same name, letter case aside. */
  lemma CacheKeyInjective(q: Question, r: Question)
    ensures CacheKey(q) == CacheKey(r) <==> Lower(q.name) == Lower(r.name) && q.qtype == r.qtype
  {
    if CacheKey(q) == CacheKey(r) {
      BarSplitsOnce(Lower(q.name), Decimal(q.qtype as nat), Lower(r.name), Decimal(r.qtype as nat));
      DecimalInjective(q.qtype as nat, r.qtype as nat);
    }
  }
}
