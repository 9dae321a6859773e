/**
 The release readiness scoring that the certification mission writes
 (ARTIFACT_SOURCE in scripts/live-real08-certification.ts), over exact rationals.
 */
module ReadinessScoring {

  datatype Verdict = Blocked | AtRisk | Ready

  const THRESHOLD: real := 0.82

  function Passed(checks: seq<bool>): (n: nat)
    ensures n <= |checks|
  {
    if checks == [] then 0
    else Passed(checks[..|checks| - 1]) + if checks[|checks| - 1] then 1 else 0
  }

  function Score(checks: seq<bool>): real {
    if |checks| == 0 then 0.0 else Passed(checks) as real / |checks| as real
  }

  function VerdictOf(ratio: real): Verdict {
    if ratio >= THRESHOLD then Ready else if ratio > 0.0 then AtRisk else Blocked
  }

  function Rank(v: Verdict): nat { match v case Blocked => 0 case AtRisk => 1 case Ready => 2 }

  lemma {:induction false} PassedConcat(a: seq<bool>, b: seq<bool>)
    ensures Passed(a + b) == Passed(a) + Passed(b)
    decreases |b|
  {
    if b == [] {
      assert a + b == a;
    } else {
      assert (a + b)[..|a + b| - 1] == a + b[..|b| - 1];
      PassedConcat(a, b[..|b| - 1]);
    }
  }

  /** `Passed` is the multiplicity of true. */
  lemma {:induction false} PassedExactly(checks: seq<bool>)
    ensures Passed(checks) == multiset(checks)[true]
  {
    if checks != [] {
      var init, last := checks[..|checks| - 1], checks[|checks| - 1];
      assert checks == init + [last];
      PassedExactly(init);
    }
  }

  /** The score is the share of passed checks, and 0 for no checks. */
  lemma {:induction false} ScoreExactly(checks: seq<bool>)
    ensures checks == [] ==> Score(checks) == 0.0
    ensures Score(checks) * |checks| as real == multiset(checks)[true] as real
  {
    PassedExactly(checks);
  }

  lemma QuotientAtMost(p: int, n: int, q: int, m: int)
    requires n > 0 && m > 0
    ensures p as real / n as real <= q as real / m as real <==> p * m <= q * n
  {
    var x, y := p as real / n as real, q as real / m as real;
    assert x * n as real == p as real && y * m as real == q as real;
    var d := (y - x) * (n as real * m as real);
    assert d == (y * m as real) * n as real - (x * n as real) * m as real;
    assert d == (q * n - p * m) as real;
    assert n as real * m as real > 0.0;
  }

  lemma Mediant(p: int, n: int, q: int, m: int)
    requires p * m <= q * n
    ensures p * (n + m) <= (p + q) * n
    ensures (p + q) * m <= q * (n + m)
  {
    assert p * (n + m) == p * n + p * m && (p + q) * n == p * n + q * n;
    assert (p + q) * m == p * m + q * m && q * (n + m) == q * n + q * m;
  }

  /** The score of two check lists joined lies between their scores. */
  lemma {:induction false} JoinedScore(a: seq<bool>, b: seq<bool>)
    requires a != [] && b != [] && Score(a) <= Score(b)
    ensures Score(a) <= Score(a + b) <= Score(b)
  {
    PassedConcat(a, b);
    var p, n, q, m := Passed(a), |a|, Passed(b), |b|;
    QuotientAtMost(p, n, q, m);
    Mediant(p, n, q, m);
    QuotientAtMost(p, n, p + q, n + m);
    QuotientAtMost(p + q, n + m, q, m);
  }

  lemma VerdictMonotone(x: real, y: real)
    requires x <= y
    ensures Rank(VerdictOf(x)) <= Rank(VerdictOf(y))
  {
  }

  lemma OneMore(p: int, n: int)
    requires 0 <= p <= n && 0 < n
    ensures p as real / (n + 1) as real <= p as real / n as real <= (p + 1) as real / (n + 1) as real
  {
    assert p * (n + 1) == p * n + p && (p + 1) * n == p * n + n;
    QuotientAtMost(p, n, p + 1, n + 1);
    QuotientAtMost(p, n + 1, p, n);
  }

  lemma {:induction false} ScoreOneMore(checks: seq<bool>, check: bool)
    ensures if check then Score(checks) <= Score(checks + [check]) else Score(checks + [check]) <= Score(checks)
  {
    PassedConcat(checks, [check]);
    assert Passed([check]) == if check then 1 else 0;
    if checks != [] { OneMore(Passed(checks), |checks|); }
  }

  /** One more check that passes never lowers the verdict; one that fails never raises it. */
  lemma {:induction false} OneMoreCheck(checks: seq<bool>)
    ensures Rank(VerdictOf(Score(checks))) <= Rank(VerdictOf(Score(checks + [true])))
    ensures Rank(VerdictOf(Score(checks + [false]))) <= Rank(VerdictOf(Score(checks)))
  {
    ScoreOneMore(checks, true);
    ScoreOneMore(checks, false);
    VerdictMonotone(Score(checks), Score(checks + [true]));
    VerdictMonotone(Score(checks + [false]), Score(checks));
  }

  lemma QuotientAtLeast(p: int, n: int, c: real)
    requires n > 0
    ensures p as real / n as real >= c <==> p as real >= c * n as real
  {
    var x := p as real / n as real;
    assert x * n as real == p as real;
    assert (x - c) * n as real == p as real - c * n as real;
  }

  /** READY without division: at least 41 of every 50 checks pass; BLOCKED when none does. */
  lemma {:induction false} ReadyExactly(checks: seq<bool>)
    ensures VerdictOf(Score(checks)) == Ready <==> checks != [] && 50 * multiset(checks)[true] >= 41 * |checks|
    ensures VerdictOf(Score(checks)) == Blocked <==> true !in checks
  {
    PassedExactly(checks);
    var p, n := Passed(checks), |checks|;
    if n > 0 {
      QuotientAtLeast(p, n, THRESHOLD);
      assert p as real >= THRESHOLD * n as real <==> 50 * p >= 41 * n;
      QuotientAtMost(p, n, 0, 1);
      assert 0 as real / 1 as real == 0.0;
    }
  }
}
