// Energy per token of records and of a cluster, and the carbon and cost derived from it
// (energy/derive.go). float64 is modelled by real; the uint64 token sum wraps around.
module ClusterEnergy {
  import opened Wrappers
  import opened Sums
  import opened RealAlgebra

  const JOULES_PER_KWH := 3600000.0
  const TWO64 := 0x1_0000_0000_0000_0000

  type uint64 = n: int | 0 <= n < TWO64

  datatype RecordError = EmptyAttribution | NegativeEnergy | IdleWindow

  datatype Window = Window(energy: real, tokens: uint64, attribution: string, tier: string, workload: string)

  datatype Record = Record(
    energy: real, tokens: uint64, jPerToken: real, attribution: string, tier: string, workload: string,
    cv: real, stable: bool)

  datatype Site = Site(pue: real, gridGCO2PerKWh: real, costPerKWh: real)

  function JPerToken(joules: real, tokens: uint64): real {
    if tokens == 0 then 0.0 else joules / tokens as real
  }

  // A record as ComputeRecord makes them.
  ghost predicate Measured(r: Record) {
    && r.energy >= 0.0
    && r.tokens > 0
    && r.jPerToken * r.tokens as real == r.energy
    && r.attribution != "" && r.tier != "" && r.workload != ""
  }

  // The honesty checks come in a fixed order, and exactly the windows that pass all of
  // them are measured.
  function ComputeRecord(w: Window, cv: real, threshold: real): (r: Result<Record, RecordError>)
    ensures r == Err(EmptyAttribution) <==> w.attribution == ""
    ensures r == Err(NegativeEnergy) <==> w.attribution != "" && w.energy < 0.0
    ensures r == Err(IdleWindow) <==> w.attribution != "" && w.energy >= 0.0 && w.tokens == 0
    ensures r.Ok? ==> Measured(r.value) && r.value.energy == w.energy && r.value.tokens == w.tokens
    ensures r.Ok? ==> (r.value.stable <==> cv < threshold) && r.value.cv == cv
    ensures r.Ok? ==> r.value.attribution == w.attribution
    ensures r.Ok? ==> r.value.tier == (if w.tier == "" then "uncalibrated" else w.tier)
    ensures r.Ok? ==> r.value.workload == (if w.workload == "" then "unknown" else w.workload)
  {
    if w.attribution == "" then Err(EmptyAttribution)
    else if w.energy < 0.0 then Err(NegativeEnergy)
    else if w.tokens == 0 then Err(IdleWindow)
    else
      DivMul(w.energy, w.tokens as real);
      Ok(Record(w.energy, w.tokens, JPerToken(w.energy, w.tokens), w.attribution,
                if w.tier == "" then "uncalibrated" else w.tier,
                if w.workload == "" then "unknown" else w.workload,
                cv, cv < threshold))
  }

  function Energy(r: Record): real { r.energy }

  function Tokens(r: Record): real { r.tokens as real }

  function TotalTokens(rs: seq<Record>): (n: nat)
  {
    if rs == [] then 0 else rs[0].tokens + TotalTokens(rs[1..])
  }

  // Total energy over total tokens, with no overflow.
  function TrueRatio(rs: seq<Record>): real {
    if TotalTokens(rs) == 0 then 0.0 else Sum(rs, Energy) / TotalTokens(rs) as real
  }

  // What ClusterJPerToken computes with a 64-bit token counter.
  function Cluster(rs: seq<Record>): real { JPerToken(Sum(rs, Energy), TotalTokens(rs) % TWO64) }

  method ClusterJPerToken(records: seq<Record>) returns (j: real)
    ensures j == Cluster(records)
    ensures TotalTokens(records) % 18446744073709551616 == 0 ==> j == 0.0
  {
    var sumEnergy, sumTokens: uint64 := 0.0, 0;
    for i := 0 to |records|
      invariant sumEnergy == Sum(records[..i], Energy)
      invariant sumTokens == TotalTokens(records[..i]) % TWO64
    {
      var r := records[i];
      SumNext(records, i, Energy);
      TotalTokensNext(records, i);
      sumEnergy := sumEnergy + r.energy;
      sumTokens := (sumTokens + r.tokens) % TWO64;
    }
    assert records[..|records|] == records;
    if sumTokens == 0 {
      return 0.0;
    }
    j := sumEnergy / sumTokens as real;
  }

  lemma {:induction false} TotalTokensConcat(a: seq<Record>, b: seq<Record>)
    ensures TotalTokens(a + b) == TotalTokens(a) + TotalTokens(b)
  {
    if a == [] {
      assert a + b == b;
    } else {
      assert (a + b)[1..] == a[1..] + b;
      TotalTokensConcat(a[1..], b);
    }
  }

  lemma TotalTokensNext(rs: seq<Record>, i: nat)
    requires i < |rs|
    ensures TotalTokens(rs[..i + 1]) == TotalTokens(rs[..i]) + rs[i].tokens
    ensures TotalTokens(rs[..i + 1]) % TWO64 == (TotalTokens(rs[..i]) % TWO64 + rs[i].tokens) % TWO64
  {
    assert rs[..i + 1] == rs[..i] + [rs[i]];
    TotalTokensConcat(rs[..i], [rs[i]]);
  }

  lemma {:induction false} TokensAsReal(rs: seq<Record>)
    ensures Sum(rs, Tokens) == TotalTokens(rs) as real
  {
    if rs != [] {
      TokensAsReal(rs[1..]);
    }
  }

  // ---------------------------------------------------------------- the cluster value

  // The counter gives the true ratio exactly when the tokens fit in it or there is no
  // energy to divide.
  lemma ClusterIsRatioIff(rs: seq<Record>)
    ensures Cluster(rs) == TrueRatio(rs) <==> TotalTokens(rs) < 18446744073709551616 || Sum(rs, Energy) == 0.0
  {
    var e, n := Sum(rs, Energy), TotalTokens(rs);
    var m := n % TWO64;
    if n < TWO64 {
      assert m == n;
    } else {
      assert m < n;
      if m == 0 {
        DivMul(e, n as real);
        if e / n as real == 0.0 { assert e == 0.0 * n as real; }
        if e == 0.0 { QuotientIs(0.0, n as real, 0.0); }
      } else {
        QuotientsDiffer(e, m as real, n as real);
      }
    }
  }

  lemma QuotientsDiffer(e: real, m: real, n: real)
    requires 0.0 < m < n
    ensures e / m == e / n <==> e == 0.0
  {
    var q := e / n;
    DivMul(e, n);
    DivMul(e, m);
    if e / m == q {
      DistributeRight(n, m, q);
      assert (n - m) * q == 0.0;
      ZeroProduct(n - m, q);
      assert q * n == 0.0 * n;
    }
    if e == 0.0 {
      QuotientIs(0.0, m, 0.0);
      QuotientIs(0.0, n, 0.0);
    }
  }

  ghost predicate AllMeasured(rs: seq<Record>) { forall i | 0 <= i < |rs| :: Measured(rs[i]) }

  function WeightedJ(r: Record): real { r.jPerToken * r.tokens as real }

  lemma {:induction false} EnergyIsWeighted(rs: seq<Record>)
    requires AllMeasured(rs)
    ensures Sum(rs, WeightedJ) == Sum(rs, Energy) >= 0.0
  {
    if rs != [] {
      EnergyIsWeighted(rs[1..]) by { forall i | 0 <= i < |rs[1..]| ensures Measured(rs[1..][i]) { assert Measured(rs[i + 1]); } }
      assert Measured(rs[0]);
    }
  }

  lemma {:induction false} SomeTokens(rs: seq<Record>)
    requires AllMeasured(rs) && rs != []
    ensures TotalTokens(rs) > 0
  {
    assert Measured(rs[0]);
  }

  // The true ratio is the token-weighted mean of the records' energy per token.
  lemma RatioIsWeightedMean(rs: seq<Record>)
    requires AllMeasured(rs) && rs != []
    ensures TrueRatio(rs) * Sum(rs, Tokens) == Sum(rs, WeightedJ)
    ensures Sum(rs, Tokens) > 0.0
  {
    SomeTokens(rs);
    TokensAsReal(rs);
    EnergyIsWeighted(rs);
    DivMul(Sum(rs, Energy), TotalTokens(rs) as real);
  }

  ghost predicate Within(lo: real, hi: real, tokens: real, weighted: real) {
    lo * tokens <= weighted <= hi * tokens
  }

  // A bound on every record's energy per token bounds the weighted sum.
  lemma {:induction false} WeightedBounds(rs: seq<Record>, lo: real, hi: real)
    requires forall i | 0 <= i < |rs| :: lo <= rs[i].jPerToken <= hi
    ensures Within(lo, hi, Sum(rs, Tokens), Sum(rs, WeightedJ))
  {
    if rs != [] {
      hide Within, WeightedJ;
      var r, t := rs[0], rs[1..];
      forall i | 0 <= i < |t| ensures lo <= t[i].jPerToken <= hi { assert t[i] == rs[i + 1]; }
      WeightedBounds(t, lo, hi);
      OneMore(r, Sum(t, Tokens), Sum(t, WeightedJ), lo, hi, Sum(rs, Tokens), Sum(rs, WeightedJ));
    }
  }

  lemma OneMore(r: Record, tokens: real, weighted: real, lo: real, hi: real, tokens': real, weighted': real)
    requires lo <= r.jPerToken <= hi && Within(lo, hi, tokens, weighted)
    requires tokens' == r.tokens as real + tokens && weighted' == WeightedJ(r) + weighted
    ensures Within(lo, hi, tokens', weighted')
  {
    var j, n := r.jPerToken, r.tokens as real;
    NonNegativeProduct(j - lo, n);
    NonNegativeProduct(hi - j, n);
    DistributeRight(j, lo, n);
    DistributeRight(hi, j, n);
    DistributeRight(n, tokens, lo);
    DistributeRight(n, tokens, hi);
  }

  // The cluster value lies between the smallest and the largest record value.
  lemma RatioBetween(rs: seq<Record>, lo: real, hi: real)
    requires AllMeasured(rs) && rs != []
    requires forall i | 0 <= i < |rs| :: lo <= rs[i].jPerToken <= hi
    ensures lo <= TrueRatio(rs) <= hi
  {
    var r, tokens, weighted := MeanOf(rs);
    WeightedBounds(rs, lo, hi);
    hide *;
    BetweenBounds(lo, hi, r, tokens, weighted);
  }

  ghost predicate IsMean(r: real, tokens: real, weighted: real) { tokens > 0.0 && r * tokens == weighted }

  lemma MeanOf(rs: seq<Record>) returns (r: real, tokens: real, weighted: real)
    requires AllMeasured(rs) && rs != []
    ensures r == TrueRatio(rs) && tokens == Sum(rs, Tokens) && weighted == Sum(rs, WeightedJ)
    ensures IsMean(r, tokens, weighted)
  {
    RatioIsWeightedMean(rs);
    r, tokens, weighted := TrueRatio(rs), Sum(rs, Tokens), Sum(rs, WeightedJ);
  }

  lemma BetweenBounds(lo: real, hi: real, r: real, tokens: real, weighted: real)
    requires IsMean(r, tokens, weighted) && Within(lo, hi, tokens, weighted)
    ensures lo <= r <= hi
  {
    OrderedBy(lo, r, tokens);
    OrderedBy(r, hi, tokens);
  }

  lemma OrderedBy(a: real, b: real, c: real)
    requires c > 0.0 && a * c <= b * c
    ensures a <= b
  {
    DistributeRight(b, a, c);
    SignOf(b - a, c);
  }

  // Splitting the records, the value of the whole lies between those of the parts.
  lemma RatioOfSplit(a: seq<Record>, b: seq<Record>)
    requires AllMeasured(a) && AllMeasured(b) && a != [] && b != []
    ensures TrueRatio(a) <= TrueRatio(b) ==> TrueRatio(a) <= TrueRatio(a + b) <= TrueRatio(b)
    ensures TrueRatio(b) <= TrueRatio(a) ==> TrueRatio(b) <= TrueRatio(a + b) <= TrueRatio(a)
  {
    assert AllMeasured(a + b);
    var p, m, pm := MeanOf(a);
    var q, n, qn := MeanOf(b);
    var r, total, weighted := MeanOf(a + b);
    SumConcat(a, b, Tokens);
    SumConcat(a, b, WeightedJ);
    Mediant(p, m, pm, q, n, qn, r, total, weighted);
  }

  lemma Mediant(p: real, m: real, pm: real, q: real, n: real, qn: real, r: real, total: real, weighted: real)
    requires IsMean(p, m, pm) && IsMean(q, n, qn) && IsMean(r, total, weighted)
    requires total == m + n && weighted == pm + qn
    ensures p <= q ==> p <= r <= q
    ensures q <= p ==> q <= r <= p
  {
    DistributeRight(q, p, n);
    DistributeRight(q, p, m);
    DistributeRight(m, n, p);
    DistributeRight(m, n, q);
    if p <= q {
      NonNegativeProduct(q - p, n);
      NonNegativeProduct(q - p, m);
      BetweenBounds(p, q, r, total, weighted);
    } else {
      NonNegativeProduct(p - q, n);
      NonNegativeProduct(p - q, m);
      DistributeRight(p, q, n);
      DistributeRight(p, q, m);
      BetweenBounds(q, p, r, total, weighted);
    }
  }

  // The cluster value does not depend on the order of the records.
  lemma ClusterPermuted(a: seq<Record>, b: seq<Record>)
    requires multiset(a) == multiset(b)
    ensures Cluster(a) == Cluster(b)
  {
    SumPermuted(a, b, Energy);
    SumPermuted(a, b, Tokens);
    TokensAsReal(a);
    TokensAsReal(b);
  }

  // Averaging the records' values instead is right for two records only when they have
  // the same traffic or the same value.
  lemma ArithmeticMeanIff(a: Record, b: Record)
    requires Measured(a) && Measured(b)
    ensures (a.jPerToken + b.jPerToken) / 2.0 == TrueRatio([a, b])
       <==> a.tokens == b.tokens || a.jPerToken == b.jPerToken
  {
    var rs := [a, b];
    RatioIsWeightedMean(rs);
    SumOfTwo(a, b, Tokens);
    SumOfTwo(a, b, WeightedJ);
    MeanOfTwo(a.jPerToken, b.jPerToken, a.tokens as real, b.tokens as real, TrueRatio(rs));
  }

  lemma SumOfTwo(a: Record, b: Record, f: Record -> real)
    ensures Sum([a, b], f) == f(a) + f(b)
  {
    assert [a, b][1..] == [b] && [b][1..] == [];
    assert Sum([b], f) == f(b) + Sum([], f);
  }

  lemma MeanOfTwo(p: real, q: real, m: real, n: real, r: real)
    requires m > 0.0 && n > 0.0 && r * (m + n) == p * m + q * n
    ensures (p + q) / 2.0 == r <==> m == n || p == q
  {
    var d := (p + q) / 2.0 - r;
    assert 2.0 * d * (m + n) == (p - q) * (n - m) by {
      DistributeRight((p + q) / 2.0, r, m + n);
      DistributeRight(p, q, n - m);
    }
    SignOf(2.0 * d, m + n);
    if (p - q) * (n - m) == 0.0 { ZeroProduct(p - q, n - m); }
  }

  // ---------------------------------------------------------------- carbon and cost

  function JoulesToKWh(joules: real): real { joules / JOULES_PER_KWH }

  function CO2PerTokenGrams(jPerToken: real, s: Site): real {
    jPerToken * s.pue / JOULES_PER_KWH * s.gridGCO2PerKWh
  }

  function CostPerMillionTokensUSD(jPerToken: real, s: Site): real {
    jPerToken * s.pue / JOULES_PER_KWH * s.costPerKWh * 1000000.0
  }

  // 3.6 million joules are a kilowatt-hour. At 3.6 joules per token a million tokens take
  // one, which fixes the cost per million; at 3.6 million joules one token does.
  lemma KnownFigures(s: Site)
    ensures JoulesToKWh(3600000.0) == 1.0
    ensures CostPerMillionTokensUSD(3.6, s) == s.pue * s.costPerKWh
    ensures CO2PerTokenGrams(3600000.0, s) == s.pue * s.gridGCO2PerKWh
  {
    assert 3.6 * s.pue / 3600000.0 * 1000000.0 == s.pue;
    assert 3600000.0 * s.pue / 3600000.0 == s.pue;
    Reordered(3.6 * s.pue / 3600000.0, s.costPerKWh, 1000000.0);
  }

  lemma Reordered(a: real, b: real, c: real)
    ensures a * b * c == a * c * b
  {}

  // Tokens times the per-token figure is the same figure on total energy.
  lemma PerTokenTimesTokens(j: real, n: real, e: real, pue: real, rate: real)
    requires j * n == e
    ensures n * (j * pue / JOULES_PER_KWH * rate) == e / JOULES_PER_KWH * pue * rate
  {
    calc {
      n * (j * pue / JOULES_PER_KWH * rate);
      n * (j * (pue / JOULES_PER_KWH * rate));
      { Assoc(n, j, pue / JOULES_PER_KWH * rate); }
      (n * j) * (pue / JOULES_PER_KWH * rate);
      e * (pue / JOULES_PER_KWH * rate);
      { Assoc(e, pue / JOULES_PER_KWH, rate); }
      (e * (pue / JOULES_PER_KWH)) * rate;
      e / JOULES_PER_KWH * pue * rate;
    }
  }

  lemma ClusterTimesTokens(rs: seq<Record>, n: real)
    requires AllMeasured(rs) && TotalTokens(rs) < TWO64 && n == TotalTokens(rs) as real
    ensures Cluster(rs) * n == Sum(rs, Energy)
  {
    if rs != [] {
      ClusterIsRatioIff(rs);
      RatioIsWeightedMean(rs);
      EnergyIsWeighted(rs);
      TokensAsReal(rs);
      hide *;
    }
  }

  // Carbon and cost of the cluster, figured from the cluster's energy per token, are
  // those of its total energy.
  lemma ClusterConserves(rs: seq<Record>, s: Site)
    requires AllMeasured(rs) && TotalTokens(rs) < TWO64
    ensures TotalTokens(rs) as real * CO2PerTokenGrams(Cluster(rs), s)
         == JoulesToKWh(Sum(rs, Energy)) * s.pue * s.gridGCO2PerKWh
    ensures TotalTokens(rs) as real * CostPerMillionTokensUSD(Cluster(rs), s)
         == JoulesToKWh(Sum(rs, Energy)) * s.pue * s.costPerKWh * 1000000.0
  {
    hide *;
    var n := TotalTokens(rs) as real;
    ClusterTimesTokens(rs, n);
    SiteConserves(Cluster(rs), n, Sum(rs, Energy), s);
  }

  lemma SiteConserves(j: real, n: real, e: real, s: Site)
    requires j * n == e
    ensures n * CO2PerTokenGrams(j, s) == JoulesToKWh(e) * s.pue * s.gridGCO2PerKWh
    ensures n * CostPerMillionTokensUSD(j, s) == JoulesToKWh(e) * s.pue * s.costPerKWh * 1000000.0
  {
    PerTokenTimesTokens(j, n, e, s.pue, s.gridGCO2PerKWh);
    PerTokenTimesTokens(j, n, e, s.pue, s.costPerKWh);
    Assoc(n, j * s.pue / JOULES_PER_KWH * s.costPerKWh, 1000000.0);
  }

  function Carbon(rs: seq<Record>, s: Site): real {
    if rs == [] then 0.0
    else rs[0].tokens as real * CO2PerTokenGrams(rs[0].jPerToken, s) + Carbon(rs[1..], s)
  }

  // The carbon of an amount of energy.
  function CarbonOf(e: real, s: Site): real { JoulesToKWh(e) * s.pue * s.gridGCO2PerKWh }

  lemma CarbonAdds(e: real, f: real, s: Site)
    ensures CarbonOf(e + f, s) == CarbonOf(e, s) + CarbonOf(f, s)
  {
    var u, v := JoulesToKWh(e), JoulesToKWh(f);
    assert JoulesToKWh(e + f) == u + v;
    DistributeRight(u, v, s.pue);
    DistributeRight(u * s.pue, v * s.pue, s.gridGCO2PerKWh);
  }

  lemma RecordCarbon(r: Record, s: Site)
    requires Measured(r)
    ensures r.tokens as real * CO2PerTokenGrams(r.jPerToken, s) == CarbonOf(r.energy, s)
  {
    SiteConserves(r.jPerToken, r.tokens as real, r.energy, s);
  }

  // Adding up the records' carbon gives the carbon of their total energy.
  lemma {:induction false} RecordsConserve(rs: seq<Record>, s: Site)
    requires AllMeasured(rs)
    ensures Carbon(rs, s) == CarbonOf(Sum(rs, Energy), s)
  {
    if rs != [] {
      hide CarbonOf, CO2PerTokenGrams, Measured;
      var r, t := rs[0], rs[1..];
      assert Measured(r);
      forall i | 0 <= i < |t| ensures Measured(t[i]) { assert Measured(rs[i + 1]); }
      RecordsConserve(t, s);
      RecordCarbon(r, s);
      CarbonAdds(r.energy, Sum(t, Energy), s);
    }
  }
}
