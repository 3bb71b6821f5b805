// CVTracker (energy/derive.go): a fixed-size rolling buffer of samples and the
// coefficient of variation over what it holds.
module Tracker {
  import opened Sums
  import opened RealAlgebra
  import opened Variation

  const DEFAULT_SIZE := 100

  function Last<T>(s: seq<T>, n: nat): seq<T> { if |s| <= n then s else s[|s| - n..] }

  // The tracker's fields as a value.
  datatype Ring = Ring(size: nat, buf: seq<real>, next: nat, full: bool) {
    // The slot after the last one written is written next; before the buffer has filled
    // up samples are appended.
    predicate Valid() {
      && 0 < size
      && |buf| <= size
      && next < size
      && (next != 0 ==> full)
      && (full ==> |buf| == size)
    }

    // Oldest sample first.
    function Window(): seq<real>
      requires Valid()
    {
      buf[next..] + buf[..next]
    }

    function Add(v: real): Ring
      requires Valid()
    {
      if |buf| < size then this.(buf := buf + [v])
      else Ring(size, buf[next := v], (next + 1) % size, true)
    }
  }

  function NewRing(size: int): Ring { Ring(if size <= 0 then DEFAULT_SIZE else size, [], 0, false) }

  function AfterAdds(r: Ring, samples: seq<real>): Ring
    requires r.Valid()
    ensures AfterAdds(r, samples).Valid() && AfterAdds(r, samples).size == r.size
    decreases |samples|
  {
    if samples == [] then r
    else
      AddWindow(r, samples[0]);
      AfterAdds(r.Add(samples[0]), samples[1..])
  }

  // The write position wraps to 0 at the end of the buffer.
  lemma Wraps(next: nat, size: nat)
    requires next < size
    ensures (next + 1) % size == if next + 1 == size then 0 else next + 1
  {}

  // Adding a sample drops the oldest one only when the window is full.
  lemma AddWindow(r: Ring, v: real)
    requires r.Valid()
    ensures r.Add(v).Valid()
    ensures r.Add(v).Window() == Last(r.Window() + [v], r.size)
  {
    if |r.buf| == r.size {
      Wraps(r.next, r.size);
      Overwritten(r.buf, r.next, v);
      assert |r.Window()| == r.size;
    } else {
      Rotation(r.buf, r.next);
      Rotation(r.buf + [v], r.next);
    }
  }

  // A rotation at 0 is none.
  lemma Rotation(b: seq<real>, n: nat)
    requires n == 0
    ensures b[n..] + b[..n] == b
  {}

  lemma Overwritten(b: seq<real>, n: nat, v: real)
    requires n < |b|
    ensures var k := if n + 1 == |b| then 0 else n + 1;
            b[n := v][k..] + b[n := v][..k] == (b[n..] + b[..n])[1..] + [v]
  {
    var c := b[n := v];
    assert c[..n + 1] == b[..n] + [v] && c[n + 1..] == b[n + 1..];
    assert (b[n..] + b[..n])[1..] == b[n + 1..] + b[..n];
  }

  lemma LastOfLast<T>(s: seq<T>, t: seq<T>, n: nat)
    ensures Last(Last(s, n) + t, n) == Last(s + t, n)
  {}

  // After any adds the ring holds, as a rotation at next, the last size samples in
  // order; it is marked full exactly when a sample has been dropped.
  lemma {:induction false} AddsWindow(r: Ring, samples: seq<real>)
    requires r.Valid()
    ensures AfterAdds(r, samples).Window() == Last(r.Window() + samples, r.size)
    ensures AfterAdds(r, samples).full <==> r.full || |r.Window()| + |samples| > r.size
    decreases |samples|
  {
    var w := r.Window();
    if samples == [] {
      assert w + samples == w;
    } else {
      var v, rest := samples[0], samples[1..];
      AddWindow(r, v);
      AddsWindow(r.Add(v), rest);
      assert w + samples == (w + [v]) + rest;
      LastOfLast(w + [v], rest, r.size);
    }
  }

  lemma NewRingAdds(size: int, samples: seq<real>)
    ensures NewRing(size).Valid()
    ensures var r := AfterAdds(NewRing(size), samples);
            && r.Window() == Last(samples, NewRing(size).size)
            && (r.full <==> |samples| > r.size)
    ensures NewRing(size).size == if size <= 0 then 100 else size
  {
    hide AfterAdds;
    AddsWindow(NewRing(size), samples);
    assert NewRing(size).Window() + samples == samples;
  }

  // The coefficient of the buffer as it lies in memory is that of the sliding window.
  lemma CVOfWindow(r: Ring, cv: real)
    requires r.Valid()
    ensures IsCV(r.buf, cv) <==> IsCV(r.Window(), cv)
  {
    assert r.buf == r.buf[..r.next] + r.buf[r.next..];
    CVPermuted(r.buf, r.Window(), cv);
  }

  // Two series with the same latest samples are indistinguishable: what happened before
  // the window has no influence on the coefficient.
  lemma CVForgetsThePast(size: int, a: seq<real>, b: seq<real>, cv: real)
    requires Last(a, NewRing(size).size) == Last(b, NewRing(size).size)
    ensures IsCV(AfterAdds(NewRing(size), a).buf, cv) <==> IsCV(AfterAdds(NewRing(size), b).buf, cv)
  {
    NewRingAdds(size, a);
    NewRingAdds(size, b);
    CVOfWindow(AfterAdds(NewRing(size), a), cv);
    CVOfWindow(AfterAdds(NewRing(size), b), cv);
  }

  class CVTracker {
    var size: int
    var buf: seq<real>
    var next: nat
    var full: bool

    function State(): Ring
      reads this
      requires size >= 0
    {
      Ring(size, buf, next, full)
    }

    ghost predicate Valid()
      reads this
    {
      size >= 0 && State().Valid()
    }

    constructor (size: int)
      ensures Valid() && State() == NewRing(size)
    {
      this.size := if size <= 0 then DEFAULT_SIZE else size;
      buf := [];
      next := 0;
      full := false;
    }

    method Add(v: real)
      requires Valid()
      modifies this
      ensures Valid() && State() == old(State()).Add(v)
      ensures State().Window() == Last(old(State().Window()) + [v], size)
    {
      AddWindow(State(), v);
      if |buf| < size {
        buf := buf + [v];
        return;
      }
      buf := buf[next := v];
      next := (next + 1) % size;
      full := true;
    }

    // std is what math.Sqrt returns for the variance. The result is the coefficient of
    // variation of the sliding window.
    method CV(std: real) returns (cv: real)
      requires Valid()
      requires |buf| >= 2 && Mean(buf) != 0.0 ==> IsDeviation(buf, std)
      ensures IsCV(State().Window(), cv)
    {
      var n := |buf|;
      if n < 2 {
        CVOfWindow(State(), 0.0);
        return 0.0;
      }
      var sum := 0.0;
      for i := 0 to n
        invariant sum == Sum(buf[..i], Id)
      {
        SumNext(buf, i, Id);
        sum := sum + buf[i];
      }
      assert buf[..n] == buf;
      var mean := sum / n as real;
      if mean == 0.0 {
        CVOfWindow(State(), 0.0);
        return 0.0;
      }
      var sq := 0.0;
      for i := 0 to n
        invariant sq + SqDev(buf[i..], mean) == SqDev(buf, mean)
      {
        var d := buf[i] - mean;
        assert buf[i..][0] == buf[i] && buf[i..][1..] == buf[i + 1..];
        sq := sq + d * d;
      }
      assert sq / n as real == Variance(buf) == std * std;
      cv := std / mean;
      assert IsCV(buf, cv);
      CVOfWindow(State(), cv);
    }
  }
}
