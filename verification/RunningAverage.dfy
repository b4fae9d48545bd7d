/** The Lab 4 server statistics: counters and the truncating running average of response times. */
module RunningAverage {
  import opened Basics
  import opened GoInts

  /** The new average, as the source computes it on int64; `n` counts the new sample. */
  function NextAverage(avg: int64, n: int, sample: int64): (a: int64)
    requires n >= 1
  {
    var x := WrapInt64(WrapInt64(avg * (n - 1)) + sample);
    TruncDivInRange(x, n);
    TruncDiv(x, n)
  }

  function Average(samples: seq<int64>): int64 {
    if samples == [] then 0
    else NextAverage(Average(samples[..|samples| - 1]), |samples|, samples[|samples| - 1])
  }

  function Total(samples: seq<int64>): int {
    if samples == [] then 0 else Total(samples[..|samples| - 1]) + samples[|samples| - 1]
  }

  /** Response times are non-negative and their sum fits an int64. */
  predicate Measurable(samples: seq<int64>) {
    && (forall i :: 0 <= i < |samples| ==> samples[i] >= 0)
    && Total(samples) <= MAX_INT64
  }

  // ---------- arithmetic ----------

  lemma QuotientAtMost(x: int, n: int)
    requires x >= 0 && n >= 1
    ensures 0 <= x / n <= x
  {
  }

  lemma TruncDivInRange(x: int64, n: int)
    requires n >= 1
    ensures -0x8000_0000_0000_0000 <= TruncDiv(x, n) < 0x8000_0000_0000_0000
  {
    if x >= 0 {
      QuotientAtMost(x, n);
    } else {
      var y: int := x;
      QuotientAtMost(-y, n);
    }
  }

  /** Division leaves a remainder below the divisor: `nq` is n times the quotient. */
  lemma Divided(x: int, n: int, nq: int)
    requires x >= 0 && n >= 1 && nq == n * (x / n)
    ensures nq <= x <= nq + n - 1
  {
    assert x == n * (x / n) + x % n;
  }

  lemma WeightBetween(lo: int, a: int, hi: int, k: nat)
    requires k > 0 ==> lo <= a <= hi
    ensures k * lo <= k * a <= k * hi
  {
    if k > 0 {
      Monotone(k, lo, a);
      Monotone(k, a, hi);
    }
  }

  /** Averaging k values of mean a with one more sample stays within the bounds both respect. */
  lemma QuotientBetween(lo: int, a: int, hi: int, k: nat, sample: int, q: int)
    requires k > 0 ==> lo <= a <= hi
    requires lo <= sample <= hi
    requires (k + 1) * q <= k * a + sample <= (k + 1) * q + k
    ensures lo <= q <= hi
  {
    var n := k + 1;
    WeightBetween(lo, a, hi, k);
    assert n * lo == k * lo + lo && n * (hi + 1) == k * hi + hi + n && n * (q + 1) == n * q + n;
    LessByFactor(n, lo, q + 1);
    LessByFactor(n, q, hi + 1);
  }

  // ---------- the average against the true sum ----------

  lemma {:induction false} TotalNonNegative(samples: seq<int64>)
    requires forall i :: 0 <= i < |samples| ==> samples[i] >= 0
    ensures Total(samples) >= 0
  {
    if samples != [] {
      TotalNonNegative(samples[..|samples| - 1]);
    }
  }

  lemma ShorterMeasurable(samples: seq<int64>)
    requires Measurable(samples) && samples != []
    ensures Measurable(samples[..|samples| - 1])
  {
    TotalNonNegative(samples[..|samples| - 1]);
  }

  /** With no overflow the new average is plain integer division: n times it falls short by less than n. */
  lemma NextIsDivision(avg: int64, n: int, sample: int64, product: int)
    requires n >= 1 && product == avg * (n - 1) && 0 <= product && 0 <= sample && product + sample <= MAX_INT64
    ensures var a := NextAverage(avg, n, sample);
      a >= 0 && n * a <= product + sample <= n * a + n - 1
  {
    var x: int := product + sample;
    assert WrapInt64(product) == product;
    assert WrapInt64(x) == x;
    QuotientAtMost(x, n);
    Divided(x, n, n * (x / n));
  }

  /** `weight` is n times the average: it never exceeds the sum. */
  lemma {:induction false} WeightBelowTotal(samples: seq<int64>) returns (weight: int)
    requires Measurable(samples)
    ensures weight == |samples| * Average(samples) && Average(samples) >= 0
    ensures 0 <= weight <= Total(samples)
  {
    hide NextAverage;
    weight := |samples| * Average(samples);
    if samples != [] {
      var n := |samples|;
      var shorter, sample := samples[..n - 1], samples[n - 1];
      ShorterMeasurable(samples);
      var w := WeightBelowTotal(shorter);
      NextIsDivision(Average(shorter), n, sample, w);
      Monotone(n, 0, Average(samples));
    }
  }

  lemma TotalSnoc(samples: seq<int64>, sample: int64)
    ensures Total(samples + [sample]) == Total(samples) + sample
    ensures Measurable(samples + [sample]) ==> Measurable(samples) && sample >= 0
  {
    var longer := samples + [sample];
    assert longer[..|longer| - 1] == samples && longer[|samples|] == sample;
    if Measurable(longer) {
      ShorterMeasurable(longer);
    }
  }

  /** No intermediate value of an update overflows while the sum of all samples fits. */
  lemma NoOverflow(samples: seq<int64>, sample: int64)
    requires Measurable(samples + [sample])
    ensures 0 <= |samples| * Average(samples) <= |samples| * Average(samples) + sample <= MAX_INT64
  {
    hide NextAverage, Average;
    TotalSnoc(samples, sample);
    var w := WeightBelowTotal(samples);
  }

  function Triangle(n: nat): nat { if n == 0 then 0 else Triangle(n - 1) + n - 1 }

  lemma {:induction false} TriangleClosed(n: nat)
    ensures 2 * Triangle(n) == n * (n - 1)
  {
    if n > 0 {
      TriangleClosed(n - 1);
      assert n * (n - 1) == (n - 1) * (n - 2) + 2 * (n - 1);
    }
  }

  lemma {:induction false} WeightAboveTotal(samples: seq<int64>)
    requires Measurable(samples)
    ensures Total(samples) <= |samples| * Average(samples) + Triangle(|samples|)
  {
    hide NextAverage;
    if samples != [] {
      var n := |samples|;
      var shorter, sample := samples[..n - 1], samples[n - 1];
      ShorterMeasurable(samples);
      WeightAboveTotal(shorter);
      var w := WeightBelowTotal(shorter);
      NextIsDivision(Average(shorter), n, sample, w);
    }
  }

  /** Main result: n times the stored average is at most the true sum, and short of it by at most n(n-1)/2. */
  lemma AverageBounds(samples: seq<int64>)
    requires Measurable(samples)
    ensures var n, a := |samples|, Average(samples);
      n * a <= Total(samples) <= n * a + n * (n - 1) / 2
  {
    var w := WeightBelowTotal(samples);
    WeightAboveTotal(samples);
    TriangleClosed(|samples|);
  }

  /** The stored average lies between the smallest and the largest sample. */
  lemma {:induction false} AverageBetween(samples: seq<int64>, lo: int64, hi: int64)
    requires Measurable(samples) && samples != []
    requires forall i :: 0 <= i < |samples| ==> 0 <= lo <= samples[i] <= hi
    ensures lo <= Average(samples) <= hi
  {
    hide NextAverage;
    var n := |samples|;
    var shorter, sample := samples[..n - 1], samples[n - 1];
    ShorterMeasurable(samples);
    var w := WeightBelowTotal(shorter);
    NextIsDivision(Average(shorter), n, sample, w);
    if n > 1 {
      AverageBetween(shorter, lo, hi);
    }
    QuotientBetween(lo, Average(shorter), hi, n - 1, sample, Average(samples));
  }

  // ---------- the statistics object ----------

  class ServiceStats {
    var requestsReceived: int64
    var requestsProcessed: int64
    var avgResponseTime: int64
    var lastRequest: int
    ghost var samples: seq<int64>  // the response times recorded so far

    ghost predicate Valid()
      reads this
    {
      && requestsProcessed == |samples| <= requestsReceived
      && avgResponseTime == Average(samples)
    }

    constructor ()
      ensures Valid() && samples == [] && requestsReceived == 0
    {
      requestsReceived, requestsProcessed, avgResponseTime, lastRequest, samples := 0, 0, 0, 0, [];
    }
  }

  class UDPServer {
    const stats: map<string, ServiceStats>

    /** The services keep separate statistics, each consistent. */
    ghost predicate Valid()
      reads this, stats.Values
    {
      && (forall a, b :: a in stats && b in stats && a != b ==> stats[a] != stats[b])
      && (forall a :: a in stats ==> stats[a].Valid())
    }

    /** The statistics object an update of `service` may touch: none if the service is unknown. */
    function Target(service: string): set<ServiceStats> {
      if service in stats then {stats[service]} else {}
    }

    constructor (stats: map<string, ServiceStats>)
      requires forall a, b :: a in stats && b in stats && a != b ==> stats[a] != stats[b]
      requires forall a :: a in stats ==> stats[a].Valid()
      ensures Valid() && this.stats == stats
    {
      this.stats := stats;
    }

    /** The first `updateStats` of `handleRequest`, under the mutex. */
    method RecordReceived(service: string, startTime: int)
      requires Valid()
      requires service in stats ==> stats[service].requestsReceived < MAX_INT64
      modifies Target(service)
      ensures Valid()
      ensures service in stats ==>
                var st := stats[service];
                && st.requestsReceived == old(st.requestsReceived) + 1 && st.lastRequest == startTime
                && st.samples == old(st.samples)
    {
      if service in stats {
        var st := stats[service];
        st.requestsReceived := st.requestsReceived + 1;
        st.lastRequest := startTime;
      }
    }

    /** The second `updateStats`, for a request recorded as received and not yet processed. */
    method RecordProcessed(service: string, responseTime: int64)
      requires Valid()
      requires service in stats ==> stats[service].requestsProcessed < stats[service].requestsReceived
      modifies Target(service)
      ensures Valid()
      ensures service in stats ==>
                var st := stats[service];
                && st.samples == old(st.samples) + [responseTime]
                && st.requestsReceived == old(st.requestsReceived) && st.lastRequest == old(st.lastRequest)
    {
      if service in stats {
        var st := stats[service];
        st.requestsProcessed := st.requestsProcessed + 1;
        st.avgResponseTime := NextAverage(st.avgResponseTime, st.requestsProcessed, responseTime);
        ghost var longer := st.samples + [responseTime];
        assert longer[..|longer| - 1] == st.samples;
        st.samples := longer;
      }
    }

    /** `GetStats` copies what is stored; with measurable samples the copied average obeys the bounds. */
    method GetAverage(service: string) returns (avg: int64)
      requires Valid() && service in stats
      ensures avg == Average(stats[service].samples)
      ensures Measurable(stats[service].samples) ==>
                var n, total := |stats[service].samples|, Total(stats[service].samples);
                n * avg <= total <= n * avg + n * (n - 1) / 2
    {
      avg := stats[service].avgResponseTime;
      if Measurable(stats[service].samples) {
        AverageBounds(stats[service].samples);
      }
    }
  }
}
