/**
  The edge device (`EdgeDevice.java`): an HTTP handler that parses each
  posted reading into a queue, an aggregation loop that drains the queue and
  submits one `"average"` reading per non-empty batch to the cloud, caching
  it (and adding it to a retry queue) when the cloud does not acknowledge it,
  and a retry loop that redelivers the cache with the head-of-log discipline,
  parsing every cached line and posting it re-encoded.

  `posted` is not state of the program: it records, in order, the bodies the
  cloud acknowledged.
*/
module EdgeDevice {
  import opened Optional
  import opened Text
  import opened Numbers
  import opened Records
  import opened CacheLog
  import opened HeadRetry

  /** The device: the readings waiting for aggregation, its cache file, the
      retry queue (written, never read), the acknowledged bodies, and whether
      the retry thread is still alive. */
  datatype EdgeState = EdgeState(queue: seq<Reading>, cache: CacheFile, retryQueue: seq<Reading>,
                                 posted: seq<string>, retrying: bool)

  // ---------------------------------------------------------------------------
  // ingestion

  /** A status code and the device after the exchange. */
  datatype Reply = Reply(status: int, state: EdgeState)

  /** `DataHandler.handle`: a POST whose body parses is queued and answered
      200; one that does not is answered 400 and dropped; any other method is
      answered 405. Nothing but the queue changes, and it changes only by
      the parsed reading at its end. */
  function Receive(s: EdgeState, httpMethod: string, body: string): (r: Reply)
    ensures r.status == 200 <==> httpMethod == "POST" && FromJson(body).Some?
    ensures r.status == 200 ==> r.state == s.(queue := s.queue + [FromJson(body).value])
    ensures r.status != 200 ==> r.state == s
    ensures r.status == 400 <==> httpMethod == "POST" && FromJson(body).None?
    ensures r.status in {200, 400, 405}
  {
    if httpMethod != "POST" then Reply(405, s)
    else match FromJson(body)
      case None => Reply(400, s)
      case Some(d) => Reply(200, s.(queue := s.queue + [d]))
  }

  /** What a sensor posts is accepted and queued exactly as it was built. */
  lemma SensorLineAccepted(s: EdgeState, d: Reading)
    requires Clean(d.sensorId) && Clean(d.timestamp) && Clean(d.temperature)
    requires ParseDouble(d.temperature).Some?
    ensures Receive(s, "POST", ToJson(d)) == Reply(200, s.(queue := s.queue + [d]))
  {
    FromJsonToJson(d);
  }

  /** A body without a comma cannot be split into three fields. */
  lemma CommaFreeRejected(body: string)
    requires ',' !in body
    ensures FromJson(body).None?
  {
    var braceless := Remove(Remove(body, '{'), '}');
    assert ',' !in Remove(body, '{');
    assert ',' !in braceless;
  }

  // ---------------------------------------------------------------------------
  // averaging

  /** IEEE addition on the model's doubles, without rounding or overflow. */
  function Add(a: Double, b: Double): Double
  {
    match (a, b)
    case (NaN, _) => NaN
    case (_, NaN) => NaN
    case (Infinity(n1), Infinity(n2)) => if n1 == n2 then a else NaN
    case (Infinity(_), _) => a
    case (_, Infinity(_)) => b
    case (Finite(x), Finite(y)) => Finite(x + y)
  }

  function Sum(ds: seq<Double>): Double
  {
    if |ds| == 0 then Finite(0.0) else Add(Sum(ds[..|ds| - 1]), ds[|ds| - 1])
  }

  /** `mapToDouble(...).average().orElse(Double.NaN)`. */
  function Average(ds: seq<Double>): (a: Double)
    ensures |ds| == 0 ==> a == NaN
    ensures |ds| > 0 && Sum(ds).Finite? ==> a.Finite? && a.value * (|ds| as real) == Sum(ds).value
    ensures |ds| > 0 && !Sum(ds).Finite? ==> a == Sum(ds)
  {
    if |ds| == 0 then NaN
    else match Sum(ds)
      case Finite(x) => Finite(x / |ds| as real)
      case other => other
  }

  function Temperatures(batch: seq<Reading>): (ds: seq<Double>)
    ensures |ds| == |batch|
    ensures forall i :: 0 <= i < |batch| ==> ds[i] == Temperature(batch[i])
  {
    seq(|batch|, i requires 0 <= i < |batch| => Temperature(batch[i]))
  }

  /** The exact sum of the values of finite doubles. */
  function Total(ds: seq<Double>): real
  {
    if |ds| == 0 then 0.0
    else Total(ds[..|ds| - 1]) + (if ds[|ds| - 1].Finite? then ds[|ds| - 1].value else 0.0)
  }

  predicate AllWithin(ds: seq<Double>, lo: real, hi: real)
  {
    forall i :: 0 <= i < |ds| ==> ds[i].Finite? && lo <= ds[i].value <= hi
  }

  /** Finite values sum, IEEE style, to their exact sum. */
  lemma {:induction false} SumFinite(ds: seq<Double>, lo: real, hi: real)
    requires AllWithin(ds, lo, hi)
    ensures Sum(ds) == Finite(Total(ds))
  {
    if |ds| > 0 {
      var init := ds[..|ds| - 1];
      assert AllWithin(init, lo, hi) by {
        assert forall i :: 0 <= i < |init| ==> init[i] == ds[i];
      }
      SumFinite(init, lo, hi);
    }
  }

  /** Values within `[lo, hi]` sum to a value within `[n * lo, n * hi]`. */
  lemma {:induction false} TotalBounds(ds: seq<Double>, lo: real, hi: real)
    requires AllWithin(ds, lo, hi)
    ensures |ds| as real * lo <= Total(ds) <= |ds| as real * hi
  {
    if |ds| > 0 {
      var init := ds[..|ds| - 1];
      assert AllWithin(init, lo, hi) by {
        assert forall i :: 0 <= i < |init| ==> init[i] == ds[i];
      }
      TotalBounds(init, lo, hi);
      StepBound(Total(init), |init| as real, lo, hi, ds[|ds| - 1].value);
    }
  }

  lemma StepBound(t: real, n: real, lo: real, hi: real, x: real)
    requires n * lo <= t <= n * hi && lo <= x <= hi
    ensures (n + 1.0) * lo <= t + x <= (n + 1.0) * hi
  {
    assert (n + 1.0) * lo == n * lo + lo;
    assert (n + 1.0) * hi == n * hi + hi;
  }

  /** The average of a non-empty batch of finite temperatures lies between
      the lowest and the highest of them. */
  lemma AverageBounds(ds: seq<Double>, lo: real, hi: real)
    requires |ds| > 0 && AllWithin(ds, lo, hi)
    ensures Average(ds).Finite?
    ensures lo <= Average(ds).value <= hi
  {
    SumFinite(ds, lo, hi);
    TotalBounds(ds, lo, hi);
    QuotientBounds(Total(ds), |ds| as real, lo, hi);
  }

  lemma QuotientBounds(x: real, n: real, lo: real, hi: real)
    requires n > 0.0 && n * lo <= x <= n * hi
    ensures lo <= x / n <= hi
  {
    var q := x / n;
    assert q * n == x;
    assert (q - lo) * n == x - n * lo;
    assert (hi - q) * n == n * hi - x;
  }

  /** The reading the aggregation loop submits for a batch; `show` stands for
      `Double.toString`, which the model does not spell out. */
  function AverageReading(batch: seq<Reading>, show: Double -> string, now: DateTime): (d: Reading)
    ensures d.sensorId == "average" && d.timestamp == FormatStamp(now)
  {
    Reading("average", show(Average(Temperatures(batch))), FormatStamp(now))
  }

  // ---------------------------------------------------------------------------
  // submission

  /** `processData`: the reading is posted re-encoded; unless the cloud
      answers 200 it joins the retry queue and its `toJson` line is appended
      to the cache. Exactly one of the two happens. */
  function ProcessData(s: EdgeState, d: Reading, response: Response): (r: EdgeState)
    ensures r.queue == s.queue && r.retrying == s.retrying
    ensures Acked(response) ==> r == s.(posted := s.posted + [WireJson(d)])
    ensures !Acked(response) ==>
      r.posted == s.posted && r.retryQueue == s.retryQueue + [d]
      && Lines(r.cache) == Lines(s.cache) + [ToJson(d)]
  {
    if Acked(response) then s.(posted := s.posted + [WireJson(d)])
    else s.(retryQueue := s.retryQueue + [d], cache := AppendLine(s.cache, ToJson(d)))
  }

  /** One iteration of `sendAverageDataPeriodically`: drain the queue; an
      empty batch submits nothing, a non-empty one submits exactly one
      average reading stamped with the current time. */
  function AggregateTick(s: EdgeState, show: Double -> string, now: DateTime, response: Response): (r: EdgeState)
    ensures r.queue == []
    ensures s.queue == [] ==> r == s
    ensures s.queue != [] ==>
      var d := AverageReading(s.queue, show, now);
      r == ProcessData(s.(queue := []), d, response)
  {
    var batch := s.queue;
    var drained := s.(queue := []);
    if batch == [] then drained
    else ProcessData(drained, AverageReading(batch, show, now), response)
  }

  /** A tick right after another, with nothing received in between, submits
      nothing: a reading is averaged in exactly one batch. */
  lemma DrainedOnce(s: EdgeState, show: Double -> string, now1: DateTime, now2: DateTime,
                    r1: Response, r2: Response)
    ensures var once := AggregateTick(s, show, now1, r1);
      AggregateTick(once, show, now2, r2) == once
  {
  }

  /** When the whole batch is above the threshold, so is its average, and
      when none of it is, neither is the average. */
  lemma BatchAlert(batch: seq<Reading>, lo: real, hi: real)
    requires |batch| > 0
    requires forall i :: 0 <= i < |batch| ==>
      Temperature(batch[i]).Finite? && lo <= Temperature(batch[i]).value <= hi
    ensures lo > Threshold ==> Exceeds(Average(Temperatures(batch)))
    ensures hi <= Threshold ==> !Exceeds(Average(Temperatures(batch)))
  {
    AverageBounds(Temperatures(batch), lo, hi);
  }

  // ---------------------------------------------------------------------------
  // retries

  /** The edge retry loop parses each cached line and posts it re-encoded;
      a line that does not parse ends the retry thread. */
  function Reencode(line: string): (request: Option<string>)
    ensures request.Some? <==> FromJson(line).Some?
    ensures request.Some? ==> request == Some(WireJson(FromJson(line).value))
  {
    match FromJson(line)
    case None => None
    case Some(d) => Some(WireJson(d))
  }

  /** An unacknowledged reply whose error stream is null: `getErrorStream()`
      returns a stream only for a status of 400 or above that came with a
      body, and `new InputStreamReader(null, ...)` throws a
      `NullPointerException` that nothing in the retry thread catches. An
      exception on the way (`Thrown`) is an `IOException`, caught by the
      pass. */
  predicate NoErrorStream(r: Response)
  {
    r.Status? && r.code != 200 && !(r.code >= 400 && r.errorData)
  }

  /** One tick of `handleRetries` while the retry thread lives: the
      acknowledged prefix of the cache leaves it, its re-encoded lines are
      the acknowledged bodies in order, and a line that does not parse or a
      reply without an error stream ends the thread for good. */
  function RetryStep(s: EdgeState, net: Network): (r: EdgeState)
    ensures r.queue == s.queue && r.retryQueue == s.retryQueue
    ensures !s.retrying ==> r == s
    ensures s.retrying ==> var t := RetryTick(s.cache, Reencode, NoErrorStream, net);
      && r.cache == t.file
      && r.posted == s.posted + t.sent[..AckedCount(t.sent, t.stop)]
      && (r.retrying <==> !Dies(t.stop))
    ensures s.retrying ==> Delivered(s.cache, s.posted, r.cache, r.posted, Reencode)
  {
    if !s.retrying then s
    else
      var d := Deliver(s.cache, s.posted, Reencode, NoErrorStream, net);
      s.(cache := d.file, posted := d.posted, retrying := !Dies(d.stop))
  }

  /** The tick reaches line `k` of the cache: the lines before it parse and
      their attempts are acknowledged. */
  predicate DeliveredUpTo(s: EdgeState, net: Network, k: nat)
  {
    AckedUpTo(Lines(s.cache), Reencode, net, k)
  }

  /** A cached line that does not parse, reached after `k` acknowledged
      attempts, ends the retry thread: the `k` lines before it are
      delivered, the cache keeps it and everything after it, and no later
      tick retries anything. */
  lemma CorruptLineStopsRetries(s: EdgeState, net: Network, k: nat, later: Network)
    requires s.retrying && DeliveredUpTo(s, net, k)
    requires FromJson(Lines(s.cache)[k]).None?
    ensures var r := RetryStep(s, net);
      && !r.retrying && Lines(r.cache) == Lines(s.cache)[k..] && |r.posted| == |s.posted| + k
      && RetryStep(r, later) == r
  {
    DeliverHaltsAt(s.cache, s.posted, Reencode, NoErrorStream, net, k);
    RetryStepDelivers(s, net);
  }

  /** An unacknowledged reply on line `k`, after `k` acknowledged attempts:
      the pass stops there and the cache keeps line `k` and everything after
      it; the retry thread survives exactly when the reply came with an
      error stream. */
  lemma FailedReplyAt(s: EdgeState, net: Network, k: nat)
    requires s.retrying && DeliveredUpTo(s, net, k)
    requires FromJson(Lines(s.cache)[k]).Some? && !Acked(net(k))
    ensures var r := RetryStep(s, net);
      && Lines(r.cache) == Lines(s.cache)[k..] && |r.posted| == |s.posted| + k
      && (r.retrying <==> !NoErrorStream(net(k)))
  {
    assert Reencode(Lines(s.cache)[k]).Some?;
    DeliverFailsAt(s.cache, s.posted, Reencode, NoErrorStream, net, k);
    RetryStepDelivers(s, net);
  }

  /** A live retry thread's tick is a delivery of its cache. */
  lemma RetryStepDelivers(s: EdgeState, net: Network)
    requires s.retrying
    ensures var d := Deliver(s.cache, s.posted, Reencode, NoErrorStream, net);
      RetryStep(s, net) == s.(cache := d.file, posted := d.posted, retrying := !Dies(d.stop))
  {
  }

  /** A failed submission leaves its `toJson` line in the cache
      (`ProcessData`); wherever that line sits when a tick redelivers it,
      the tick posts the very body the first attempt posted, from which the
      cloud reads back the same reading. */
  lemma RetryPostsSameBody(t: EdgeState, d: Reading, net: Network, n: nat)
    requires Clean(d.sensorId) && Clean(d.timestamp) && Clean(d.temperature)
    requires ParseDouble(d.temperature).Some?
    requires t.retrying && n < |Lines(t.cache)| && Lines(t.cache)[n] == ToJson(d)
    ensures var r := RetryStep(t, net);
      |t.posted| + n < |r.posted| ==> r.posted[|t.posted| + n] == WireJson(d)
    ensures FromJson(WireJson(d)) == Some(d)
  {
    ReencodeCached(d);
    FromJsonWireJson(d);
    DeliverPostsLine(t.cache, t.posted, Reencode, NoErrorStream, net, n);
  }

  /** A cached `toJson` line re-encodes to the body the first attempt posted. */
  lemma ReencodeCached(d: Reading)
    requires Clean(d.sensorId) && Clean(d.timestamp) && Clean(d.temperature)
    requires ParseDouble(d.temperature).Some?
    ensures Reencode(ToJson(d)) == Some(WireJson(d))
  {
    FromJsonToJson(d);
  }
}
