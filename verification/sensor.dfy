/**
  The sensor (`Sensor.java`): a producer loop that posts one reading per
  iteration to the edge device and appends it to this sensor's cache file
  when the post fails, and a retry loop that redelivers the cached lines
  with the head-of-log discipline, posting each line exactly as it was
  cached. Both loops run while the shared `running` flag is set.

  `posted` is not state of the program: it records, in order, the bodies the
  edge device acknowledged, so that "delivered or still cached" can be
  stated.
*/
module Sensor {
  import opened Optional
  import opened Text
  import opened CacheLog
  import opened Records
  import opened HeadRetry

  const CachePrefix: string := "sensor_cache_"
  const CacheSuffix: string := ".txt"

  /** The cache file name the constructor picks for a sensor id. */
  function CacheName(sensorId: string): (name: string)
    ensures |name| == |CachePrefix| + |sensorId| + |CacheSuffix|
    ensures name[..|CachePrefix|] == CachePrefix
    ensures name[|name| - |CacheSuffix|..] == CacheSuffix
    ensures name[|CachePrefix|..|name| - |CacheSuffix|] == sensorId
  {
    CachePrefix + sensorId + CacheSuffix
  }

  /** Distinct sensors never share a cache file. */
  lemma CacheNamesDistinct(a: string, b: string)
    ensures CacheName(a) == CacheName(b) ==> a == b
  {
    if CacheName(a) == CacheName(b) {
      var n := CacheName(a);
      assert a == n[|CachePrefix|..|n| - |CacheSuffix|];
    }
  }

  /** A sensor: its id, the `running` flag both loops test, its cache file,
      and the bodies acknowledged so far. */
  datatype SensorState = SensorState(sensorId: string, running: bool, cache: CacheFile, posted: seq<string>)

  /** The sensor's retry loop posts a cached line as it is. */
  function Verbatim(line: string): Option<string>
  {
    Some(line)
  }

  /** `sendData` catches every exception and reports it as a failure, so no
      response ends the sensor's retry loop. */
  predicate Caught(r: Response)
  {
    false
  }

  /** The body of one iteration of `run`: build the reading's line, post it,
      and cache it when the post is not acknowledged. Once `running` is
      cleared the loop has exited and nothing happens. */
  function Produce(s: SensorState, temperature: string, now: DateTime, response: Response): (r: SensorState)
    ensures r.sensorId == s.sensorId && r.running == s.running
    ensures !s.running ==> r == s
    ensures s.running ==>
      var line := ToJson(Reading(s.sensorId, temperature, FormatStamp(now)));
      (Acked(response) ==> r.posted == s.posted + [line] && r.cache == s.cache)
      && (!Acked(response) ==> r.posted == s.posted && Lines(r.cache) == Lines(s.cache) + [line])
  {
    if !s.running then s
    else
      var line := ToJson(Reading(s.sensorId, temperature, FormatStamp(now)));
      if Acked(response) then s.(posted := s.posted + [line])
      else s.(cache := AppendLine(s.cache, line))
  }

  /** One tick of `handleRetries` while `running` is set: the acknowledged
      prefix of the cache moves, in order, to the posted bodies. */
  function Retry(s: SensorState, net: Network): (r: SensorState)
    ensures r.sensorId == s.sensorId && r.running == s.running
    ensures !s.running ==> r == s
    ensures s.running ==> var t := RetryTick(s.cache, Verbatim, Caught, net);
      && r.cache == t.file
      && r.posted == s.posted + t.sent[..AckedCount(t.sent, t.stop)]
      && t.stop != Crashed && t.stop != Halted
    ensures |s.posted| <= |r.posted| <= |s.posted| + RetryBatch && r.posted[..|s.posted|] == s.posted
    ensures r.posted + Lines(r.cache) == s.posted + Lines(s.cache)
  {
    if !s.running then s
    else
      var d := Deliver(s.cache, s.posted, Verbatim, Caught, net);
      NeverDies(s.cache, net);
      VerbatimMoves(s.cache, s.posted, d.file, d.posted);
      s.(cache := d.file, posted := d.posted)
  }

  /** Every line is a request and no failure escapes, so the sensor's
      retry loop never ends on its own. */
  lemma NeverDies(file: CacheFile, net: Network)
    ensures RetryTick(file, Verbatim, Caught, net).stop != Crashed
    ensures RetryTick(file, Verbatim, Caught, net).stop != Halted
  {
    if file.Present? {
      StopCases(file.lines, Verbatim, Caught, net);
      AttemptsFromStart(file.lines, Verbatim, Caught, net);
    }
  }

  /** A delivery of lines posted as they are moves the acknowledged prefix
      of the file, unchanged, to the end of `posted`. */
  lemma VerbatimMoves(file: CacheFile, posted: seq<string>, file': CacheFile, posted': seq<string>)
    requires Delivered(file, posted, file', posted', Verbatim)
    ensures posted' + Lines(file') == posted + Lines(file)
  {
    var k := |posted'| - |posted|;
    var moved := Lines(file)[..k];
    assert posted' == posted + moved by {
      forall j | |posted| <= j < |posted'|
        ensures posted'[j] == moved[j - |posted|]
      {
        assert Verbatim(Lines(file)[j - |posted|]) == Some(posted'[j]);
      }
    }
    calc {
      posted' + Lines(file');
      posted + moved + Lines(file');
      posted + (moved + Lines(file'));
      posted + Lines(file);
    }
  }

  /** `stop()`. */
  function StopSensor(s: SensorState): (r: SensorState)
    ensures !r.running
    ensures r.cache == s.cache && r.posted == s.posted
  {
    s.(running := false)
  }

  /** What can happen to a sensor, in some interleaving of its two loops and
      its owner. */
  datatype Event =
    | Generated(temperature: string, now: DateTime, response: Response)
    | RetryTicked(net: Network)
    | StopCalled

  function Step(s: SensorState, e: Event): SensorState
  {
    match e
    case Generated(temperature, now, response) => Produce(s, temperature, now, response)
    case RetryTicked(net) => Retry(s, net)
    case StopCalled => StopSensor(s)
  }

  function Run(s: SensorState, events: seq<Event>): SensorState
    decreases |events|
  {
    if |events| == 0 then s else Run(Step(s, events[0]), events[1..])
  }

  /** The line the producer loop builds on event `e`, if any. */
  function Built(s: SensorState, e: Event): seq<string>
  {
    if s.running && e.Generated? then [ToJson(Reading(s.sensorId, e.temperature, FormatStamp(e.now)))] else []
  }

  /** The lines the producer loop built during `events`. */
  function Readings(s: SensorState, events: seq<Event>): seq<string>
    decreases |events|
  {
    if |events| == 0 then [] else Built(s, events[0]) + Readings(Step(s, events[0]), events[1..])
  }

  /** Everything the sensor is answerable for: what was acknowledged plus
      what is still cached. */
  function Accounted(s: SensorState): multiset<string>
  {
    multiset(s.posted) + multiset(Lines(s.cache))
  }

  /** One event adds to what is accounted for exactly the line it built. */
  lemma StepAccounts(s: SensorState, e: Event)
    ensures Accounted(Step(s, e)) == Accounted(s) + multiset(Built(s, e))
  {
    match e
    case Generated(temperature, now, response) =>
    case RetryTicked(net) =>
      AccountedWhole(s);
      AccountedWhole(Retry(s, net));
    case StopCalled =>
  }

  lemma AccountedWhole(s: SensorState)
    ensures Accounted(s) == multiset(s.posted + Lines(s.cache))
  {
  }

  /** Never lost, never duplicated: whatever the responses, every line the
      producer built is either acknowledged or still cached, exactly once,
      together with what was there before. */
  lemma {:induction false} Conservation(s: SensorState, events: seq<Event>)
    ensures Accounted(Run(s, events)) == Accounted(s) + multiset(Readings(s, events))
    decreases |events|
  {
    if |events| > 0 {
      var s' := Step(s, events[0]);
      Conservation(s', events[1..]);
      StepAccounts(s, events[0]);
      assert multiset(Readings(s, events))
          == multiset(Built(s, events[0])) + multiset(Readings(s', events[1..]));
    }
  }

  /** After `stop()` both loops have exited: no event changes the sensor
      and no further reading is built. */
  lemma {:induction false} StoppedIsFinal(s: SensorState, events: seq<Event>)
    requires !s.running
    ensures Run(s, events) == s
    ensures Readings(s, events) == []
    decreases |events|
  {
    if |events| > 0 {
      StoppedIsFinal(Step(s, events[0]), events[1..]);
    }
  }
}
