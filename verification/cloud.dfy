/**
  The cloud component (`CloudComponent.java`): an HTTP handler that parses
  each posted reading and, when its temperature is above 25 degrees, sends a
  warning to the edge device, caching the warning with a time stamp when that
  fails; and a retry loop that resends every cached warning each tick and
  rewrites the cache with the ones that failed again.

  Unlike the other two tiers, the cloud attempts every cached line, in order,
  and does not stop at the first failure; a line without a space makes
  `split(" ", 2)[1]` throw, which nothing catches, so the retry thread ends
  there without rewriting the file.
*/
module Cloud {
  import opened Optional
  import opened Text
  import opened Numbers
  import opened Records
  import opened CacheLog

  /** The cache file and whether the retry thread is still alive. */
  datatype CloudState = CloudState(cache: CacheFile, retrying: bool)

  const WarningPrefix: string := "Warning: Average temperature "
  const WarningSuffix: string := " exceeds 25 degrees."
  const ResentInfix: string := " (from cache, sent at "

  /** `String.format("Warning: Average temperature %.2f exceeds 25 degrees.", t)`. */
  function WarningMessage(t: Double): (m: string)
    ensures |m| == |WarningPrefix| + |Fixed2(t)| + |WarningSuffix|
    ensures m[..|WarningPrefix|] == WarningPrefix && m[|m| - |WarningSuffix|..] == WarningSuffix
    ensures m[|WarningPrefix|..|m| - |WarningSuffix|] == Fixed2(t)
  {
    WarningPrefix + Fixed2(t) + WarningSuffix
  }

  /** The line `cacheWarningMessage` appends: the stamp, a space, the warning. */
  function CacheLine(stamp: string, warning: string): (line: string)
    ensures ' ' !in stamp ==> SplitFirst(line, ' ') == [stamp, warning]
  {
    StampSplitsOff(stamp, warning);
    stamp + " " + warning
  }

  /** A stamp without a space is what `split(" ", 2)` cuts off the line. */
  lemma StampSplitsOff(stamp: string, warning: string)
    ensures ' ' !in stamp ==> SplitFirst(stamp + " " + warning, ' ') == [stamp, warning]
  {
    if ' ' !in stamp {
      SplitFirstRecovers(stamp, warning, ' ');
    }
  }

  /** What the retry loop sends for a cached line: the text after the first
      space, tagged with the text before it. A line without a space has no
      second piece, and `None` stands for the exception that ends the thread. */
  function Resend(line: string): (payload: Option<string>)
    ensures payload.None? <==> ' ' !in line
  {
    var parts := SplitFirst(line, ' ');
    if |parts| < 2 then None
    else
      assert line == CacheLine(parts[0], parts[1]);
      Some(parts[1] + ResentInfix + parts[0] + ")")
  }

  /** A cached warning is resent whole, tagged with the stamp it was cached
      under: the stamp has no space, so the split falls right after it. */
  lemma ResendCacheLine(now: DateTime, warning: string)
    ensures Resend(CacheLine(FormatStamp(now), warning))
         == Some(warning + ResentInfix + FormatStamp(now) + ")")
  {
    StampIsClean(now);
    SplitFirstRecovers(FormatStamp(now), warning, ' ');
  }

  // ---------------------------------------------------------------------------
  // the data handler

  /** The status answered, the warning raised (if any), and the component
      after the exchange. */
  datatype Outcome = Outcome(status: int, warning: Option<string>, state: CloudState)

  /** The request text the handler builds: `readLine` ends a line at every
      `\n`, `\r` or `\r\n`, and the lines are appended without their
      terminators, so the body loses its line terminators and nothing
      else. */
  function ReadBody(body: string): (text: string)
    ensures '\n' !in text && '\r' !in text
    ensures forall ch :: ch in text ==> ch in body
    ensures '\n' !in body && '\r' !in body ==> text == body
    ensures |text| == |body| - Count(body, '\n') - Count(body, '\r')
  {
    TerminatorsDropped(body);
    Remove(Remove(body, '\n'), '\r')
  }

  /** Dropping both terminators drops exactly their occurrences, and
      nothing from a body that has none. */
  lemma TerminatorsDropped(body: string)
    ensures '\n' !in body && '\r' !in body ==> Remove(Remove(body, '\n'), '\r') == body
    ensures |Remove(Remove(body, '\n'), '\r')| == |body| - Count(body, '\n') - Count(body, '\r')
  {
    CountRemoveOther(body, '\n', '\r');
    if '\n' !in body && '\r' !in body {
      RemoveAbsent(body, '\n');
      RemoveAbsent(body, '\r');
    }
  }

  /** The handler reads a body piece by piece: the text of a concatenation
      is the concatenation of the texts, so each piece keeps every
      character other than a terminator, in order. */
  lemma ReadBodyAppend(a: string, b: string)
    ensures ReadBody(a + b) == ReadBody(a) + ReadBody(b)
  {
    RemoveAppend(a, b, '\n');
    RemoveAppend(Remove(a, '\n'), Remove(b, '\n'), '\r');
  }

  /** Two lines joined by a line feed are read as one text, as when a
      number is split across lines: the two halves meet again. */
  lemma ReadBodyJoins(a: string, c: string)
    requires NoTerminator(a) && NoTerminator(c)
    ensures ReadBody(a + "\n" + c) == a + c
  {
    ReadBodyAppend(a + "\n", c);
    ReadBodyAppend(a, "\n");
    assert ReadBody("\n") == "" by {
      assert Count("\n", '\n') == 1;
    }
  }

  /** The warning a parsed request raises: one exactly when its temperature
      is above the threshold (false for NaN, true for positive infinity). */
  function Alert(data: Option<Reading>): (warning: Option<string>)
    ensures warning.Some? <==> data.Some? && Exceeds(Temperature(data.value))
    ensures warning.Some? ==> warning.value == WarningMessage(Temperature(data.value))
  {
    if data.Some? && Exceeds(Temperature(data.value)) then Some(WarningMessage(Temperature(data.value)))
    else None
  }

  /** `DataHandler.handle`: every POST is answered 200, whether or not its
      body, read line by line, parses; a reading above the threshold raises
      exactly one warning. Other methods get 405 and change nothing. */
  function Handle(s: CloudState, httpMethod: string, body: string, now: DateTime, response: Response): (o: Outcome)
    ensures o.status == 200 <==> httpMethod == "POST"
    ensures o.status != 200 ==> o.status == 405 && o.state == s && o.warning.None?
    ensures o.status == 200 ==> o.warning == Alert(FromJson(ReadBody(body)))
    ensures o.state.retrying == s.retrying
    ensures o.warning.Some? && !Acked(response) ==>
      Lines(o.state.cache) == Lines(s.cache) + [CacheLine(FormatStamp(now), o.warning.value)]
    ensures o.warning.None? || Acked(response) ==> o.state == s
  {
    if httpMethod != "POST" then Outcome(405, None, s)
    else
      var warning := Alert(FromJson(ReadBody(body)));
      Outcome(200, warning, Warn(s, warning, now, response))
  }

  /** The warning, if any, is sent to the edge device and cached, stamped
      with the current time, when that send is not acknowledged. */
  function Warn(s: CloudState, warning: Option<string>, now: DateTime, response: Response): (r: CloudState)
    ensures r.retrying == s.retrying
    ensures warning.Some? && !Acked(response) ==>
      Lines(r.cache) == Lines(s.cache) + [CacheLine(FormatStamp(now), warning.value)]
    ensures warning.None? || Acked(response) ==> r == s
  {
    if warning.None? || Acked(response) then s
    else s.(cache := AppendLine(s.cache, CacheLine(FormatStamp(now), warning.value)))
  }

  /** A plain decimal is a clean field. */
  lemma DecimalClean(whole: string, fraction: string)
    requires |whole| > 0 && AllDigits(whole) && AllDigits(fraction)
    ensures Clean(whole + "." + fraction)
  {
    var t := whole + "." + fraction;
    forall i | 0 <= i < |t|
      ensures !IsSpecial(t[i])
    {
      if i < |whole| {
        assert t[i] == whole[i];
      } else if i > |whole| {
        assert t[i] == fraction[i - |whole| - 1];
      }
    }
    assert t[0] == whole[0];
  }

  /** A plain decimal is a clean field, parses, and exceeds the threshold
      exactly when its digits, scaled, do. */
  lemma DecimalField(whole: string, fraction: string, t: string)
    requires |whole| > 0 && AllDigits(whole) && AllDigits(fraction)
    requires t == whole + "." + fraction
    ensures Clean(t) && ParseDouble(t).Some?
    ensures Exceeds(ParseDouble(t).value) <==> DigitsValue(whole + fraction) > 25 * Pow10(|fraction|)
  {
    ExceedsDecimal(whole, fraction);
    DecimalClean(whole, fraction);
  }

  /** A reading the edge device posts is judged on its own temperature;
      with `DecimalField` this makes the threshold strict on the exact
      decimal sent: `25.0` and `25.00` raise nothing, `25.01` does. */
  lemma WireReadingAlert(s: CloudState, d: Reading, now: DateTime, response: Response)
    requires Clean(d.sensorId) && Clean(d.timestamp) && Clean(d.temperature)
    requires ParseDouble(d.temperature).Some?
    requires NoTerminator(d.sensorId) && NoTerminator(d.temperature) && NoTerminator(d.timestamp)
    ensures Handle(s, "POST", WireJson(d), now, response).warning.Some?
        <==> Exceeds(ParseDouble(d.temperature).value)
  {
    FromJsonWireJson(d);
    WireJsonOneLine(d);
  }

  /** The body the edge device posts for such a reading is one line, so the
      handler reads it back unchanged. */
  lemma WireJsonOneLine(d: Reading)
    requires NoTerminator(d.sensorId) && NoTerminator(d.temperature) && NoTerminator(d.timestamp)
    ensures ReadBody(WireJson(d)) == WireJson(d)
  {
    var body := Body(d, " ");
    assert NoTerminator(IdPiece(d.sensorId));
    assert NoTerminator(TemperaturePiece(" ", d.temperature));
    assert NoTerminator(StampPiece(d.timestamp));
    assert NoTerminator(body);
    assert NoTerminator(WireJson(d));
  }

  /** A field the handler reads back unchanged: it holds no line
      terminator. */
  predicate NoTerminator(field: string)
  {
    '\n' !in field && '\r' !in field
  }

  // ---------------------------------------------------------------------------
  // the retry loop

  /** The attempts of one tick from line `i` on, the lines kept, the indices
      they were read at, and whether a line without a space ended the
      thread. */
  datatype CloudPass = CloudPass(sent: seq<string>, kept: seq<string>, keptAt: seq<nat>, halted: bool)

  predicate Increasing(xs: seq<nat>)
  {
    forall a, b :: 0 <= a < b < |xs| ==> xs[a] < xs[b]
  }

  /** The `for (String line : lines)` loop from line `i` on: each line is
      rewritten by `resend` (for the component, `Resend`), sent, and kept when
      the send fails; a line `resend` cannot rewrite ends the loop and the
      thread. */
  function FilterFrom(lines: seq<string>, resend: string -> Option<string>, net: Network, i: nat): (p: CloudPass)
    requires i <= |lines|
    ensures i + |p.sent| <= |lines|
    ensures |p.kept| == |p.keptAt| <= |p.sent|
    decreases |lines| - i
  {
    if i == |lines| then CloudPass([], [], [], false)
    else match resend(lines[i])
      case None => CloudPass([], [], [], true)
      case Some(payload) =>
        var rest := FilterFrom(lines, resend, net, i + 1);
        if Acked(net(i)) then CloudPass([payload] + rest.sent, rest.kept, rest.keptAt, rest.halted)
        else CloudPass([payload] + rest.sent, [lines[i]] + rest.kept, [i] + rest.keptAt, rest.halted)
  }

  /** The pass halts exactly when it stops short of the end, and then at a
      line without a space. */
  lemma {:induction false} FilterHalts(lines: seq<string>, resend: string -> Option<string>, net: Network, i: nat)
    requires i <= |lines|
    ensures var p := FilterFrom(lines, resend, net, i);
      && (p.halted <==> i + |p.sent| < |lines|)
      && (p.halted ==> resend(lines[i + |p.sent|]).None?)
    decreases |lines| - i
  {
    if i < |lines| && resend(lines[i]).Some? {
      FilterHalts(lines, resend, net, i + 1);
      var rest := FilterFrom(lines, resend, net, i + 1);
      var p := FilterFrom(lines, resend, net, i);
      assert |p.sent| == 1 + |rest.sent| && p.halted == rest.halted;
    }
  }

  /** Every line before that one is resent, in order. */
  lemma {:induction false} FilterResends(lines: seq<string>, resend: string -> Option<string>, net: Network, i: nat)
    requires i <= |lines|
    ensures var p := FilterFrom(lines, resend, net, i);
      forall j :: i <= j < i + |p.sent| ==> resend(lines[j]) == Some(p.sent[j - i])
    decreases |lines| - i
  {
    if i < |lines| && resend(lines[i]).Some? {
      FilterResends(lines, resend, net, i + 1);
      var rest := FilterFrom(lines, resend, net, i + 1);
      var p := FilterFrom(lines, resend, net, i);
      assert p.sent == [resend(lines[i]).value] + rest.sent;
      assert resend(lines[i]) == Some(p.sent[0]);
      forall j | i < j < i + |p.sent|
        ensures resend(lines[j]) == Some(p.sent[j - i])
      {
        assert p.sent[j - i] == rest.sent[j - (i + 1)];
      }
    }
  }

  lemma FilterResendsAll(lines: seq<string>, resend: string -> Option<string>, net: Network)
    ensures var p := FilterFrom(lines, resend, net, 0);
      forall j :: 0 <= j < |p.sent| ==> resend(lines[j]) == Some(p.sent[j])
  {
    FilterResends(lines, resend, net, 0);
    var p := FilterFrom(lines, resend, net, 0);
    assert forall j :: 0 <= j < |p.sent| ==> p.sent[j - 0] == p.sent[j];
  }

  /** The lines kept are the lines at the kept indices, in increasing
      order. */
  lemma {:induction false} FilterKeepsOrder(lines: seq<string>, resend: string -> Option<string>, net: Network, i: nat)
    requires i <= |lines|
    ensures var p := FilterFrom(lines, resend, net, i);
      && Increasing(p.keptAt)
      && (forall k :: 0 <= k < |p.keptAt| ==> i <= p.keptAt[k] < i + |p.sent| && p.kept[k] == lines[p.keptAt[k]])
    decreases |lines| - i
  {
    if i < |lines| && resend(lines[i]).Some? && !Acked(net(i)) {
      FilterKeepsOrder(lines, resend, net, i + 1);
      var rest := FilterFrom(lines, resend, net, i + 1);
      var p := FilterFrom(lines, resend, net, i);
      assert p.keptAt == [i] + rest.keptAt && p.kept == [lines[i]] + rest.kept;
      assert forall k :: 0 < k < |p.keptAt| ==> p.keptAt[k] == rest.keptAt[k - 1] && p.kept[k] == rest.kept[k - 1];
    } else if i < |lines| && resend(lines[i]).Some? {
      FilterKeepsOrder(lines, resend, net, i + 1);
    }
  }

  /** A line is kept exactly when its resend failed. */
  lemma {:induction false} FilterKeepsFailed(lines: seq<string>, resend: string -> Option<string>, net: Network, i: nat)
    requires i <= |lines|
    ensures var p := FilterFrom(lines, resend, net, i);
      forall j :: i <= j < i + |p.sent| ==> (j in p.keptAt <==> !Acked(net(j)))
    decreases |lines| - i
  {
    if i < |lines| && resend(lines[i]).Some? {
      FilterKeepsFailed(lines, resend, net, i + 1);
      FilterKeepsOrder(lines, resend, net, i + 1);
      var rest := FilterFrom(lines, resend, net, i + 1);
      assert forall k :: 0 <= k < |rest.keptAt| ==> i < rest.keptAt[k];
      assert i !in rest.keptAt;
    }
  }

  /** The outcome of one tick: the component after it, the warnings sent in
      order, and the indices of the lines that were kept. */
  datatype CloudTick = CloudTick(state: CloudState, sent: seq<string>, keptAt: seq<nat>)

  /** `kept`, read at the increasing indices `keptAt`, are exactly the lines
      whose resend failed, in their original order. */
  predicate Survivors(lines: seq<string>, net: Network, keptAt: seq<nat>, kept: seq<string>)
  {
    && |kept| == |keptAt| && Increasing(keptAt)
    && (forall k :: 0 <= k < |keptAt| ==> keptAt[k] < |lines| && kept[k] == lines[keptAt[k]])
    && (forall j :: 0 <= j < |lines| ==> (j in keptAt <==> !Acked(net(j))))
  }

  /** A pass over the whole file that does not halt keeps exactly the lines
      whose resend failed. */
  lemma FilterSurvivors(lines: seq<string>, resend: string -> Option<string>, net: Network)
    ensures var p := FilterFrom(lines, resend, net, 0);
      !p.halted ==> |p.sent| == |lines| && Survivors(lines, net, p.keptAt, p.kept)
  {
    FilterHalts(lines, resend, net, 0);
    FilterKeepsOrder(lines, resend, net, 0);
    FilterKeepsFailed(lines, resend, net, 0);
  }

  /** One tick of `retryCachedMessages`. A missing file is an `IOException`
      that is caught: nothing happens. Otherwise every line is resent and the
      file is rewritten with exactly the lines whose resend failed, in order;
      a line without a space ends the thread and the file is left as read. */
  function RetryCached(s: CloudState, net: Network): (t: CloudTick)
    ensures !s.retrying || s.cache.Missing? ==> t == CloudTick(s, [], [])
    ensures t.state.retrying <==>
      s.retrying && forall j :: 0 <= j < |Lines(s.cache)| ==> ' ' in Lines(s.cache)[j]
    ensures !t.state.retrying ==> t.state.cache == s.cache
    ensures |t.sent| <= |Lines(s.cache)|
    ensures forall j :: 0 <= j < |t.sent| ==> Resend(Lines(s.cache)[j]) == Some(t.sent[j])
    ensures t.state.retrying && s.cache.Present? ==>
      && t.state.cache.Present? && |t.sent| == |Lines(s.cache)|
      && Survivors(Lines(s.cache), net, t.keptAt, Lines(t.state.cache))
  {
    if !s.retrying then CloudTick(s, [], [])
    else match s.cache
      case Missing => CloudTick(s, [], [])
      case Present(lines) =>
        var p := FilterFrom(lines, Resend, net, 0);
        FilterHalts(lines, Resend, net, 0);
        FilterResendsAll(lines, Resend, net);
        FilterSurvivors(lines, Resend, net);
        if p.halted then
          assert ' ' !in Lines(s.cache)[|p.sent|];
          CloudTick(s.(retrying := false), p.sent, [])
        else CloudTick(s.(cache := Present(p.kept)), p.sent, p.keptAt)
  }

  /** When every resend is acknowledged the cache ends empty. */
  lemma AllAckedEmpties(s: CloudState, net: Network)
    requires s.retrying && s.cache.Present?
    requires forall j :: 0 <= j < |s.cache.lines| ==> ' ' in s.cache.lines[j] && Acked(net(j))
    ensures RetryCached(s, net).state == s.(cache := Present([]))
  {
    FilterAllAcked(s.cache.lines, Resend, net, 0);
  }

  lemma {:induction false} FilterAllAcked(lines: seq<string>, resend: string -> Option<string>, net: Network, i: nat)
    requires i <= |lines|
    requires forall j :: i <= j < |lines| ==> resend(lines[j]).Some? && Acked(net(j))
    ensures FilterFrom(lines, resend, net, i).kept == [] && !FilterFrom(lines, resend, net, i).halted
    decreases |lines| - i
  {
    if i < |lines| {
      FilterAllAcked(lines, resend, net, i + 1);
    }
  }

  /** When no resend is acknowledged the cache is rewritten unchanged. */
  lemma NoneAckedKeepsAll(s: CloudState, net: Network)
    requires s.retrying && s.cache.Present?
    requires forall j :: 0 <= j < |s.cache.lines| ==> ' ' in s.cache.lines[j] && !Acked(net(j))
    ensures RetryCached(s, net).state == s
  {
    FilterNoneAcked(s.cache.lines, Resend, net, 0);
    assert s.cache.lines[0..] == s.cache.lines;
  }

  lemma {:induction false} FilterNoneAcked(lines: seq<string>, resend: string -> Option<string>, net: Network, i: nat)
    requires i <= |lines|
    requires forall j :: i <= j < |lines| ==> resend(lines[j]).Some? && !Acked(net(j))
    ensures FilterFrom(lines, resend, net, i).kept == lines[i..] && !FilterFrom(lines, resend, net, i).halted
    decreases |lines| - i
  {
    if i < |lines| {
      FilterNoneAcked(lines, resend, net, i + 1);
      assert lines[i..] == [lines[i]] + lines[i + 1..];
    }
  }

  /** Lines the handler wrote never end the retry thread. */
  lemma CachedWarningsKeepRetrying(s: CloudState, net: Network, stamps: seq<DateTime>, warnings: seq<string>)
    requires s.retrying && |stamps| == |warnings|
    requires Lines(s.cache) == seq(|stamps|, j requires 0 <= j < |stamps| => CacheLine(FormatStamp(stamps[j]), warnings[j]))
    ensures RetryCached(s, net).state.retrying
  {
    forall j | 0 <= j < |Lines(s.cache)|
      ensures ' ' in Lines(s.cache)[j]
    {
      assert Lines(s.cache)[j][|FormatStamp(stamps[j])|] == ' ';
    }
  }

  /** The loop of `retryCachedMessages` as written: collect the lines whose
      resend fails, stopping where `parts[1]` throws. */
  method RunFilter(lines: seq<string>, net: Network) returns (sent: seq<string>, remaining: seq<string>, halted: bool)
    ensures var p := FilterFrom(lines, Resend, net, 0); sent == p.sent && remaining == p.kept && halted == p.halted
  {
    sent := [];
    remaining := [];
    var keptAt: seq<nat> := [];
    var i := 0;
    FilterAccumulates(lines, Resend, net, 0, [], [], []);
    JoinedStart(FilterFrom(lines, Resend, net, 0));
    while i < |lines|
      invariant i <= |lines|
      invariant FilterFrom(lines, Resend, net, 0) == FilterAcc(lines, Resend, net, i, sent, remaining, keptAt)
    {
      var warning := Resend(lines[i]);
      if warning.None? {
        halted := true;
        return;
      }
      sent := sent + [warning.value];
      if !Acked(net(i)) {
        remaining := remaining + [lines[i]];
        keptAt := keptAt + [i];
      }
      i := i + 1;
    }
    halted := false;
  }

  /** The pass as the loop computes it, with what it collected before line
      `i`. */
  function FilterAcc(lines: seq<string>, resend: string -> Option<string>, net: Network, i: nat, sent: seq<string>, kept: seq<string>,
                     keptAt: seq<nat>): (p: CloudPass)
    requires i <= |lines|
    ensures |p.sent| <= |sent| + |lines| - i
    ensures !p.halted ==> |p.sent| == |sent| + |lines| - i
    decreases |lines| - i
  {
    if i == |lines| then CloudPass(sent, kept, keptAt, false)
    else match resend(lines[i])
      case None => CloudPass(sent, kept, keptAt, true)
      case Some(payload) =>
        if Acked(net(i)) then FilterAcc(lines, resend, net, i + 1, sent + [payload], kept, keptAt)
        else FilterAcc(lines, resend, net, i + 1, sent + [payload], kept + [lines[i]], keptAt + [i])
  }

  /** `p` after the attempts `sent`, keeping `kept` read at `keptAt`. */
  function Joined(sent: seq<string>, kept: seq<string>, keptAt: seq<nat>, p: CloudPass): CloudPass
  {
    CloudPass(sent + p.sent, kept + p.kept, keptAt + p.keptAt, p.halted)
  }

  lemma JoinedStart(p: CloudPass)
    ensures Joined([], [], [], p) == p
  {
    assert [] + p.sent == p.sent && [] + p.kept == p.kept && [] + p.keptAt == p.keptAt;
  }

  /** The loop's accumulated pass is the recursive pass with what was
      collected before it. */
  lemma {:induction false} FilterAccumulates(lines: seq<string>, resend: string -> Option<string>, net: Network, i: nat, sent: seq<string>,
                                             kept: seq<string>, keptAt: seq<nat>)
    requires i <= |lines|
    ensures FilterAcc(lines, resend, net, i, sent, kept, keptAt) == Joined(sent, kept, keptAt, FilterFrom(lines, resend, net, i))
    decreases |lines| - i
  {
    if i == |lines| || resend(lines[i]).None? {
      assert sent + [] == sent && kept + [] == kept && keptAt + [] == keptAt;
    } else {
      var payload := resend(lines[i]).value;
      var rest := FilterFrom(lines, resend, net, i + 1);
      assert sent + ([payload] + rest.sent) == sent + [payload] + rest.sent;
      if Acked(net(i)) {
        FilterAccumulates(lines, resend, net, i + 1, sent + [payload], kept, keptAt);
      } else {
        FilterAccumulates(lines, resend, net, i + 1, sent + [payload], kept + [lines[i]], keptAt + [i]);
        assert kept + ([lines[i]] + rest.kept) == kept + [lines[i]] + rest.kept;
        assert keptAt + ([i] + rest.keptAt) == keptAt + [i] + rest.keptAt;
      }
    }
  }
}
