/**
  The retry discipline of the sensor and the edge device (`handleRetries` in
  both): every tick reads the cache file, and for its oldest lines in order,
  at most 25 of them, turns the line into a request, posts it, and on success
  deletes the first line of the file; the first failure ends the tick.

  The two tiers differ only in how a line becomes a request and in which
  failures escape the thread, so the pass is written once over `prepare`
  and `fatal`: the sensor posts the line as it is and catches every failure;
  the edge device parses the line and re-encodes it, a line it cannot parse
  ends its retry thread (`None` here), and so does a reply whose failure
  throws an unchecked exception (`fatal` here).

  The reader and `deleteFirstLine` work on the same file; the model reads
  the lines once at the start of the tick and lets each deletion rewrite the
  current content.
*/
module HeadRetry {
  import opened Optional
  import opened Text
  import opened CacheLog

  /** At most this many lines are attempted per tick (`count++ < 25`). */
  const RetryBatch: nat := 25

  /** Why a tick ended. */
  datatype Stop =
    | Exhausted    // every line read was delivered
    | Capped       // 25 lines were delivered and more remain
    | Refused      // an attempt failed: status other than 200, or an IOException
    | Crashed      // an attempt failed with an unchecked exception; the retry thread dies
    | Halted       // a line could not be turned into a request; the retry thread dies
    | Unreadable   // the cache file could not be opened; the tick is skipped

  /** One pass over the lines read at the start of a tick: the file content
      it leaves, the requests it posted in order, and why it stopped. */
  datatype Pass = Pass(log: seq<string>, sent: seq<string>, stop: Stop)

  /** A stop on a failed attempt: the last request posted was not
      acknowledged. */
  predicate FailedLast(stop: Stop) {
    stop == Refused || stop == Crashed
  }

  /** A stop that ends the retry thread. */
  predicate Dies(stop: Stop) {
    stop == Crashed || stop == Halted
  }

  /** Number of posted requests that were acknowledged: all of them, except
      the last one when the pass stopped on a failed attempt. */
  function Acknowledged(p: Pass): nat
  {
    AckedCount(p.sent, p.stop)
  }

  function AckedCount(sent: seq<string>, stop: Stop): nat
  {
    if FailedLast(stop) && |sent| > 0 then |sent| - 1 else |sent|
  }

  /** The requests posted from the `i`-th line read on, and why the pass
      stopped. */
  datatype Attempts = Attempts(sent: seq<string>, stop: Stop)

  /** The attempts from the `i`-th line read on: the requests are the
      prepared lines `i`, `i+1`, ... in order. `AttemptsStop` says which of
      them were acknowledged and which rule ended the pass. */
  function AttemptsFrom(snapshot: seq<string>, prepare: string -> Option<string>, fatal: Response -> bool, net: Network, i: nat): (a: Attempts)
    requires i <= |snapshot| && i <= RetryBatch
    ensures a.stop != Unreadable
    ensures i + |a.sent| <= |snapshot| && i + |a.sent| <= RetryBatch
    ensures forall j :: 0 <= j < |a.sent| ==> prepare(snapshot[i + j]) == Some(a.sent[j])
    decreases |snapshot| - i
  {
    if i == |snapshot| then Attempts([], Exhausted)
    else if i == RetryBatch then Attempts([], Capped)
    else match prepare(snapshot[i])
      case None => Attempts([], Halted)
      case Some(request) =>
        if Acked(net(i)) then
          var rest := AttemptsFrom(snapshot, prepare, fatal, net, i + 1);
          Attempts([request] + rest.sent, rest.stop)
        else if fatal(net(i)) then Attempts([request], Crashed)
        else Attempts([request], Refused)
  }

  /** All but a failed last attempt were acknowledged, and the stop reason
      says which rule ended the pass. */
  lemma {:induction false} AttemptsStop(snapshot: seq<string>, prepare: string -> Option<string>, fatal: Response -> bool, net: Network, i: nat)
    requires i <= |snapshot| && i <= RetryBatch
    ensures var a := AttemptsFrom(snapshot, prepare, fatal, net, i);
      && (forall j :: i <= j < i + AckedCount(a.sent, a.stop) ==> Acked(net(j)))
      && (a.stop == Refused ==> |a.sent| > 0 && !Acked(net(i + |a.sent| - 1)) && !fatal(net(i + |a.sent| - 1)))
      && (a.stop == Crashed ==> |a.sent| > 0 && !Acked(net(i + |a.sent| - 1)) && fatal(net(i + |a.sent| - 1)))
      && (a.stop == Exhausted ==> i + |a.sent| == |snapshot|)
      && (a.stop == Capped ==> i + |a.sent| == RetryBatch < |snapshot|)
      && (a.stop == Halted ==> i + |a.sent| < |snapshot| && prepare(snapshot[i + |a.sent|]).None?)
    decreases |snapshot| - i
  {
    if i < |snapshot| && i < RetryBatch && prepare(snapshot[i]).Some? && Acked(net(i)) {
      AttemptsStop(snapshot, prepare, fatal, net, i + 1);
      var rest := AttemptsFrom(snapshot, prepare, fatal, net, i + 1);
      var a := AttemptsFrom(snapshot, prepare, fatal, net, i);
      assert a == Attempts([prepare(snapshot[i]).value] + rest.sent, rest.stop);
      assert AckedCount(a.sent, a.stop) == 1 + AckedCount(rest.sent, rest.stop);
      assert i + |a.sent| == (i + 1) + |rest.sent|;
      assert net(i + |a.sent| - 1) == net(i + 1 + |rest.sent| - 1);
    }
  }

  /** `AttemptsFrom` and `AttemptsStop` for a pass from the first line. */
  lemma AttemptsFromStart(snapshot: seq<string>, prepare: string -> Option<string>, fatal: Response -> bool, net: Network)
    ensures var a := AttemptsFrom(snapshot, prepare, fatal, net, 0);
      && (forall j :: 0 <= j < |a.sent| ==> prepare(snapshot[j]) == Some(a.sent[j]))
      && (forall j :: 0 <= j < AckedCount(a.sent, a.stop) ==> Acked(net(j)))
      && (a.stop == Refused ==> |a.sent| > 0 && !Acked(net(|a.sent| - 1)) && !fatal(net(|a.sent| - 1)))
      && (a.stop == Crashed ==> |a.sent| > 0 && !Acked(net(|a.sent| - 1)) && fatal(net(|a.sent| - 1)))
      && (a.stop == Exhausted ==> |a.sent| == |snapshot|)
      && (a.stop == Capped ==> |a.sent| == RetryBatch < |snapshot|)
      && (a.stop == Halted ==> |a.sent| < |snapshot| && prepare(snapshot[|a.sent|]).None?)
  {
    var a := AttemptsFrom(snapshot, prepare, fatal, net, 0);
    AttemptsStop(snapshot, prepare, fatal, net, 0);
    assert forall j :: 0 <= j < |a.sent| ==> snapshot[0 + j] == snapshot[j];
  }

  /** One tick over the lines `snapshot` read from the file: the attempts
      from the first line on, with one `deleteFirstLine` per acknowledged
      request. The file keeps every line except the acknowledged prefix, in
      the same order: nothing is reordered, and a line is removed only after
      its request was acknowledged. */
  function RetryPass(snapshot: seq<string>, prepare: string -> Option<string>, fatal: Response -> bool, net: Network): (p: Pass)
    ensures Acknowledged(p) <= |p.sent| <= RetryBatch && |p.sent| <= |snapshot|
    ensures snapshot == snapshot[..Acknowledged(p)] + p.log
    ensures forall j :: 0 <= j < |p.sent| ==> prepare(snapshot[j]) == Some(p.sent[j])
    ensures forall j :: 0 <= j < Acknowledged(p) ==> Acked(net(j))
    ensures p.stop == Refused ==> |p.sent| > 0 && !Acked(net(|p.sent| - 1)) && !fatal(net(|p.sent| - 1))
    ensures p.stop == Crashed ==> |p.sent| > 0 && !Acked(net(|p.sent| - 1)) && fatal(net(|p.sent| - 1))
  {
    var a := AttemptsFrom(snapshot, prepare, fatal, net, 0);
    var k := AckedCount(a.sent, a.stop);
    AttemptsFromStart(snapshot, prepare, fatal, net);
    DeleteFirstLinesSplits(snapshot, k);
    Pass(DeleteFirstLines(snapshot, k), a.sent, a.stop)
  }

  /** The outcome of one tick on the cache file. */
  datatype Tick = Tick(file: CacheFile, sent: seq<string>, stop: Stop)

  /** A tick of `handleRetries`: a missing file is an `IOException` that is
      caught, so nothing is attempted and the file stays missing; otherwise
      the pass runs over the file's lines, and the file keeps all of them but
      the acknowledged prefix. */
  function RetryTick(file: CacheFile, prepare: string -> Option<string>, fatal: Response -> bool, net: Network): (t: Tick)
    ensures file.Missing? <==> t.stop == Unreadable
    ensures file.Missing? ==> t.file == Missing && t.sent == []
    ensures file.Present? ==> t.file.Present?
    ensures AckedCount(t.sent, t.stop) <= |t.sent| <= RetryBatch && |t.sent| <= |Lines(file)|
    ensures Lines(file) == Lines(file)[..AckedCount(t.sent, t.stop)] + Lines(t.file)
    ensures forall j :: 0 <= j < |t.sent| ==> prepare(Lines(file)[j]) == Some(t.sent[j])
    ensures forall j :: 0 <= j < AckedCount(t.sent, t.stop) ==> Acked(net(j))
  {
    match file
    case Missing => Tick(Missing, [], Unreadable)
    case Present(lines) =>
      var p := RetryPass(lines, prepare, fatal, net);
      Tick(Present(p.log), p.sent, p.stop)
  }

  /** A tick together with the requests acknowledged so far. */
  datatype Delivery = Delivery(file: CacheFile, posted: seq<string>, stop: Stop)

  /** From `file` and `posted` to `file'` and `posted'`: what was added to
      `posted` is the acknowledged prefix of the file, at most 25 lines,
      prepared line by line and in order, and `file'` keeps every other line
      in order. */
  predicate Delivered(file: CacheFile, posted: seq<string>, file': CacheFile, posted': seq<string>,
                      prepare: string -> Option<string>)
  {
    && |posted| <= |posted'| <= |posted| + RetryBatch && posted'[..|posted|] == posted
    && |posted'| - |posted| <= |Lines(file)|
    && Lines(file) == Lines(file)[..|posted'| - |posted|] + Lines(file')
    && forall j :: |posted| <= j < |posted'| ==> prepare(Lines(file)[j - |posted|]) == Some(posted'[j])
  }

  /** A tick whose acknowledged requests are appended, in order, to
      `posted`. */
  function Deliver(file: CacheFile, posted: seq<string>, prepare: string -> Option<string>, fatal: Response -> bool, net: Network): (d: Delivery)
    ensures d.stop == RetryTick(file, prepare, fatal, net).stop
    ensures d.file == RetryTick(file, prepare, fatal, net).file
    ensures var t := RetryTick(file, prepare, fatal, net); d.posted == posted + t.sent[..AckedCount(t.sent, t.stop)]
    ensures Delivered(file, posted, d.file, d.posted, prepare)
  {
    var t := RetryTick(file, prepare, fatal, net);
    var out := posted + t.sent[..AckedCount(t.sent, t.stop)];
    TickDelivers(file, posted, prepare, t, out);
    Delivery(t.file, out, t.stop)
  }

  /** Appending the acknowledged prefix of a tick's requests to `posted` is
      a delivery. */
  lemma TickDelivers(file: CacheFile, posted: seq<string>, prepare: string -> Option<string>,
                     t: Tick, out: seq<string>)
    requires AckedCount(t.sent, t.stop) <= |t.sent| <= RetryBatch && |t.sent| <= |Lines(file)|
    requires Lines(file) == Lines(file)[..AckedCount(t.sent, t.stop)] + Lines(t.file)
    requires forall j :: 0 <= j < |t.sent| ==> prepare(Lines(file)[j]) == Some(t.sent[j])
    requires out == posted + t.sent[..AckedCount(t.sent, t.stop)]
    ensures Delivered(file, posted, t.file, out, prepare)
  {
    var k := AckedCount(t.sent, t.stop);
    assert |out| - |posted| == k;
    assert out[..|posted|] == posted;
    forall j | |posted| <= j < |out|
      ensures prepare(Lines(file)[j - |posted|]) == Some(out[j])
    {
      assert out[j] == t.sent[j - |posted|];
    }
  }

  // ---------------------------------------------------------------------------
  // properties of a tick

  /** Once every line before line `k` was prepared and acknowledged, the
      attempts from line `i` on post those lines and then go on exactly as
      the attempts from line `k` on. */
  lemma {:induction false} AttemptsReach(snapshot: seq<string>, prepare: string -> Option<string>, fatal: Response -> bool, net: Network,
                                         i: nat, k: nat)
    requires i <= k <= |snapshot| && k <= RetryBatch
    requires forall j :: i <= j < k ==> prepare(snapshot[j]).Some? && Acked(net(j))
    ensures AttemptsFrom(snapshot, prepare, fatal, net, i).stop == AttemptsFrom(snapshot, prepare, fatal, net, k).stop
    ensures |AttemptsFrom(snapshot, prepare, fatal, net, i).sent| == k - i + |AttemptsFrom(snapshot, prepare, fatal, net, k).sent|
    decreases k - i
  {
    if i < k {
      AttemptsReach(snapshot, prepare, fatal, net, i + 1, k);
    }
  }

  /** The batch cap: when more than 25 lines are cached and the first 25
      attempts succeed, a tick delivers exactly the 25 oldest and leaves the
      rest, in order; line 26 is not attempted. */
  lemma BatchCap(snapshot: seq<string>, prepare: string -> Option<string>, fatal: Response -> bool, net: Network)
    requires |snapshot| > RetryBatch
    requires forall j :: 0 <= j < RetryBatch ==> prepare(snapshot[j]).Some?
    requires forall j :: 0 <= j < RetryBatch ==> Acked(net(j))
    ensures RetryPass(snapshot, prepare, fatal, net).stop == Capped
    ensures |RetryPass(snapshot, prepare, fatal, net).sent| == RetryBatch
    ensures RetryPass(snapshot, prepare, fatal, net).log == snapshot[RetryBatch..]
  {
    AttemptsReach(snapshot, prepare, fatal, net, 0, RetryBatch);
    RetryPassLeaves(snapshot, prepare, fatal, net);
  }

  /** The pass reaches line `k` of the snapshot: the lines before it are
      requests and their attempts are acknowledged. */
  predicate AckedUpTo(snapshot: seq<string>, prepare: string -> Option<string>, net: Network, k: nat)
  {
    && k < |snapshot| && k < RetryBatch
    && forall j :: 0 <= j < k ==> prepare(snapshot[j]).Some? && Acked(net(j))
  }

  /** The pass reaches line `k`, which is a request whose attempt is not
      acknowledged. */
  predicate FailsOn(snapshot: seq<string>, prepare: string -> Option<string>, net: Network, k: nat)
  {
    AckedUpTo(snapshot, prepare, net, k) && prepare(snapshot[k]).Some? && !Acked(net(k))
  }

  /** A failed attempt on line `k`, after `k` acknowledged ones: the pass
      stops there, `Crashed` when the failure escapes the thread and
      `Refused` otherwise, and the file keeps line `k` and everything after
      it. */
  lemma FailsAt(snapshot: seq<string>, prepare: string -> Option<string>, fatal: Response -> bool, net: Network, k: nat)
    requires FailsOn(snapshot, prepare, net, k)
    ensures var p := RetryPass(snapshot, prepare, fatal, net);
      && p.stop == (if fatal(net(k)) then Crashed else Refused)
      && |p.sent| == k + 1 && p.log == snapshot[k..]
  {
    AttemptsReach(snapshot, prepare, fatal, net, 0, k);
    var last := AttemptsFrom(snapshot, prepare, fatal, net, k);
    assert FailedLast(last.stop) && |last.sent| == 1;
    var a := AttemptsFrom(snapshot, prepare, fatal, net, 0);
    assert AckedCount(a.sent, a.stop) == k;
    RetryPassLeaves(snapshot, prepare, fatal, net);
  }

  /** A line that cannot be prepared, reached after `k` acknowledged
      attempts: the pass halts there and the file keeps that line and
      everything after it. */
  lemma HaltsAt(snapshot: seq<string>, prepare: string -> Option<string>, fatal: Response -> bool, net: Network, k: nat)
    requires AckedUpTo(snapshot, prepare, net, k)
    requires prepare(snapshot[k]).None?
    ensures var p := RetryPass(snapshot, prepare, fatal, net);
      p.stop == Halted && |p.sent| == k && p.log == snapshot[k..]
  {
    AttemptsReach(snapshot, prepare, fatal, net, 0, k);
    var last := AttemptsFrom(snapshot, prepare, fatal, net, k);
    assert last.stop == Halted && |last.sent| == 0;
    RetryPassLeaves(snapshot, prepare, fatal, net);
  }

  /** `FailsAt` for a tick on a file, with the requests appended to
      `posted`. */
  lemma DeliverFailsAt(file: CacheFile, posted: seq<string>, prepare: string -> Option<string>, fatal: Response -> bool, net: Network,
                       k: nat)
    requires FailsOn(Lines(file), prepare, net, k)
    ensures var d := Deliver(file, posted, prepare, fatal, net);
      && d.stop == (if fatal(net(k)) then Crashed else Refused)
      && Lines(d.file) == Lines(file)[k..] && |d.posted| == |posted| + k
  {
    FailsAt(Lines(file), prepare, fatal, net, k);
  }

  /** `HaltsAt` for a tick on a file, with the requests appended to
      `posted`. */
  lemma DeliverHaltsAt(file: CacheFile, posted: seq<string>, prepare: string -> Option<string>, fatal: Response -> bool, net: Network,
                       k: nat)
    requires AckedUpTo(Lines(file), prepare, net, k)
    requires prepare(Lines(file)[k]).None?
    ensures var d := Deliver(file, posted, prepare, fatal, net);
      d.stop == Halted && Lines(d.file) == Lines(file)[k..] && |d.posted| == |posted| + k
  {
    HaltsAt(Lines(file), prepare, fatal, net, k);
  }

  /** A tick that posts line `n` of the file posts that line prepared. */
  lemma DeliverPostsLine(file: CacheFile, posted: seq<string>, prepare: string -> Option<string>, fatal: Response -> bool, net: Network,
                         n: nat)
    requires n < |Lines(file)|
    ensures var d := Deliver(file, posted, prepare, fatal, net);
      |posted| + n < |d.posted| ==> prepare(Lines(file)[n]) == Some(d.posted[|posted| + n])
  {
    var d := Deliver(file, posted, prepare, fatal, net);
    if |posted| + n < |d.posted| {
      var j := |posted| + n;
      assert prepare(Lines(file)[j - |posted|]) == Some(d.posted[j]);
    }
  }

  /** FIFO redelivery: when every attempt succeeds and at most 25 lines are
      cached, they are all posted, oldest first, and the file is emptied. */
  lemma DrainsInOrder(snapshot: seq<string>, prepare: string -> Option<string>, fatal: Response -> bool, net: Network)
    requires |snapshot| <= RetryBatch
    requires forall j :: 0 <= j < |snapshot| ==> prepare(snapshot[j]).Some?
    requires forall j :: 0 <= j < |snapshot| ==> Acked(net(j))
    ensures var p := RetryPass(snapshot, prepare, fatal, net);
      p.stop == Exhausted && p.log == [] && |p.sent| == |snapshot|
      && forall j :: 0 <= j < |snapshot| ==> Some(p.sent[j]) == prepare(snapshot[j])
  {
    StopCases(snapshot, prepare, fatal, net);
  }

  /** The same, for a tick on a file: everything is delivered, oldest first,
      and the file is left empty. */
  lemma DeliverDrains(file: CacheFile, posted: seq<string>, prepare: string -> Option<string>, fatal: Response -> bool, net: Network)
    requires file.Present? && |file.lines| <= RetryBatch
    requires forall j :: 0 <= j < |file.lines| ==> prepare(file.lines[j]).Some?
    requires forall j :: 0 <= j < |file.lines| ==> Acked(net(j))
    ensures var d := Deliver(file, posted, prepare, fatal, net);
      d.stop == Exhausted && d.file == Present([]) && |d.posted| == |posted| + |file.lines|
  {
    DrainsInOrder(file.lines, prepare, fatal, net);
  }

  /** A file of one line whose attempt succeeds is delivered and emptied. */
  lemma DeliverOne(line: string, body: string, posted: seq<string>, prepare: string -> Option<string>, fatal: Response -> bool, net: Network)
    requires prepare(line) == Some(body) && Acked(net(0))
    ensures Deliver(Present([line]), posted, prepare, fatal, net) == Delivery(Present([]), posted + [body], Exhausted)
  {
    DeliverDrains(Present([line]), posted, prepare, fatal, net);
    var d := Deliver(Present([line]), posted, prepare, fatal, net);
    assert d.posted == posted + [d.posted[|posted|]];
  }

  /** Head-of-line blocking: when the oldest line's attempt fails, no newer
      line is attempted and the file is left as it was. */
  lemma HeadOfLineBlocks(snapshot: seq<string>, prepare: string -> Option<string>, fatal: Response -> bool, net: Network)
    requires |snapshot| > 0 && prepare(snapshot[0]).Some?
    requires !Acked(net(0))
    ensures var p := RetryPass(snapshot, prepare, fatal, net);
      FailedLast(p.stop) && p.sent == [prepare(snapshot[0]).value] && p.log == snapshot
  {
  }

  /** The stop reasons of a whole pass, restated for index 0. */
  lemma StopCases(snapshot: seq<string>, prepare: string -> Option<string>, fatal: Response -> bool, net: Network)
    ensures var p := RetryPass(snapshot, prepare, fatal, net);
      && (p.stop == Exhausted ==> |p.sent| == |snapshot|)
      && (p.stop == Capped ==> |p.sent| == RetryBatch < |snapshot|)
      && (p.stop == Halted ==> |p.sent| < |snapshot| && prepare(snapshot[|p.sent|]).None?)
      && p.stop != Unreadable
  {
    AttemptsFromStart(snapshot, prepare, fatal, net);
  }

  // ---------------------------------------------------------------------------
  // the loop as written

  /** The `while ((line = br.readLine()) != null && count++ < 25)` loop of
      `handleRetries`, statement by statement, over the lines read at the
      start of the tick. */
  method RunRetryPass(snapshot: seq<string>, prepare: string -> Option<string>, fatal: Response -> bool, net: Network)
    returns (log: seq<string>, sent: seq<string>, stop: Stop)
    ensures Pass(log, sent, stop) == RetryPass(snapshot, prepare, fatal, net)
  {
    log := snapshot;
    sent := [];
    var count := 0;
    var i := 0;
    ghost var all := AttemptsFrom(snapshot, prepare, fatal, net, 0);
    assert [] + all.sent == all.sent;
    while true
      invariant 0 <= i <= |snapshot| && i <= RetryBatch
      invariant count == i && |sent| == i
      invariant log == snapshot[i..]
      invariant all.sent == sent + AttemptsFrom(snapshot, prepare, fatal, net, i).sent
      invariant all.stop == AttemptsFrom(snapshot, prepare, fatal, net, i).stop
      decreases |snapshot| - i
    {
      if i == |snapshot| {           // readLine() returned null
        stop := Exhausted;
        assert AttemptsFrom(snapshot, prepare, fatal, net, i) == Attempts([], stop);
        break;
      }
      if count >= RetryBatch {       // count++ < 25 is false
        stop := Capped;
        assert AttemptsFrom(snapshot, prepare, fatal, net, i) == Attempts([], stop);
        break;
      }
      count := count + 1;
      var request := prepare(snapshot[i]);
      if request.None? {             // requireNonNull throws; nothing catches it
        stop := Halted;
        assert AttemptsFrom(snapshot, prepare, fatal, net, i) == Attempts([], stop);
        break;
      }
      if !Acked(net(i)) {
        assert AttemptsFrom(snapshot, prepare, fatal, net, i)
            == Attempts([request.value], if fatal(net(i)) then Crashed else Refused);
        PassEndsAt(snapshot, prepare, fatal, net, i, sent);
        sent := sent + [request.value];
        stop := if fatal(net(i)) then Crashed else Refused;
        return;
      }
      AttemptsStep(snapshot, prepare, fatal, net, i, sent);
      sent := sent + [request.value];
      log := DeleteFirstLine(log);
      i := i + 1;
    }
    PassEndsAt(snapshot, prepare, fatal, net, i, sent);
    assert sent + [] == sent;
  }

  /** Where the loop of `RunRetryPass` leaves off at line `i`, after `i`
      acknowledged attempts: at most one more request is sent, and the file
      keeps line `i` and everything after it. */
  lemma PassEndsAt(snapshot: seq<string>, prepare: string -> Option<string>, fatal: Response -> bool, net: Network, i: nat,
                   sent: seq<string>)
    requires i <= |snapshot| && i <= RetryBatch && |sent| == i
    requires i < |snapshot| && i < RetryBatch && prepare(snapshot[i]).Some? ==> !Acked(net(i))
    requires AttemptsFrom(snapshot, prepare, fatal, net, 0).sent == sent + AttemptsFrom(snapshot, prepare, fatal, net, i).sent
    requires AttemptsFrom(snapshot, prepare, fatal, net, 0).stop == AttemptsFrom(snapshot, prepare, fatal, net, i).stop
    ensures var last := AttemptsFrom(snapshot, prepare, fatal, net, i);
      RetryPass(snapshot, prepare, fatal, net) == Pass(snapshot[i..], sent + last.sent, last.stop)
  {
    var last := AttemptsFrom(snapshot, prepare, fatal, net, i);
    assert |last.sent| <= 1 && (|last.sent| == 1 ==> FailedLast(last.stop));
    assert AckedCount(sent + last.sent, last.stop) == i;
    RetryPassLeaves(snapshot, prepare, fatal, net);
  }

  /** The file a pass leaves is the snapshot without its acknowledged
      prefix. */
  lemma RetryPassLeaves(snapshot: seq<string>, prepare: string -> Option<string>, fatal: Response -> bool, net: Network)
    ensures var a := AttemptsFrom(snapshot, prepare, fatal, net, 0);
      RetryPass(snapshot, prepare, fatal, net) == Pass(snapshot[AckedCount(a.sent, a.stop)..], a.sent, a.stop)
  {
    var a := AttemptsFrom(snapshot, prepare, fatal, net, 0);
    DeleteFirstLinesDropsPrefix(snapshot, AckedCount(a.sent, a.stop));
  }

  lemma AttemptsStep(snapshot: seq<string>, prepare: string -> Option<string>, fatal: Response -> bool, net: Network, i: nat,
                     before: seq<string>)
    requires i < |snapshot| && i < RetryBatch
    requires prepare(snapshot[i]).Some? && Acked(net(i))
    ensures before + AttemptsFrom(snapshot, prepare, fatal, net, i).sent
         == before + [prepare(snapshot[i]).value] + AttemptsFrom(snapshot, prepare, fatal, net, i + 1).sent
    ensures AttemptsFrom(snapshot, prepare, fatal, net, i).stop == AttemptsFrom(snapshot, prepare, fatal, net, i + 1).stop
  {
    var rest := AttemptsFrom(snapshot, prepare, fatal, net, i + 1);
    assert before + ([prepare(snapshot[i]).value] + rest.sent)
        == before + [prepare(snapshot[i]).value] + rest.sent;
  }
}
