# Durable retry logs of a three-tier fog-computing pipeline

The system has three tiers. Sensors post temperature readings to an edge
device. The edge device averages them and submits the averages to a cloud
component. The cloud component warns the edge device when an average is
above 25 degrees. Every tier makes one immediate delivery attempt. When that
attempt fails, the tier appends the record to a local cache file, and a
retry thread redelivers the cache file later. This project models that
discipline as pure functions and proves its properties. It also models the
small text codecs the tiers use to write and read cached lines.

Files and modules:

- `text.dfy`, module `Text`: the `java.lang.String` operations the codecs
  use. These are `replace(c, "")`, `trim`, `split(c)` (which drops trailing
  empty pieces) and `split(c, 2)`.
- `numbers.dfy`, module `Numbers`: `Double.parseDouble` on decimal text, the
  strict `> 25.0` threshold, and `String.format("%.2f")`.
- `records.dfy`, module `Records`: `SensorData` and its one-line text form.
  This covers `toJson`, the edge device's wire body, `fromJson`, and the
  `yyyy.MM.dd.HH.mm.ss` time stamp.
- `cachelog.dfy`, module `CacheLog`: delivery responses, the cache file
  (missing, or a sequence of lines), appending, and `deleteFirstLine`.
- `headretry.dfy`, module `HeadRetry`: the head-of-log retry tick that the
  sensor and the edge device share. The model runs it as a pure pass and
  also as the loop written in the source.
- `sensor.dfy`, module `Sensor`: the producer step, `stop()`, the per-sensor
  cache name, and conservation of readings over any run.
- `edge.dfy`, module `EdgeDevice`: the data handler, aggregation, submission
  or caching, and the retry thread, which re-parses every cached line.
- `cloud.dfy`, module `Cloud`: the data handler's threshold decision, the
  warning cache line, and the retry pass. That pass resends every cached
  line and keeps the ones that fail.

How the outside world is represented:

- **The network.** It is an oracle, `Network = nat -> Response`, that gives
  the response to each attempt of a retry tick by attempt number. A single
  immediate send is one `Response`. Only status 200 counts as success; any
  other status, or an exception, is a failure. A `Response` also records
  whether the server sent a body with its status. In the edge device,
  `getErrorStream()` returns a stream only for a status of 400 or above
  that came with a body. For any other failed status it returns null, and
  the `InputStreamReader` built on it throws a `NullPointerException`.
  `processData` catches that exception on the first attempt and caches the
  record. The retry thread catches only `IOException`, so the exception ends
  it (stop reason `Crashed`). The sensor's `sendData` catches every
  exception, so no response ends its retry loop.
- **Clocks.** A clock reading is a `DateTime` parameter.
- **Formatting a computed average.** `Double.toString` of the average is a
  `show` parameter.
- **Temperatures.** A temperature is kept as its decimal text and gets the
  exact value that decimal denotes.
- **Running a tick.** A retry tick reads the file once at its start. Each
  `deleteFirstLine` then rewrites the current content of the file.

Behaviour of the code worth noting:

- The cloud tier does not use the head-of-log rule. Every tick it resends
  every cached line, with no cap of 25 and no stop at the first failure. It
  then rewrites the file with the lines that failed, in order.
- The edge device does not post a cached line verbatim. It parses the line
  and re-encodes it with a space after the first comma (`WireJson`).
- A cached line that cannot be parsed does not just fail. In the edge
  device it reaches `Objects.requireNonNull`; in the cloud it has no space,
  so `parts[1]` is out of bounds. Either exception ends the retry thread
  for good.
- A failed status without an error stream also ends the edge device's
  retry thread, as described above.
- The threshold is a strict `>` on the parsed value. NaN never raises a
  warning. A positive infinity always does.

## Model

| member | source | states |
|---|---|---|
| Text.Trim | src/EdgeDevice.java:288-290 | `trim` returns the slice of its input left after dropping only blank characters (code at most U+0020) at both ends; the result neither starts nor ends blank, and text already trimmed is returned unchanged |
| Text.Remove | src/EdgeDevice.java:287 | `replace(c, "")` leaves no `c`, shortens the text by exactly the number of occurrences of `c`, and introduces no character |
| Text.SplitAll | src/EdgeDevice.java:287 | the pieces between separators number one more than the separators, contain no separator, and join back to the input |
| Text.JavaSplitJoins | src/EdgeDevice.java:287-290 | `split(c)` returns pieces free of `c`, the last one non-empty whenever `c` occurs, which joined with `c` rebuild the input up to a tail of separators |
| Text.JoinDropTrailing | src/EdgeDevice.java:287 | dropping the trailing empty pieces removes only separators, and only from the end of the joined text |
| Text.JavaSplitThree | src/EdgeDevice.java:287 | three separator-free pieces joined by the separator, the last one non-empty, split back into exactly those three pieces |
| Text.SplitFirst | src/CloudComponent.java:132 | `split(c, 2)` has one piece exactly when `c` is absent; otherwise the first piece is free of `c`, and the first piece, `c` and the second piece rebuild the input |
| Text.SplitFirstRecovers | src/CloudComponent.java:132-133 | a prefix free of the separator is recovered by `split(c, 2)`, and the rest is kept whole |
| Text.NatToString | src/CloudComponent.java:107 | the decimal rendering of a number is non-empty digits with no leading zero, and its value is that number |
| Numbers.ParseDouble | src/EdgeDevice.java:289 | a parsed text is non-blank after trimming; a negative finite value comes only from text that starts with a minus sign |
| Numbers.Exceeds | src/CloudComponent.java:59 | `> 25.0` on a double is false for NaN, strict for a finite value, and true for positive and false for negative infinity |
| Numbers.ParseDecimal | src/EdgeDevice.java:289 | a plain decimal `whole.fraction` parses to the exact value of its digits over ten to the number of fraction digits |
| Numbers.ExceedsDecimal | src/CloudComponent.java:59 | a decimal reading exceeds 25 exactly when its digits exceed 25 times the scale, so `25.0` and `25.00` do not |
| Numbers.Fixed2 | src/CloudComponent.java:60 | `%.2f` of a non-negative finite value prints text that parses back to within half a hundredth of the value |
| Numbers.CentsValue | src/CloudComponent.java:60 | the whole part and two fraction digits that `%.2f` prints, read as one digit string, spell the rounded cents |
| Records.Pad | src/CloudComponent.java:107 | a zero-padded field has at least the requested width, is all digits and denotes the number |
| Records.FormatStamp | src/CloudComponent.java:107 | a `yyyy.MM.dd.HH.mm.ss` time stamp consists of digits and points only, has at least 19 characters, and starts and ends with a digit |
| Records.StampIsClean | src/CloudComponent.java:107-108 | a time stamp holds no space and no structural character of the text form |
| Records.ToJson | src/EdgeDevice.java:281-283 | the cached line is the fixed template `{"sensorId":"…","temperature":…,"timestamp":"…"}` holding the id, the temperature text and the time stamp, with no space anywhere in the template |
| Records.WireJson | src/EdgeDevice.java:167 | the body the edge device posts is the same template with one space after the first comma |
| Records.WireJsonSpace | src/EdgeDevice.java:167 | the posted body is the cached `toJson` line with exactly one space inserted right after the comma that ends the id, and nothing else changed |
| Records.FromJson | src/EdgeDevice.java:285-296 | a parsed record's id and time stamp hold no quote, comma, colon or brace and no surrounding blanks |
| Records.FromJsonNumeric | src/EdgeDevice.java:289 | a parsed record's temperature is text that `parseDouble` accepts, without surrounding blanks and with no comma or colon |
| Records.FieldsClean | src/EdgeDevice.java:287-290 | the fields `fromJson` extracts from any input are free of structural characters |
| Records.FromJsonEncode | src/EdgeDevice.java:281-296 | a record with clean fields and a numeric temperature is read back exactly from its text form, with or without the space after the first comma |
| Records.FromJsonToJson | src/EdgeDevice.java:281-296 | `fromJson(toJson(r))` recovers `r` |
| Records.FromJsonWireJson | src/CloudComponent.java:195-206 | the cloud's `fromJson` recovers `r` from the body the edge device posts |
| CacheLog.Acked | src/Sensor.java:63-68 | a send is acknowledged exactly when it returned status 200; an exception is never an acknowledgement |
| CacheLog.AppendLine | src/EdgeDevice.java:196-203 | appending creates the file if needed, keeps every existing line in place, and adds exactly the new line at the end |
| CacheLog.DeleteFirstLine | src/EdgeDevice.java:234-256 | an empty file stays empty; otherwise the first line followed by the result is the original file |
| CacheLog.DeleteFrom | src/EdgeDevice.java:237-248 | the skip-first read loop, from any line on, yields every line after the first |
| CacheLog.DeleteFirstLinesDropsPrefix | src/EdgeDevice.java:215-217 | `k` deletions remove exactly the `k` oldest lines, or all lines when there are fewer |
| CacheLog.DeleteFirstLinesSplits | src/EdgeDevice.java:215-217 | the lines `k` deletions remove, followed by what they leave, are the original lines |
| HeadRetry.AttemptsFrom | src/EdgeDevice.java:214-223 | the requests attempted from line `i` on are the prepared lines `i`, `i+1`, … in order, never past the end of the file or the 25th line |
| HeadRetry.AttemptsStop | src/EdgeDevice.java:214-222 | every attempt except a failed last one was acknowledged; a refusal or a crash is a failed last attempt, a crash exactly when the failure escapes the thread; exhaustion means the end of the file; the cap means 25 attempts with lines left; a halt is at a line that cannot be prepared |
| HeadRetry.RetryPass | src/EdgeDevice.java:211-223 | a tick posts at most 25 requests, oldest line first; the file keeps every line except the acknowledged prefix, in order; every acknowledged line's attempt succeeded, and a refusal or a crash is the failed last attempt |
| HeadRetry.RetryTick | src/EdgeDevice.java:209-226 | a missing file is exactly the skipped tick and stays missing; otherwise the file loses only its acknowledged prefix, and the requests are the prepared oldest lines |
| HeadRetry.Deliver | src/Sensor.java:95-109 | what a tick adds to the acknowledged bodies is the file's acknowledged prefix, at most 25 lines, prepared in order, and the file keeps every other line in order |
| HeadRetry.TickDelivers | src/Sensor.java:98-101 | appending a tick's acknowledged requests to the bodies acknowledged so far is such a delivery |
| HeadRetry.BatchCap | src/EdgeDevice.java:214 | with more than 25 lines cached and the first 25 attempts succeeding, a tick delivers exactly the 25 oldest and leaves the rest in order |
| HeadRetry.AttemptsReach | src/EdgeDevice.java:214-218 | a pass whose attempts from line `i` to line `k` all succeed reaches line `k` and ends as the pass from `k` ends, with those requests in front |
| HeadRetry.FailsAt | src/EdgeDevice.java:219-222 | a failed attempt on line `k` after `k` acknowledged ones ends the pass there, as a crash exactly when the failure escapes the thread, and the file keeps line `k` and all after it |
| HeadRetry.HaltsAt | src/EdgeDevice.java:215 | a line that cannot be prepared, reached after `k` acknowledged attempts, halts the pass with `k` requests and the file keeping that line and all after it |
| HeadRetry.DeliverFailsAt | src/EdgeDevice.java:219-222 | the same failure on a file: `k` bodies are added and the file keeps line `k` on |
| HeadRetry.DeliverHaltsAt | src/EdgeDevice.java:215 | the same halt on a file: `k` bodies are added and the file keeps the unpreparable line on |
| HeadRetry.DeliverPostsLine | src/EdgeDevice.java:215-217 | whenever a tick acknowledges line `n` of the file, the body it adds for it is that line prepared |
| HeadRetry.DrainsInOrder | src/EdgeDevice.java:214-218 | with at most 25 lines cached and every attempt succeeding, all lines are posted oldest first and the file is emptied |
| HeadRetry.DeliverDrains | src/Sensor.java:98-102 | the same for a tick on a file: everything is delivered and the file is left empty |
| HeadRetry.DeliverOne | src/Sensor.java:98-102 | a one-line file whose attempt succeeds is posted and emptied |
| HeadRetry.HeadOfLineBlocks | src/EdgeDevice.java:219-222 | when the oldest line's attempt fails, only that line is attempted, the pass stops as refused or crashed, and the file is left as it was |
| HeadRetry.StopCases | src/EdgeDevice.java:214-215 | a whole pass stops at the end of the file, at the cap with lines left, or at a line that cannot be prepared, and never as an unreadable file |
| HeadRetry.RunRetryPass | src/EdgeDevice.java:211-223 | the `readLine` / `count++ < 25` / post / `deleteFirstLine` loop, statement by statement, computes the same file, requests and stop reason as `RetryPass` |
| HeadRetry.PassEndsAt | src/EdgeDevice.java:214-222 | where the loop leaves off after `i` acknowledged attempts, at most one more request was sent and the file keeps line `i` on |
| HeadRetry.RetryPassLeaves | src/EdgeDevice.java:215-217 | the file a pass leaves is the snapshot without its acknowledged prefix |
| Sensor.CacheName | src/Sensor.java:26 | the cache name is `sensor_cache_`, then the id, then `.txt`, and the id can be read back from it |
| Sensor.CacheNamesDistinct | src/Sensor.java:26 | distinct sensor ids never share a cache file |
| Sensor.Produce | src/Sensor.java:32-46 | while running, the built line is either acknowledged or appended to the cache, never both and never neither; once stopped, nothing changes |
| Sensor.Retry | src/Sensor.java:89-115 | a live sensor's retry tick is the head-of-log tick on its cache with lines posted verbatim: the cache loses the acknowledged prefix, which joins the bodies; it never crashes or halts; the bodies grow by at most 25, and the bodies followed by the cache are unchanged; a stopped sensor is untouched |
| Sensor.NeverDies | src/Sensor.java:63-68 | every cached line is a request and `sendData` swallows every exception, so a tick never ends the sensor's retry loop |
| Sensor.VerbatimMoves | src/Sensor.java:98-101 | a delivery of verbatim lines only moves the acknowledged prefix of the file to the acknowledged bodies |
| Sensor.StopSensor | src/Sensor.java:76-78 | `stop()` clears `running` and leaves the cache and the acknowledged bodies alone |
| Sensor.StepAccounts | src/Sensor.java:41-46 | one event adds to the acknowledged and cached lines exactly the line it built |
| Sensor.Conservation | src/Sensor.java:41-46 | over any sequence of events, every line the producer built is acknowledged or still cached, exactly once, together with what was there before |
| Sensor.StoppedIsFinal | src/Sensor.java:92 | once `running` is cleared, no event changes the sensor and no reading is built |
| EdgeDevice.Receive | src/EdgeDevice.java:51-74 | a POST that parses is queued at the end and answered 200; one that does not parse is answered 400; other methods get 405; nothing else changes |
| EdgeDevice.SensorLineAccepted | src/EdgeDevice.java:54-60 | the line a sensor builds is accepted and queued exactly as built |
| EdgeDevice.CommaFreeRejected | src/EdgeDevice.java:101-112 | a body without a comma is rejected |
| EdgeDevice.Average | src/EdgeDevice.java:122-125 | an empty batch averages to NaN; a batch with a finite sum averages to the value that, times the batch size, gives the sum; a non-finite sum is passed through |
| EdgeDevice.AverageBounds | src/EdgeDevice.java:122-125 | the average of a non-empty batch of finite temperatures is finite and lies within any bounds `lo` and `hi` that every temperature of the batch lies within |
| EdgeDevice.AverageReading | src/EdgeDevice.java:127-129 | the submitted record has id `"average"` and the current time stamp |
| EdgeDevice.ProcessData | src/EdgeDevice.java:139-157 | on acknowledgement, only the posted bodies grow, by the wire body; otherwise the record joins the retry queue and its `toJson` line is appended to the cache, and nothing is posted |
| EdgeDevice.AggregateTick | src/EdgeDevice.java:118-131 | a tick drains the queue; an empty batch submits nothing; a non-empty one submits exactly one average record |
| EdgeDevice.DrainedOnce | src/EdgeDevice.java:118-121 | a second tick with nothing received in between submits nothing |
| EdgeDevice.BatchAlert | src/EdgeDevice.java:122-129 | when a whole batch is above the threshold so is its average, and when none of it is, neither is the average |
| EdgeDevice.Reencode | src/EdgeDevice.java:215 | a cached line yields a request exactly when it parses, and the request is the wire encoding of the parsed record |
| EdgeDevice.RetryStep | src/EdgeDevice.java:205-232 | a live retry thread's tick is the head-of-log tick on the cache with each line re-encoded: the cache loses the acknowledged prefix, the re-encoded lines join the posted bodies in order, and the thread lives on exactly when the pass neither halted nor crashed; a dead thread does nothing; the queues are untouched |
| EdgeDevice.CorruptLineStopsRetries | src/EdgeDevice.java:214-217 | a cached line that does not parse, reached after `k` acknowledged attempts, ends the retry thread: `k` bodies are posted, the cache keeps that line and all after it, and no later tick changes anything |
| EdgeDevice.FailedReplyAt | src/EdgeDevice.java:177-193 | an unacknowledged reply on line `k` after `k` acknowledged attempts stops the tick with the cache keeping line `k` on, and the thread survives exactly when the reply came with an error stream |
| EdgeDevice.RetryStepDelivers | src/EdgeDevice.java:211-223 | a live thread's tick is a delivery of its cache with re-encoded lines |
| EdgeDevice.ReencodeCached | src/EdgeDevice.java:149 | a cached `toJson` line re-encodes to the body the first attempt posted |
| EdgeDevice.RetryPostsSameBody | src/EdgeDevice.java:149 | wherever a failed submission's cached line sits, a tick that acknowledges it posts the same wire body as the first attempt, and the cloud reads back the same record |
| Cloud.WarningMessage | src/CloudComponent.java:60 | the warning is the fixed prefix, the `%.2f` text of the temperature, and the fixed suffix, in that order |
| Cloud.CacheLine | src/CloudComponent.java:107-108 | a stamp without a space is split back off the cached line by `split(" ", 2)`, leaving the warning whole |
| Cloud.Resend | src/CloudComponent.java:132-134 | a cached line has no resend payload exactly when it holds no space |
| Cloud.ResendCacheLine | src/CloudComponent.java:107-108 | a line the handler cached is resent as the whole warning tagged with its time stamp |
| Cloud.ReadBody | src/CloudComponent.java:46-53 | the request text holds no line terminator and no character the body lacks, is shorter than the body by exactly the number of terminators, and a body without terminators is read unchanged |
| Cloud.ReadBodyAppend | src/CloudComponent.java:49-51 | the text of a concatenation is the concatenation of the texts, so every other character is kept, in order |
| Cloud.ReadBodyJoins | src/CloudComponent.java:49-53 | two lines joined by a line feed are read as their plain concatenation |
| Cloud.Alert | src/CloudComponent.java:58-60 | a warning is raised exactly when the body parses and its temperature exceeds 25, and it is the formatted warning for that temperature |
| Cloud.Handle | src/CloudComponent.java:42-75 | every POST is answered 200, whether or not it parses, with the warning that the body read line by line raises; other methods get 405 and change nothing; the warning is cached, stamped, exactly when its send fails |
| Cloud.Warn | src/CloudComponent.java:61-63 | a warning is appended, time-stamped, to the cache exactly when its send is not acknowledged |
| Cloud.DecimalField | src/CloudComponent.java:59 | a plain decimal field is clean, parses, and exceeds the threshold exactly when its scaled digits do |
| Cloud.WireReadingAlert | src/CloudComponent.java:46-59 | a reading the edge device posts raises a warning exactly when its own temperature exceeds the threshold |
| Cloud.FilterFrom | src/CloudComponent.java:130-139 | the pass from line `i` resends no more lines than remain, keeps no more lines than it resent, and records an index for every kept line |
| Cloud.FilterHalts | src/CloudComponent.java:132-134 | the pass ends early exactly when it meets a line without a second piece, and stops at that line |
| Cloud.FilterResends | src/CloudComponent.java:134-136 | every line before that point is resent, in order, as its tagged payload |
| Cloud.FilterKeepsOrder | src/CloudComponent.java:137 | the kept lines are the lines at strictly increasing indices, read before the stopping point |
| Cloud.FilterKeepsFailed | src/CloudComponent.java:136-138 | a line read is kept exactly when its resend failed |
| Cloud.FilterSurvivors | src/CloudComponent.java:130-139 | a pass that does not halt resends every line and keeps exactly the failed ones, in order |
| Cloud.RetryCached | src/CloudComponent.java:115-150 | a missing file or dead thread changes nothing; the thread survives exactly when every line has a space; a surviving tick resends every line and rewrites the file with exactly the failed lines in order; a halted one leaves the file as read |
| Cloud.AllAckedEmpties | src/CloudComponent.java:141-145 | when every resend is acknowledged the cache is rewritten empty |
| Cloud.NoneAckedKeepsAll | src/CloudComponent.java:141-145 | when no resend is acknowledged the cache is rewritten unchanged |
| Cloud.CachedWarningsKeepRetrying | src/CloudComponent.java:107-108 | a cache that holds only lines the handler wrote never ends the retry thread |
| Cloud.RunFilter | src/CloudComponent.java:130-139 | the `for` loop as written computes the same attempts, remaining lines and halt as the recursive pass |
| Cloud.FilterAccumulates | src/CloudComponent.java:130-139 | the loop's accumulated pass is what it collected so far followed by the recursive pass from the current line |

## Left out

- HTTP servers, handlers, connections and response writing are not
  modelled. A delivery is its response.
- `EdgeDevice.ResponseHandler` is not modelled. It only prints the warning
  it receives.
- Threads and sleeps are not modelled. Neither are the interleavings
  between a tier's producer and its retry loop, or between the edge
  device's handler and `drainTo`. The sensor's loops are interleaved by
  the `Event` sequence only.
- The cloud's rewrite discards any warning that its handler appends between
  the tick's read and the rewrite. That is a thread race, and it is not
  modelled.
- The retry reader keeps reading a file that `deleteFirstLine` rewrites
  under it. The model reads the file once per tick instead.
- File I/O errors other than a missing cache file are not modelled. Neither
  are write failures in `cacheData` or line terminators inside a record.
- `InterruptedException` is not modelled. Sleeps are not modelled, so
  nothing interrupts them.
- `Double.toString` of a computed average is the `show` parameter. It is
  not spelled out.
- Binary floating point, rounding of the average, hexadecimal literals,
  overflow to infinity and locale-dependent formatting are not modelled.
  Values are exact reals.
- Random temperature generation is not modelled. It is the `temperature`
  field of the `Generated` event.
- Logging, standard output, the `main` methods, the server address
  constants and the `EDGE_DEVICE_URL` environment lookup are not modelled.
- The edge device's `retryQueue` is written and never read. The model keeps
  it as a sequence that only grows.
- HeadRetry.RunRetryPass: its contract states only equality with
  `RetryPass`. The properties of the tick are proved about `RetryPass`.
- Cloud.RunFilter: its contract states only equality with `FilterFrom`. The
  properties of the pass are proved about `FilterFrom`.
- EdgeDevice.AverageBounds: it is stated for exact reals, so it ignores the
  rounding of the sum and of the division.
- Cloud.WireReadingAlert: it is stated for readings whose fields hold no
  line terminator. The handler's `readLine` loop drops terminators, so such
  a field would be read back changed.
- Records.WireJson: the edge device prints the temperature with
  `Double.toString` of the parsed double, so a cached `25` is posted as
  `25.0`. The model posts the cached temperature text. The two agree on
  every line the edge device caches itself, because `toJson` writes that
  text with `Double.toString` too.
- Numbers.Fixed2: its contract covers non-negative finite values.
  Negative values print as a minus sign before the magnitude, and NaN and
  the infinities print as their names.
