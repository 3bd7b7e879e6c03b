/**
  `SensorData` and its one-line JSON-like text form, shared by all three
  tiers: the sensor builds it by hand, the edge device writes it with
  `toJson` and re-encodes it (with one extra space) when it posts a record to
  the cloud, and both the edge device and the cloud read it back with the
  same `fromJson`, which splits the text on `,` and `:` rather than parsing
  JSON.
*/
module Records {
  import opened Optional
  import opened Text
  import opened Numbers

  /** One reading. The temperature is kept as the decimal text that
      `Double.toString` prints for it. */
  datatype Reading = Reading(sensorId: string, temperature: string, timestamp: string)

  /** A wall-clock time, as `SimpleDateFormat` sees it. */
  datatype DateTime = DateTime(year: nat, month: nat, day: nat, hour: nat, minute: nat, second: nat)

  /** The characters `fromJson` treats as structure: quotes, separators and
      braces. */
  predicate IsSpecial(ch: char) {
    ch == '"' || ch == ',' || ch == ':' || ch == '{' || ch == '}'
  }

  /** A field value that survives the text form unchanged: no structural
      character and nothing `trim` would strip. */
  predicate Clean(s: string) {
    (forall i :: 0 <= i < |s| ==> !IsSpecial(s[i])) && Trimmed(s)
  }

  lemma CleanExcludes(s: string)
    requires Clean(s)
    ensures '"' !in s && ',' !in s && ':' !in s && '{' !in s && '}' !in s
  {
    forall ch | ch in s
      ensures IsSpecial(ch) == false
    {
      var i :| 0 <= i < |s| && s[i] == ch;
    }
  }

  // ---------------------------------------------------------------------------
  // timestamps

  /** `n` in decimal, left-padded with zeros to at least `width` digits. */
  function Pad(n: nat, width: nat): (s: string)
    ensures |s| >= width && |s| > 0 && AllDigits(s)
    ensures DigitsValue(s) == n
  {
    var d := NatToString(n);
    if |d| >= width then d else Pad0(d, width - |d|)
  }

  function Pad0(d: string, k: nat): (s: string)
    requires AllDigits(d)
    ensures |s| == |d| + k && AllDigits(s)
    ensures DigitsValue(s) == DigitsValue(d)
    decreases k
  {
    if k == 0 then d else Pad0(ZeroFirst(d), k - 1)
  }

  function ZeroFirst(d: string): (s: string)
    requires AllDigits(d)
    ensures |s| == |d| + 1 && AllDigits(s) && DigitsValue(s) == DigitsValue(d)
  {
    if |d| == 0 then "0"
    else
      var s := ZeroFirst(d[..|d| - 1]) + [d[|d| - 1]];
      assert s[..|s| - 1] == ZeroFirst(d[..|d| - 1]);
      s
  }

  /** Digits and points only. */
  predicate StampText(s: string) {
    forall i :: 0 <= i < |s| ==> IsDigit(s[i]) || s[i] == '.'
  }

  /** `new SimpleDateFormat("yyyy.MM.dd.HH.mm.ss").format(t)`: six
      zero-padded numbers separated by points. */
  function FormatStamp(t: DateTime): (s: string)
    ensures StampText(s) && |s| >= 19
    ensures IsDigit(s[0]) && IsDigit(s[|s| - 1])
  {
    var year, month, day := Pad(t.year, 4), Pad(t.month, 2), Pad(t.day, 2);
    var hour, minute, second := Pad(t.hour, 2), Pad(t.minute, 2), Pad(t.second, 2);
    var s := year + "." + month + "." + day + "." + hour + "." + minute + "." + second;
    DotJoin(year, month);
    DotJoin(year + "." + month, day);
    DotJoin(year + "." + month + "." + day, hour);
    DotJoin(year + "." + month + "." + day + "." + hour, minute);
    DotJoin(year + "." + month + "." + day + "." + hour + "." + minute, second);
    s
  }

  /** Joining two stamp texts with a point keeps the first's first character
      and the second's last. */
  lemma DotJoin(a: string, b: string)
    requires StampText(a) && StampText(b) && |a| > 0 && |b| > 0
    ensures StampText(a + "." + b) && |a + "." + b| == |a| + 1 + |b|
    ensures (a + "." + b)[0] == a[0] && (a + "." + b)[|a| + |b|] == b[|b| - 1]
  {
    var s := a + "." + b;
    forall i | 0 <= i < |s|
      ensures IsDigit(s[i]) || s[i] == '.'
    {
      if i < |a| {
        assert s[i] == a[i];
      } else if i > |a| {
        assert s[i] == b[i - |a| - 1];
      }
    }
  }

  /** A generated timestamp has no space and is a clean field. */
  lemma StampIsClean(t: DateTime)
    ensures Clean(FormatStamp(t))
    ensures ' ' !in FormatStamp(t)
  {
    StampTextClean(FormatStamp(t));
  }

  lemma StampTextClean(s: string)
    requires StampText(s) && |s| > 0 && IsDigit(s[0]) && IsDigit(s[|s| - 1])
    ensures Clean(s) && ' ' !in s
  {
    forall i | 0 <= i < |s|
      ensures !IsSpecial(s[i]) && s[i] != ' '
    {
      assert IsDigit(s[i]) || s[i] == '.';
    }
  }

  /** The `double` a record carries: its temperature text parsed. A record
      built by `fromJson` always has one; `NaN` stands in otherwise. */
  function Temperature(d: Reading): Double
  {
    match ParseDouble(d.temperature)
    case Some(v) => v
    case None => NaN
  }

  // ---------------------------------------------------------------------------
  // text form

  /** The record as text, `{"sensorId":"<id>",<gap>"temperature":<t>,"timestamp":"<ts>"}`;
      `gap` is what follows the comma after the id. */
  function Encode(r: Reading, gap: string): string
  {
    "{" + Body(r, gap) + "}"
  }

  /** The text between the braces: three comma-separated `name:value`
      pieces. */
  function Body(r: Reading, gap: string): string {
    IdPiece(r.sensorId) + [','] + TemperaturePiece(gap, r.temperature) + [','] + StampPiece(r.timestamp)
  }

  function IdPiece(id: string): string {
    "\"sensorId\"" + [':'] + ("\"" + id + "\"")
  }

  function TemperaturePiece(gap: string, t: string): string {
    gap + "\"temperature\"" + [':'] + t
  }

  function StampPiece(ts: string): string {
    "\"timestamp\"" + [':'] + ("\"" + ts + "\"")
  }

  /** `SensorData.toJson`, also the line `Sensor.run` builds by hand. */
  function ToJson(r: Reading): (line: string)
    ensures line == "{\"sensorId\":\"" + r.sensorId + "\",\"temperature\":" + r.temperature
                    + ",\"timestamp\":\"" + r.timestamp + "\"}"
  {
    EncodeLayout(r, "");
    Encode(r, "")
  }

  /** The record's fields sit in the fixed template, `gap` after the first
      comma. */
  lemma EncodeLayout(r: Reading, gap: string)
    ensures Encode(r, gap) == "{\"sensorId\":\"" + r.sensorId + "\"," + gap + "\"temperature\":" + r.temperature
                              + ",\"timestamp\":\"" + r.timestamp + "\"}"
  {
    var id, t, ts := r.sensorId, r.temperature, r.timestamp;
    BodyLayout(r, gap);
    MergeLayout("\"sensorId\":\"" + id + "\"", "," + gap + "\"temperature\":" + t, ",\"timestamp\":\"" + ts + "\"");
    Regroup(id, gap, t, ts);
  }

  lemma BodyLayout(r: Reading, gap: string)
    ensures Body(r, gap) == ("\"sensorId\":\"" + r.sensorId + "\"") + ("," + gap + "\"temperature\":" + r.temperature)
                            + (",\"timestamp\":\"" + r.timestamp + "\"")
  {
  }

  lemma MergeLayout(a: string, b: string, c: string)
    ensures "{" + (a + b + c) + "}" == "{" + a + b + c + "}"
  {
  }

  lemma Regroup(id: string, gap: string, t: string, ts: string)
    ensures "{" + ("\"sensorId\":\"" + id + "\"") + ("," + gap + "\"temperature\":" + t) + (",\"timestamp\":\"" + ts + "\"") + "}"
         == "{\"sensorId\":\"" + id + "\"," + gap + "\"temperature\":" + t + ",\"timestamp\":\"" + ts + "\"}"
  {
  }

  /** The body `EdgeDevice.sendDataToServer` posts: `toJson` with a space
      after the first comma. */
  function WireJson(r: Reading): (body: string)
    ensures body == "{\"sensorId\":\"" + r.sensorId + "\", \"temperature\":" + r.temperature
                    + ",\"timestamp\":\"" + r.timestamp + "\"}"
  {
    EncodeLayout(r, " ");
    Encode(r, " ")
  }

  /** The wire body is the cached line with one space inserted right after
      the comma that ends the id. */
  lemma WireJsonSpace(r: Reading)
    ensures var k := |IdPiece(r.sensorId)| + 2;
      k <= |ToJson(r)| && WireJson(r) == ToJson(r)[..k] + " " + ToJson(r)[k..]
  {
    EncodeSpace(r);
    assert ToJson(r) == Encode(r, "") && WireJson(r) == Encode(r, " ");
  }

  lemma EncodeSpace(r: Reading)
    ensures var k := |IdPiece(r.sensorId)| + 2;
      k <= |Encode(r, "")| && Encode(r, " ") == Encode(r, "")[..k] + " " + Encode(r, "")[k..]
  {
    var t := "\"temperature\"" + [':'] + r.temperature;
    assert TemperaturePiece("", r.temperature) == t;
    assert TemperaturePiece(" ", r.temperature) == " " + t;
    InsertAfter(IdPiece(r.sensorId), t, StampPiece(r.timestamp), " ");
  }

  /** Inserting `g` in front of the second of three comma-separated pieces
      inserts it right after the first comma of the braced text. */
  lemma InsertAfter(a: string, t: string, s: string, g: string)
    ensures var line := "{" + (a + [','] + t + [','] + s) + "}";
      |a| + 2 <= |line| && "{" + (a + [','] + (g + t) + [','] + s) + "}" == line[..|a| + 2] + g + line[|a| + 2..]
  {
    var head := "{" + a + [','];
    var rest := t + [','] + s + "}";
    var line := "{" + (a + [','] + t + [','] + s) + "}";
    assert line == head + rest;
    assert line[..|head|] == head && line[|head|..] == rest;
    assert "{" + (a + [','] + (g + t) + [','] + s) + "}" == head + g + rest;
  }

  /** `SensorData.fromJson` (and the edge's identical `parseJson`): drop all
      braces, split on `,`, take the text after the first `:` of each of the
      first three pieces, strip quotes and blanks; any exception, including a
      temperature `Double.parseDouble` rejects, is `None`. A parsed record's
      id and timestamp are clean fields; `FromJsonNumeric` says what its
      temperature is. */
  function FromJson(s: string): (r: Option<Reading>)
    ensures r.Some? ==> Clean(r.value.sensorId) && Clean(r.value.timestamp)
  {
    var parts := JavaSplit(Remove(Remove(s, '{'), '}'), ',');
    if |parts| < 3 then None
    else
      var idPair := JavaSplit(parts[0], ':');
      var temperaturePair := JavaSplit(parts[1], ':');
      var stampPair := JavaSplit(parts[2], ':');
      if |idPair| < 2 || |temperaturePair| < 2 || |stampPair| < 2 then None
      else
        var token := Trim(temperaturePair[1]);
        if ParseDouble(token).None? then None
        else
          var r := Reading(Trim(Remove(idPair[1], '"')), token, Trim(Remove(Trim(stampPair[1]), '"')));
          FieldsClean(s, parts, idPair, temperaturePair, stampPair, r);
          Some(r)
  }

  /** The temperature of a parsed record is text `Double.parseDouble`
      accepts, with no surrounding blanks and no comma or colon. */
  lemma FromJsonNumeric(s: string)
    requires FromJson(s).Some?
    ensures ParseDouble(FromJson(s).value.temperature).Some?
    ensures Trimmed(FromJson(s).value.temperature)
    ensures ',' !in FromJson(s).value.temperature && ':' !in FromJson(s).value.temperature
  {
    var parts := JavaSplit(Remove(Remove(s, '{'), '}'), ',');
    var idPair := JavaSplit(parts[0], ':');
    var temperaturePair := JavaSplit(parts[1], ':');
    var stampPair := JavaSplit(parts[2], ':');
    var r := FromJson(s).value;
    FieldsClean(s, parts, idPair, temperaturePair, stampPair, r);
  }

  lemma FieldsClean(s: string, parts: seq<string>, idPair: seq<string>, temperaturePair: seq<string>,
                    stampPair: seq<string>, r: Reading)
    requires parts == JavaSplit(Remove(Remove(s, '{'), '}'), ',') && |parts| >= 3
    requires idPair == JavaSplit(parts[0], ':') && |idPair| >= 2
    requires temperaturePair == JavaSplit(parts[1], ':') && |temperaturePair| >= 2
    requires stampPair == JavaSplit(parts[2], ':') && |stampPair| >= 2
    requires r == Reading(Trim(Remove(idPair[1], '"')), Trim(temperaturePair[1]),
                          Trim(Remove(Trim(stampPair[1]), '"')))
    ensures Clean(r.sensorId) && Clean(r.timestamp)
    ensures ',' !in r.temperature && ':' !in r.temperature
  {
    var braceless := Remove(Remove(s, '{'), '}');
    PieceAvoids(braceless, 0, idPair[1]);
    PieceAvoids(braceless, 1, temperaturePair[1]);
    PieceAvoids(braceless, 2, stampPair[1]);
    UnquotedClean(idPair[1], Remove(idPair[1], '"'), r.sensorId);
    TrimChars(temperaturePair[1]);
    TrimChars(stampPair[1]);
    UnquotedClean(stampPair[1], Remove(Trim(stampPair[1]), '"'), r.timestamp);
  }

  /** The text after the first `:` of the `k`-th comma-separated piece holds
      no brace, comma or colon. */
  lemma PieceAvoids(braceless: string, k: nat, value: string)
    requires '{' !in braceless && '}' !in braceless
    requires k < |JavaSplit(braceless, ',')|
    requires |JavaSplit(JavaSplit(braceless, ',')[k], ':')| >= 2
    requires value == JavaSplit(JavaSplit(braceless, ',')[k], ':')[1]
    ensures forall ch :: ch in value ==> ch != '{' && ch != '}' && ch != ',' && ch != ':'
  {
    var piece := JavaSplit(braceless, ',')[k];
    SplitPieceChars(braceless, ',', k);
    SplitPieceChars(piece, ':', 1);
  }

  /** Removing quotes and blanks from text without other structural
      characters leaves a clean field. */
  lemma UnquotedClean(value: string, unquoted: string, field: string)
    requires forall ch :: ch in value ==> ch != '{' && ch != '}' && ch != ',' && ch != ':'
    requires unquoted == Remove(value, '"') || unquoted == Remove(Trim(value), '"')
    requires field == Trim(unquoted)
    ensures Clean(field)
  {
    TrimChars(value);
    TrimChars(unquoted);
    forall i | 0 <= i < |field|
      ensures !IsSpecial(field[i])
    {
      assert field[i] in field;
    }
  }

  // ---------------------------------------------------------------------------
  // round trips

  lemma BodyFree(r: Reading, gap: string)
    requires Clean(r.sensorId) && Clean(r.timestamp) && Clean(r.temperature)
    requires gap == "" || gap == " "
    ensures '{' !in Body(r, gap) && '}' !in Body(r, gap)
  {
    CleanExcludes(r.sensorId);
    CleanExcludes(r.temperature);
    CleanExcludes(r.timestamp);
  }

  lemma RemoveBraces(body: string)
    requires '{' !in body && '}' !in body
    ensures Remove(Remove("{" + body + "}", '{'), '}') == body
  {
    RemoveAppend("{" + body, "}", '{');
    RemoveAppend("{", body, '{');
    RemoveAbsent(body, '{');
    RemoveAbsent("}", '{');
    assert Remove("{", '{') == "";
    RemoveAppend(body, "}", '}');
    RemoveAbsent(body, '}');
    assert Remove("}", '}') == "";
  }

  lemma SplitBody(r: Reading, gap: string)
    requires Clean(r.sensorId) && Clean(r.timestamp) && Clean(r.temperature)
    requires gap == "" || gap == " "
    ensures JavaSplit(Body(r, gap), ',') == [IdPiece(r.sensorId), TemperaturePiece(gap, r.temperature), StampPiece(r.timestamp)]
  {
    CleanExcludes(r.sensorId);
    CleanExcludes(r.temperature);
    CleanExcludes(r.timestamp);
    JavaSplitThree(IdPiece(r.sensorId), TemperaturePiece(gap, r.temperature), StampPiece(r.timestamp), ',');
  }

  lemma SplitPieces(r: Reading, gap: string)
    requires Clean(r.sensorId) && Clean(r.timestamp) && Clean(r.temperature) && |r.temperature| > 0
    requires gap == "" || gap == " "
    ensures JavaSplit(IdPiece(r.sensorId), ':') == ["\"sensorId\"", "\"" + r.sensorId + "\""]
    ensures JavaSplit(TemperaturePiece(gap, r.temperature), ':') == [gap + "\"temperature\"", r.temperature]
    ensures JavaSplit(StampPiece(r.timestamp), ':') == ["\"timestamp\"", "\"" + r.timestamp + "\""]
  {
    CleanExcludes(r.sensorId);
    CleanExcludes(r.temperature);
    CleanExcludes(r.timestamp);
    JavaSplitTwo("\"sensorId\"", "\"" + r.sensorId + "\"", ':');
    JavaSplitTwo(gap + "\"temperature\"", r.temperature, ':');
    JavaSplitTwo("\"timestamp\"", "\"" + r.timestamp + "\"", ':');
  }

  /** A record whose fields are clean and whose temperature is a number is
      read back exactly from either text form. */
  lemma FromJsonEncode(r: Reading, gap: string)
    requires Clean(r.sensorId) && Clean(r.timestamp) && Clean(r.temperature)
    requires ParseDouble(r.temperature).Some?
    requires gap == "" || gap == " "
    ensures FromJson(Encode(r, gap)) == Some(r)
  {
    EncodeParts(r, gap);
    FieldValues(r, gap);
    FromJsonFields(Encode(r, gap), IdPiece(r.sensorId), TemperaturePiece(gap, r.temperature), StampPiece(r.timestamp), r);
  }

  /** Without its braces, the text form splits into its three pieces. */
  lemma EncodeParts(r: Reading, gap: string)
    requires Clean(r.sensorId) && Clean(r.timestamp) && Clean(r.temperature)
    requires gap == "" || gap == " "
    ensures JavaSplit(Remove(Remove(Encode(r, gap), '{'), '}'), ',')
         == [IdPiece(r.sensorId), TemperaturePiece(gap, r.temperature), StampPiece(r.timestamp)]
  {
    BodyFree(r, gap);
    RemoveBraces(Body(r, gap));
    SplitBody(r, gap);
  }

  /** Each piece's value, unquoted and trimmed as `fromJson` does, is the
      field it was built from. */
  lemma FieldValues(r: Reading, gap: string)
    requires Clean(r.sensorId) && Clean(r.timestamp) && Clean(r.temperature) && |r.temperature| > 0
    requires gap == "" || gap == " "
    ensures |JavaSplit(IdPiece(r.sensorId), ':')| >= 2
    ensures |JavaSplit(TemperaturePiece(gap, r.temperature), ':')| >= 2
    ensures |JavaSplit(StampPiece(r.timestamp), ':')| >= 2
    ensures Trim(Remove(JavaSplit(IdPiece(r.sensorId), ':')[1], '"')) == r.sensorId
    ensures Trim(JavaSplit(TemperaturePiece(gap, r.temperature), ':')[1]) == r.temperature
    ensures Trim(Remove(Trim(JavaSplit(StampPiece(r.timestamp), ':')[1]), '"')) == r.timestamp
  {
    SplitPieces(r, gap);
    QuotedField(r.sensorId);
    QuotedField(r.timestamp);
    assert Trimmed("\"" + r.timestamp + "\"");
  }

  /** `fromJson` yields the record its three pieces spell. */
  lemma FromJsonFields(s: string, id: string, temperature: string, stamp: string, r: Reading)
    requires JavaSplit(Remove(Remove(s, '{'), '}'), ',') == [id, temperature, stamp]
    requires |JavaSplit(id, ':')| >= 2 && |JavaSplit(temperature, ':')| >= 2 && |JavaSplit(stamp, ':')| >= 2
    requires r.sensorId == Trim(Remove(JavaSplit(id, ':')[1], '"'))
    requires r.temperature == Trim(JavaSplit(temperature, ':')[1]) && ParseDouble(r.temperature).Some?
    requires r.timestamp == Trim(Remove(Trim(JavaSplit(stamp, ':')[1]), '"'))
    ensures FromJson(s) == Some(r)
  {
  }

  /** Quotes around a clean field come off again. */
  lemma QuotedField(v: string)
    requires Clean(v)
    ensures Trim(Remove("\"" + v + "\"", '"')) == v
  {
    CleanExcludes(v);
    RemoveAppend("\"" + v, "\"", '"');
    RemoveAppend("\"", v, '"');
    RemoveAbsent(v, '"');
    assert Remove("\"", '"') == "";
  }

  /** `fromJson(toJson(r))` recovers `r`. */
  lemma FromJsonToJson(r: Reading)
    requires Clean(r.sensorId) && Clean(r.timestamp) && Clean(r.temperature)
    requires ParseDouble(r.temperature).Some?
    ensures FromJson(ToJson(r)) == Some(r)
  {
    FromJsonEncode(r, "");
  }

  /** The cloud's `fromJson` recovers `r` from the body the edge device posts. */
  lemma FromJsonWireJson(r: Reading)
    requires Clean(r.sensorId) && Clean(r.timestamp) && Clean(r.temperature)
    requires ParseDouble(r.temperature).Some?
    ensures FromJson(WireJson(r)) == Some(r)
  {
    FromJsonEncode(r, " ");
  }
}
