/** The report snapshot as its JSON payload describes it
    (energiatili-model/src/model.rs), and the two ways of obtaining one:
    from the report page, whose `var model = ...;` line carries the payload
    with non-JSON date literals, and from a stream of plain JSON.  JSON
    decoding itself (serde) is a parameter: the model starts from the typed
    snapshot. */
module Snapshot {
  import opened Common
  import DateLiterals

  /** One `[timestamp, value]` element of a `Data` array.  The timestamp is
      Helsinki wall-clock epoch milliseconds. */
  datatype Sample = Sample(time: int, value: real)

  /** `model::Measurements`: one series and its metadata. */
  datatype Series = Series(
    data: seq<Sample>,
    dataCount: nat,
    name: string,
    resolution: string,
    start: int,
    stop: int,
    kind: string,
    unit: Option<string>)

  /** One tariff bucket of consumption. */
  datatype Consumption = Consumption(series: Series, tariffTimeZoneName: string)

  /** The data of one resolution: a consumption series per tariff bucket,
      the status series and the temperature series. */
  datatype OneResolution = OneResolution(
    consumptions: seq<Consumption>,
    consumptionStatuses: Series,
    temperature: Series)

  /** One price interval, closed at both ends; the bounds are UTC epoch
      seconds. */
  datatype Price = Price(startTime: int, endTime: int, priceNoVat: real, priceWithVat: real)

  datatype PriceList = PriceList(
    timeBasedEnergyDayPrices: seq<Price>,
    timeBasedEnergyNightPrices: seq<Price>)

  /** The whole snapshot: all four resolution blocks and both price lists
      are required fields, none of them optional. */
  datatype Model = Model(
    hours: OneResolution,
    days: OneResolution,
    months: OneResolution,
    years: OneResolution,
    networkPriceList: PriceList,
    salesPriceList: PriceList)

  /** serde_json's `from_str` / `from_reader` into `Model`: None when the
      text is not JSON of that shape. */
  type Parser = string -> Option<Model>

  /** The panics of `from_report_html` and the error of `from_reader`. */
  datatype LoadError =
    | ModelNotFound                                  // no line holds the marker
    | PayloadSlice(line: string)                     // the marker ends its line
    | RepairFailed(error: DateLiterals.RepairError)  // `fix_new_date` panicked
    | Json(text: string)                             // the text is not a `Model`

  /** One item of `BufRead::lines`: a line without its terminator, or a
      read error, which ends the `while let` loop. */
  datatype LineRead = Line(text: string) | ReadFailed

  const Marker: string := "var model = "

  /** The line that the loop stops at, scanning from line `i`: the first
      line holding the marker, unless a read error comes first. */
  function MarkerLineFrom(lines: seq<LineRead>, i: nat): Option<nat>
    requires i <= |lines|
    decreases |lines| - i
  {
    if i == |lines| || lines[i].ReadFailed? then None
    else if Contains(lines[i].text, Marker) then Some(i)
    else MarkerLineFrom(lines, i + 1)
  }

  function MarkerLine(lines: seq<LineRead>): Option<nat>
  {
    MarkerLineFrom(lines, 0)
  }

  lemma {:induction false} MarkerLineFromSpec(lines: seq<LineRead>, i: nat)
    requires i <= |lines|
    ensures var r := MarkerLineFrom(lines, i);
      && (r.Some? ==> i <= r.value < |lines| && lines[r.value].Line? && Contains(lines[r.value].text, Marker))
      && (r.Some? ==> forall k :: i <= k < r.value ==> lines[k].Line? && !Contains(lines[k].text, Marker))
      && (r.None? ==> forall k :: i <= k < |lines| && lines[k].Line? && Contains(lines[k].text, Marker) ==>
                        exists j :: i <= j < k && lines[j].ReadFailed?)
    decreases |lines| - i
  {
    if i < |lines| && lines[i].Line? && !Contains(lines[i].text, Marker) {
      MarkerLineFromSpec(lines, i + 1);
    }
  }

  /** The loop reads lines in order and stops at the first one holding the
      marker; every line before it was read and lacks the marker.  It finds
      none exactly when every line holding the marker comes after a read
      error. */
  lemma MarkerLineFirst(lines: seq<LineRead>)
    ensures var r := MarkerLine(lines);
      && (r.Some? ==> r.value < |lines| && lines[r.value].Line? && Contains(lines[r.value].text, Marker))
      && (r.Some? ==> forall k :: 0 <= k < r.value ==> lines[k].Line? && !Contains(lines[k].text, Marker))
      && (r.None? <==> forall k :: 0 <= k < |lines| && lines[k].Line? && Contains(lines[k].text, Marker) ==>
                         exists j :: 0 <= j < k && lines[j].ReadFailed?)
  {
    MarkerLineFromSpec(lines, 0);
    var r := MarkerLine(lines);
    if r.Some? {
      var k := r.value;
      assert lines[k].Line? && Contains(lines[k].text, Marker);
      assert !(exists j :: 0 <= j < k && lines[j].ReadFailed?);
    }
  }

  /** The payload on a line holding the marker: from just after the first
      marker up to, not including, the line's last character (the `;`).
      None where that slice would end before it starts. */
  function Payload(line: string): Option<string>
  {
    match Find(line, Marker)
    case None => None
    case Some(start) =>
      if start + |Marker| <= |line| - 1 then Some(line[start + |Marker|..|line| - 1]) else None
  }

  /** The payload on `pre + marker + payload + last`, when `pre` holds no
      marker, is exactly `payload`; the marker ending its line is an error. */
  lemma PayloadBetween(pre: string, payload: string, last: char)
    requires !Contains(pre, Marker)
    ensures Payload(pre + Marker + payload + [last]) == Some(payload)
    ensures Payload(pre + Marker) == None
  {
    assert forall d :: 1 <= d < |Marker| ==> Marker[d] != Marker[0];
    var line := pre + Marker + payload + [last];
    assert line == pre + Marker + (payload + [last]);
    FindAfterPlainText(pre, Marker, payload + [last]);
    assert line[|pre| + |Marker|..|line| - 1] == payload;
    assert pre + Marker == pre + Marker + "";
    FindAfterPlainText(pre, Marker, "");
  }

  /** The repaired payload read as JSON. */
  function LoadPayload(payload: string, lib: TimeLib, parse: Parser): Result<Model, LoadError>
  {
    match DateLiterals.Repair(payload, lib)
    case Err(e) => Err(RepairFailed(e))
    case Ok(json) =>
      match parse(json)
      case None => Err(Json(json))
      case Some(m) => Ok(m)
  }

  /** What `from_report_html` returns for the lines of the page. */
  function ReportModel(lines: seq<LineRead>, lib: TimeLib, parse: Parser): Result<Model, LoadError>
  {
    match MarkerLine(lines)
    case None => Err(ModelNotFound)
    case Some(k) =>
      MarkerLineFromSpec(lines, 0);
      match Payload(lines[k].text)
      case None => Err(PayloadSlice(lines[k].text))
      case Some(payload) => LoadPayload(payload, lib, parse)
  }

  /** `from_report_html`: the `while let` loop over the lines. */
  method FromReportHtml(lines: seq<LineRead>, lib: TimeLib, parse: Parser) returns (r: Result<Model, LoadError>)
    ensures r == ReportModel(lines, lib, parse)
  {
    var i := 0;
    while i < |lines| && lines[i].Line?
      invariant 0 <= i <= |lines|
      invariant MarkerLineFrom(lines, i) == MarkerLine(lines)
    {
      var line := lines[i].text;
      var start := Find(line, Marker);
      FindSpec(line, Marker);
      if start.Some? {
        assert MarkerLine(lines) == Some(i);
        if start.value + |Marker| > |line| - 1 {
          return Err(PayloadSlice(line));
        }
        var jsonStr := DateLiterals.FixNewDate(line[start.value + |Marker|..|line| - 1], lib);
        if jsonStr.Err? {
          return Err(RepairFailed(jsonStr.error));
        }
        var model := parse(jsonStr.value);
        if model.None? {
          return Err(Json(jsonStr.value));
        }
        return Ok(model.value);
      }
      i := i + 1;
    }
    r := Err(ModelNotFound);
  }

  /** Only the first line holding the marker is used: lines before it
      lacking the marker are skipped, the payload sits between the marker
      and the last character, and it goes through the literal repair before
      being read; whatever follows is never looked at. */
  lemma ReportUsesFirstMarkerLine(before: seq<LineRead>, pre: string, payload: string, last: char,
                                  after: seq<LineRead>, lib: TimeLib, parse: Parser)
    requires forall k :: 0 <= k < |before| ==> before[k].Line? && !Contains(before[k].text, Marker)
    requires !Contains(pre, Marker)
    ensures ReportModel(before + [Line(pre + Marker + payload + [last])] + after, lib, parse)
         == LoadPayload(payload, lib, parse)
  {
    var lines := before + [Line(pre + Marker + payload + [last])] + after;
    var n := |before|;
    assert lines[n] == Line(pre + Marker + payload + [last]);
    assert Contains(lines[n].text, Marker) by {
      assert (pre + Marker + payload + [last])[|pre|..|pre| + |Marker|] == Marker;
      assert OccursAt(lines[n].text, Marker, |pre|);
    }
    MarkerLinePrefix(lines, 0, n);
    PayloadBetween(pre, payload, last);
  }

  lemma {:induction false} MarkerLinePrefix(lines: seq<LineRead>, i: nat, n: nat)
    requires i <= n < |lines| && lines[n].Line? && Contains(lines[n].text, Marker)
    requires forall k :: i <= k < n ==> lines[k].Line? && !Contains(lines[k].text, Marker)
    ensures MarkerLineFrom(lines, i) == Some(n)
    decreases n - i
  {
    if i < n {
      MarkerLinePrefix(lines, i + 1, n);
    }
  }

  /** `from_reader`: the input is parsed as it is, without literal repair. */
  function FromReader(input: string, parse: Parser): Result<Model, LoadError>
  {
    match parse(input)
    case None => Err(Json(input))
    case Some(m) => Ok(m)
  }

  /** The two paths agree on a payload without date literals: the page
      line `var model = <payload>;` gives what reading the payload directly
      gives.  With literals they differ: only the page path repairs them. */
  lemma ReaderMatchesReport(payload: string, lib: TimeLib, parse: Parser)
    requires !Contains(payload, DateLiterals.Literal)
    ensures ReportModel([Line(Marker + payload + ";")], lib, parse) == FromReader(payload, parse)
  {
    assert !Contains("", Marker);
    assert Marker + payload + ";" == "" + Marker + payload + [';'];
    ReportUsesFirstMarkerLine([], "", payload, ';', [], lib, parse);
    assert [] + [Line("" + Marker + payload + [';'])] + [] == [Line(Marker + payload + ";")];
    DateLiterals.LiteralFreeUnchanged(payload, lib);
  }
}
