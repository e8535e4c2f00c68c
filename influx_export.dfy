/** The mapping of measurements to InfluxDB points in the export program
    (influxdb-export/src/main.rs): one point named `electricity` per
    measurement, stamped with the hour, with fields for what is known and
    tags for tariff and resolution.  The database client and its writes
    are not modelled: the points are collected in the order they would be
    written. */
module InfluxExport {
  import opened Common
  import opened Measurements

  /** A field value of the client library. */
  datatype FieldValue = Float(f: real) | Integer(i: int)

  /** A finished point: its name, timestamp, fields and tags. */
  datatype PointValue = PointValue(
    key: string,
    timestamp: Option<int>,
    fields: map<string, FieldValue>,
    tags: map<string, string>)

  /** The client library's point builder, which the loop fills in step by
      step. */
  class Point {
    const key: string
    var timestamp: Option<int>
    var fields: map<string, FieldValue>
    var tags: map<string, string>

    function Value(): PointValue
      reads this
    {
      PointValue(key, timestamp, fields, tags)
    }

    constructor (key: string)
      ensures Value() == PointValue(key, None, map[], map[])
    {
      this.key := key;
      timestamp := None;
      fields := map[];
      tags := map[];
    }

    method SetTimestamp(ts: int)
      modifies this
      ensures Value() == old(Value()).(timestamp := Some(ts))
    {
      timestamp := Some(ts);
    }

    method AddField(name: string, value: FieldValue)
      modifies this
      ensures Value() == old(Value()).(fields := old(fields)[name := value])
    {
      fields := fields[name := value];
    }

    method AddTag(name: string, value: string)
      modifies this
      ensures Value() == old(Value()).(tags := old(tags)[name := value])
    {
      tags := tags[name := value];
    }
  }

  const Key: string := "electricity"

  function ResolutionName(r: Resolution): string
  {
    match r
    case Hour => "hour"
    case Day => "day"
    case Month => "month"
    case Year => "year"
  }

  function TariffName(t: Tariff): string
  {
    match t
    case Day => "day"
    case Night => "night"
  }

  /** The fields the loop adds, in its order. */
  function Fields(m: Measurement): map<string, FieldValue>
  {
    var base := map["consumption" := Float(m.consumption), "quality" := Integer(m.quality)];
    var withEnergy := if m.price.energy.Some? then base["energy_price" := Float(m.price.energy.value)] else base;
    var withTransfer :=
      if m.price.transfer.Some? then withEnergy["transfer_price" := Float(m.price.transfer.value)] else withEnergy;
    var withPrice :=
      if m.price.energy.Some? && m.price.transfer.Some?
      then withTransfer["price" := Float(m.price.energy.value + m.price.transfer.value)]
      else withTransfer;
    if m.temperature.Some? then withPrice["temperature" := Float(m.temperature.value)] else withPrice
  }

  /** The tags the loop adds, in its order. */
  function Tags(m: Measurement): map<string, string>
  {
    var withTariff := if m.resolution == Hour then map["tariff" := TariffName(m.tariff)] else map[];
    withTariff["resolution" := ResolutionName(m.resolution)]
  }

  /** The point built for one measurement. */
  function ToPoint(m: Measurement): PointValue
  {
    PointValue(Key, Some(TruncDiv(m.timestamp, 3600)), Fields(m), Tags(m))
  }

  /** The body of the loop: one point built with the library's builder. */
  method BuildPoint(m: Measurement) returns (p: Point)
    ensures fresh(p) && p.Value() == ToPoint(m)
  {
    p := new Point(Key);
    p.SetTimestamp(TruncDiv(m.timestamp, 3600));
    p.AddField("consumption", Float(m.consumption));
    p.AddField("quality", Integer(m.quality));
    if m.price.energy.Some? {
      p.AddField("energy_price", Float(m.price.energy.value));
    }
    if m.price.transfer.Some? {
      p.AddField("transfer_price", Float(m.price.transfer.value));
    }
    if m.price.energy.Some? && m.price.transfer.Some? {
      p.AddField("price", Float(m.price.energy.value + m.price.transfer.value));
    }
    if m.temperature.Some? {
      p.AddField("temperature", Float(m.temperature.value));
    }
    if m.resolution == Hour {
      match m.tariff
      case Day => p.AddTag("tariff", "day");
      case Night => p.AddTag("tariff", "night");
    }
    match m.resolution
    case Hour => p.AddTag("resolution", "hour");
    case Day => p.AddTag("resolution", "day");
    case Month => p.AddTag("resolution", "month");
    case Year => p.AddTag("resolution", "year");
  }

  /** The loop of `main`: one point per measurement, in order, handed to
      the writer. */
  method ExportAll(measurements: seq<Measurement>) returns (written: seq<PointValue>)
    ensures |written| == |measurements|
    ensures forall k :: 0 <= k < |measurements| ==> written[k] == ToPoint(measurements[k])
  {
    written := [];
    for i := 0 to |measurements|
      invariant |written| == i
      invariant forall k :: 0 <= k < i ==> written[k] == ToPoint(measurements[k])
    {
      var point := BuildPoint(measurements[i]);
      written := written + [point.Value()];
    }
  }

  /** The point of a measurement: stamped with the UTC hour (epoch seconds
      divided by 3600, toward zero); `consumption` and `quality` always
      present; each price field present exactly when that price is; the
      combined `price` only when both are, as their sum; `temperature`
      absent exactly when the temperature is NaN; no other field. */
  lemma PointFields(m: Measurement)
    ensures var p := ToPoint(m);
      && p.key == "electricity"
      && p.timestamp.Some?
      && (m.timestamp >= 0 ==> 3600 * p.timestamp.value <= m.timestamp < 3600 * p.timestamp.value + 3600)
      && (m.timestamp < 0 ==> 3600 * p.timestamp.value - 3600 < m.timestamp <= 3600 * p.timestamp.value)
      && p.fields.Keys <= {"consumption", "quality", "energy_price", "transfer_price", "price", "temperature"}
      && "consumption" in p.fields && p.fields["consumption"] == Float(m.consumption)
      && "quality" in p.fields && p.fields["quality"] == Integer(m.quality)
      && ("energy_price" in p.fields <==> m.price.energy.Some?)
      && (m.price.energy.Some? ==> p.fields["energy_price"] == Float(m.price.energy.value))
      && ("transfer_price" in p.fields <==> m.price.transfer.Some?)
      && (m.price.transfer.Some? ==> p.fields["transfer_price"] == Float(m.price.transfer.value))
      && ("price" in p.fields <==> m.price.energy.Some? && m.price.transfer.Some?)
      && ("price" in p.fields ==> p.fields["price"] == Float(m.price.energy.value + m.price.transfer.value))
      && ("temperature" in p.fields <==> m.temperature.Some?)
      && (m.temperature.Some? ==> p.fields["temperature"] == Float(m.temperature.value))
  {
    TruncDivBounds(m.timestamp, 3600);
  }

  /** The `resolution` tag always names the resolution in lower case; the
      `tariff` tag is there only for hourly measurements, and then names
      the tariff. */
  lemma PointTags(m: Measurement)
    ensures var p := ToPoint(m);
      && p.tags.Keys <= {"tariff", "resolution"}
      && "resolution" in p.tags
      && p.tags["resolution"] == (match m.resolution
                                  case Hour => "hour" case Day => "day" case Month => "month" case Year => "year")
      && ("tariff" in p.tags <==> m.resolution == Hour)
      && (m.resolution == Hour ==> p.tags["tariff"] == if m.tariff == Tariff.Day then "day" else "night")
  {
  }
}
