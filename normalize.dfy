/** The conversion of a snapshot into measurements
    (energiatili-model/src/measurement.rs): every consumption sample of
    every tariff bucket of every resolution becomes one priced measurement,
    joined with the first status and temperature samples at its time; each
    resolution's measurements are sorted, the four are appended, and the
    whole is sorted again under the derived order of `Measurements`. */
module Normalize {
  import opened Common
  import opened Measurements
  import Snapshot

  /** The panics of the conversion. */
  datatype NormalizeError =
    | UnknownTariff(name: string)   // a bucket label other than the two known ones
    | NoLocalTime(seconds: int)     // a wall-clock time with no unique UTC instant

  /** The resolutions in the order the conversion visits them. */
  const Resolutions: seq<Resolution> := [Hour, Resolution.Day, Month, Year]

  /** The block of the snapshot that holds one resolution's data. */
  function Block(model: Snapshot.Model, resolution: Resolution): Snapshot.OneResolution
  {
    match resolution
    case Hour => model.hours
    case Day => model.days
    case Month => model.months
    case Year => model.years
  }

  /** The tariff of a bucket, decoded from its Finnish label. */
  function DecodeTariff(name: string): (r: Result<Tariff, NormalizeError>)
    ensures r == Ok(Tariff.Day) <==> name == "Päivä"
    ensures r == Ok(Night) <==> name == "Yö"
    ensures r.Err? <==> r == Err(UnknownTariff(name))
  {
    if name == "Päivä" then Ok(Tariff.Day)
    else if name == "Yö" then Ok(Night)
    else Err(UnknownTariff(name))
  }

  // ---------------------------------------------------------------------
  // Joining a consumption sample with the status and temperature series

  /** The value of the first sample of `data` taken at `time`. */
  function SampleAt(data: seq<Snapshot.Sample>, time: int): Option<real>
    decreases |data|
  {
    if |data| == 0 then None
    else if data[0].time == time then Some(data[0].value)
    else SampleAt(data[1..], time)
  }

  /** The search answers the first sample at `time` in list order, and
      nothing exactly when no sample is at `time`. */
  lemma {:induction false} SampleAtFirst(data: seq<Snapshot.Sample>, time: int)
    ensures SampleAt(data, time).None? <==> forall k :: 0 <= k < |data| ==> data[k].time != time
    ensures forall k :: 0 <= k < |data| && data[k].time == time && (forall j :: 0 <= j < k ==> data[j].time != time)
                        ==> SampleAt(data, time) == Some(data[k].value)
    decreases |data|
  {
    if |data| > 0 && data[0].time != time {
      SampleAtFirst(data[1..], time);
      forall k | 0 <= k < |data| && data[k].time == time && (forall j :: 0 <= j < k ==> data[j].time != time)
        ensures SampleAt(data, time) == Some(data[k].value)
      {
        assert data[1..][k - 1] == data[k];
        forall j | 0 <= j < k - 1
          ensures data[1..][j].time != time
        {
          assert data[1..][j] == data[j + 1];
        }
      }
      if SampleAt(data, time).Some? {
        var k :| 0 <= k < |data[1..]| && data[1..][k].time == time;
        assert data[k + 1].time == time;
      }
    }
  }

  /** The search loops over the status and temperature series: stop at the
      first sample whose timestamp matches. */
  method FirstSample(data: seq<Snapshot.Sample>, time: int) returns (v: Option<real>)
    ensures v == SampleAt(data, time)
  {
    v := None;
    var i := 0;
    while i < |data|
      invariant 0 <= i <= |data|
      invariant SampleAt(data[i..], time) == SampleAt(data, time)
    {
      assert data[i..][1..] == data[i + 1..];
      if data[i].time == time {
        v := Some(data[i].value);
        break;
      }
      i := i + 1;
    }
  }

  /** Rust's `as` conversion of a float to an integer: toward zero. */
  function Truncate(x: real): int
  {
    if x >= 0.0 then x.Floor else -((-x).Floor)
  }

  /** Rust's `as i8` on a float: truncated toward zero, then saturated. */
  function CastI8(x: real): I8
  {
    var n := Truncate(x);
    if n < -128 then -128 else if n > 127 then 127 else n
  }

  /** The quality of a sample: its status value as `i8`, or -1 when no
      status sample matches. */
  function QualityOf(status: Option<real>): I8
  {
    match status
    case None => -1
    case Some(x) => CastI8(x)
  }

  // ---------------------------------------------------------------------
  // Prices

  predicate Covers(p: Snapshot.Price, t: int)
  {
    p.startTime <= t <= p.endTime
  }

  /** The price of the first interval of `list` that contains `t`. */
  function PriceIn(list: seq<Snapshot.Price>, t: int): Option<real>
    decreases |list|
  {
    if |list| == 0 then None
    else if Covers(list[0], t) then Some(list[0].priceWithVat)
    else PriceIn(list[1..], t)
  }

  /** The interval search is first-match over closed intervals: it answers
      the price with VAT of the first interval in list order with
      `start <= t <= end`, and nothing exactly when no interval holds `t`. */
  lemma {:induction false} PriceInFirst(list: seq<Snapshot.Price>, t: int)
    ensures PriceIn(list, t).None? <==> forall k :: 0 <= k < |list| ==> !Covers(list[k], t)
    ensures forall k :: 0 <= k < |list| && Covers(list[k], t)
                        && (forall j :: 0 <= j < k ==> !Covers(list[j], t))
                        ==> PriceIn(list, t) == Some(list[k].priceWithVat)
    decreases |list|
  {
    if |list| > 0 && !Covers(list[0], t) {
      PriceInFirst(list[1..], t);
      forall k | 0 <= k < |list| && Covers(list[k], t)
                 && (forall j :: 0 <= j < k ==> !Covers(list[j], t))
        ensures PriceIn(list, t) == Some(list[k].priceWithVat)
      {
        assert list[1..][k - 1] == list[k];
        forall j | 0 <= j < k - 1
          ensures !Covers(list[1..][j], t)
        {
          assert list[1..][j] == list[j + 1];
        }
      }
      if PriceIn(list, t).Some? {
        var k :| 0 <= k < |list[1..]| && Covers(list[1..][k], t);
        assert list[k + 1] == list[1..][k];
      }
    }
  }

  /** The transfer prices come from the network list, for the tariff's
      half of it. */
  function TransferList(model: Snapshot.Model, tariff: Tariff): seq<Snapshot.Price>
  {
    match tariff
    case Day => model.networkPriceList.timeBasedEnergyDayPrices
    case Night => model.networkPriceList.timeBasedEnergyNightPrices
  }

  /** The energy prices come from the sales list, for the tariff's half
      of it. */
  function EnergyList(model: Snapshot.Model, tariff: Tariff): seq<Snapshot.Price>
  {
    match tariff
    case Day => model.salesPriceList.timeBasedEnergyDayPrices
    case Night => model.salesPriceList.timeBasedEnergyNightPrices
  }

  /** What `find_price` returns: unit prices at UTC time `t`. */
  function PriceFor(t: int, tariff: Tariff, model: Snapshot.Model): Price
  {
    Price(PriceIn(TransferList(model, tariff), t), PriceIn(EnergyList(model, tariff), t))
  }

  /** `find_price`: two search loops, each stopping at the first interval
      that contains `t`. */
  method FindPrice(t: int, tariff: Tariff, model: Snapshot.Model) returns (p: Price)
    ensures p == PriceFor(t, tariff, model)
  {
    var transferList, energyList := TransferList(model, tariff), EnergyList(model, tariff);

    var transfer := None;
    var i := 0;
    while i < |transferList|
      invariant 0 <= i <= |transferList|
      invariant PriceIn(transferList[i..], t) == PriceIn(transferList, t)
    {
      assert transferList[i..][1..] == transferList[i + 1..];
      if t >= transferList[i].startTime && t <= transferList[i].endTime {
        transfer := Some(transferList[i].priceWithVat);
        break;
      }
      i := i + 1;
    }

    var energy := None;
    var j := 0;
    while j < |energyList|
      invariant 0 <= j <= |energyList|
      invariant PriceIn(energyList[j..], t) == PriceIn(energyList, t)
    {
      assert energyList[j..][1..] == energyList[j + 1..];
      if t >= energyList[j].startTime && t <= energyList[j].endTime {
        energy := Some(energyList[j].priceWithVat);
        break;
      }
      j := j + 1;
    }

    p := Price(transfer, energy);
  }

  /** The cost of a consumption at a unit price. */
  function Cost(unit: real, consumption: real): real
  {
    unit * consumption
  }

  /** A unit price times the consumption; a missing price stays missing. */
  function Scale(unit: Option<real>, consumption: real): Option<real>
  {
    match unit
    case None => None
    case Some(p) => Some(Cost(p, consumption))
  }

  // ---------------------------------------------------------------------
  // One measurement

  /** The measurement made of one consumption sample of a bucket with the
      given tariff, in the block of the given resolution. */
  function Assemble(sample: Snapshot.Sample, tariff: Tariff, resolution: Resolution,
                    model: Snapshot.Model, lib: TimeLib): Result<Measurement, NormalizeError>
  {
    var local := TruncDiv(sample.time, 1000);
    match lib.localToUtc(local)
    case None => Err(NoLocalTime(local))
    case Some(utc) =>
      var root := Block(model, resolution);
      var unit := PriceFor(utc, tariff, model);
      Ok(Measurement(
        utc, local, sample.value,
        QualityOf(SampleAt(root.consumptionStatuses.data, sample.time)),
        SampleAt(root.temperature.data, sample.time),
        tariff, resolution,
        Price(Scale(unit.transfer, sample.value), Scale(unit.energy, sample.value))))
  }

  /** The body of the inner loop of `convert_one_resolution`. */
  method AssembleSample(sample: Snapshot.Sample, tariff: Tariff, resolution: Resolution,
                        model: Snapshot.Model, lib: TimeLib) returns (r: Result<Measurement, NormalizeError>)
    ensures r == Assemble(sample, tariff, resolution, model, lib)
  {
    var local := TruncDiv(sample.time, 1000);
    var localtime := lib.localToUtc(local);
    if localtime.None? {
      return Err(NoLocalTime(local));
    }
    var timestamp := localtime.value;
    var root := Block(model, resolution);
    var status := FirstSample(root.consumptionStatuses.data, sample.time);
    var temperature := FirstSample(root.temperature.data, sample.time);
    var p := FindPrice(timestamp, tariff, model);
    var price := Price(Scale(p.transfer, sample.value), Scale(p.energy, sample.value));
    r := Ok(Measurement(timestamp, local, sample.value, QualityOf(status), temperature, tariff, resolution, price));
  }

  /** A sample converts exactly when its wall-clock second, the
      milliseconds truncated toward zero, has a unique UTC instant; the
      record then carries that instant, the sample's consumption, and the
      resolution and tariff it was converted under. */
  lemma AssembleRecord(sample: Snapshot.Sample, tariff: Tariff, resolution: Resolution,
                       model: Snapshot.Model, lib: TimeLib)
    ensures var r := Assemble(sample, tariff, resolution, model, lib);
      && (r.Err? <==> lib.localToUtc(TruncDiv(sample.time, 1000)).None?)
      && (r.Err? ==> r.error == NoLocalTime(TruncDiv(sample.time, 1000)))
      && (r.Ok? ==>
            && Some(r.value.timestamp) == lib.localToUtc(TruncDiv(sample.time, 1000))
            && r.value.consumption == sample.value
            && r.value.resolution == resolution && r.value.tariff == tariff)
  {
  }

  /** The quality is the value, cast to `i8`, of the first status sample in
      list order taken at the consumption sample's time; -1 when there is
      none. */
  lemma QualityFirstMatch(sample: Snapshot.Sample, tariff: Tariff, resolution: Resolution,
                          model: Snapshot.Model, lib: TimeLib, m: Measurement)
    requires Assemble(sample, tariff, resolution, model, lib) == Ok(m)
    ensures var statuses := Block(model, resolution).consumptionStatuses.data;
      && ((forall k :: 0 <= k < |statuses| ==> statuses[k].time != sample.time) ==> m.quality == -1)
      && (forall k :: 0 <= k < |statuses| && statuses[k].time == sample.time
                      && (forall j :: 0 <= j < k ==> statuses[j].time != sample.time)
                      ==> m.quality == CastI8(statuses[k].value))
  {
    SampleAtFirst(Block(model, resolution).consumptionStatuses.data, sample.time);
  }

  /** The temperature is the value of the first temperature sample in list
      order taken at the consumption sample's time; missing (NaN in the
      source) exactly when there is none. */
  lemma TemperatureFirstMatch(sample: Snapshot.Sample, tariff: Tariff, resolution: Resolution,
                              model: Snapshot.Model, lib: TimeLib, m: Measurement)
    requires Assemble(sample, tariff, resolution, model, lib) == Ok(m)
    ensures var temps := Block(model, resolution).temperature.data;
      && (m.temperature.None? <==> forall k :: 0 <= k < |temps| ==> temps[k].time != sample.time)
      && (forall k :: 0 <= k < |temps| && temps[k].time == sample.time
                      && (forall j :: 0 <= j < k ==> temps[j].time != sample.time)
                      ==> m.temperature == Some(temps[k].value))
  {
    SampleAtFirst(Block(model, resolution).temperature.data, sample.time);
  }

  /** The transfer cost is the consumption times the price of the first
      interval of the network list for the tariff that contains the UTC
      time; the energy cost likewise from the sales list.  Each is missing
      exactly when no interval of its list contains that time. */
  lemma PriceFirstMatchScaled(sample: Snapshot.Sample, tariff: Tariff, resolution: Resolution,
                              model: Snapshot.Model, lib: TimeLib, m: Measurement)
    requires Assemble(sample, tariff, resolution, model, lib) == Ok(m)
    ensures var transfers := TransferList(model, tariff);
      && (m.price.transfer.None? <==> forall k :: 0 <= k < |transfers| ==> !Covers(transfers[k], m.timestamp))
      && (forall k :: 0 <= k < |transfers| && Covers(transfers[k], m.timestamp)
                      && (forall j :: 0 <= j < k ==> !Covers(transfers[j], m.timestamp))
                      ==> m.price.transfer.Some? && m.price.transfer.value == Cost(transfers[k].priceWithVat, sample.value))
    ensures var energies := EnergyList(model, tariff);
      && (m.price.energy.None? <==> forall k :: 0 <= k < |energies| ==> !Covers(energies[k], m.timestamp))
      && (forall k :: 0 <= k < |energies| && Covers(energies[k], m.timestamp)
                      && (forall j :: 0 <= j < k ==> !Covers(energies[j], m.timestamp))
                      ==> m.price.energy.Some? && m.price.energy.value == Cost(energies[k].priceWithVat, sample.value))
  {
    AssembledPrice(sample, tariff, resolution, model, lib, m);
    ScaledFirstMatch(TransferList(model, tariff), m.timestamp, sample.value, m.price.transfer);
    ScaledFirstMatch(EnergyList(model, tariff), m.timestamp, sample.value, m.price.energy);
  }

  /** The costs of an assembled measurement are the unit prices at its UTC
      instant scaled by its consumption. */
  lemma AssembledPrice(sample: Snapshot.Sample, tariff: Tariff, resolution: Resolution,
                       model: Snapshot.Model, lib: TimeLib, m: Measurement)
    requires Assemble(sample, tariff, resolution, model, lib) == Ok(m)
    ensures m.price.transfer == Scale(PriceIn(TransferList(model, tariff), m.timestamp), sample.value)
    ensures m.price.energy == Scale(PriceIn(EnergyList(model, tariff), m.timestamp), sample.value)
  {
  }

  /** A first-match unit price scaled by a consumption. */
  lemma ScaledFirstMatch(list: seq<Snapshot.Price>, t: int, consumption: real, cost: Option<real>)
    requires cost == Scale(PriceIn(list, t), consumption)
    ensures cost.None? <==> forall k :: 0 <= k < |list| ==> !Covers(list[k], t)
    ensures forall k :: 0 <= k < |list| && Covers(list[k], t) && (forall j :: 0 <= j < k ==> !Covers(list[j], t))
                        ==> cost.Some? && cost.value == Cost(list[k].priceWithVat, consumption)
  {
    PriceInFirst(list, t);
    forall k | 0 <= k < |list| && Covers(list[k], t) && (forall j :: 0 <= j < k ==> !Covers(list[j], t))
      ensures cost.Some? && cost.value == Cost(list[k].priceWithVat, consumption)
    {
      assert PriceIn(list, t) == Some(list[k].priceWithVat);
    }
  }

  // ---------------------------------------------------------------------
  // One resolution

  function Single(r: Result<Measurement, NormalizeError>): Result<seq<Measurement>, NormalizeError>
  {
    match r
    case Err(e) => Err(e)
    case Ok(m) => Ok([m])
  }

  /** The samples of one bucket converted in order; the first failure is
      the outcome. */
  function ConvertSamples(data: seq<Snapshot.Sample>, tariff: Tariff, resolution: Resolution,
                          model: Snapshot.Model, lib: TimeLib): Result<seq<Measurement>, NormalizeError>
    decreases |data|
  {
    if |data| == 0 then Ok([])
    else Concat(Single(Assemble(data[0], tariff, resolution, model, lib)),
                ConvertSamples(data[1..], tariff, resolution, model, lib))
  }

  /** One bucket: its label is decoded before any of its samples. */
  function ConvertBucket(c: Snapshot.Consumption, resolution: Resolution,
                         model: Snapshot.Model, lib: TimeLib): Result<seq<Measurement>, NormalizeError>
  {
    match DecodeTariff(c.tariffTimeZoneName)
    case Err(e) => Err(e)
    case Ok(tariff) => ConvertSamples(c.series.data, tariff, resolution, model, lib)
  }

  function ConvertBuckets(cs: seq<Snapshot.Consumption>, resolution: Resolution,
                          model: Snapshot.Model, lib: TimeLib): Result<seq<Measurement>, NormalizeError>
    decreases |cs|
  {
    if |cs| == 0 then Ok([])
    else Concat(ConvertBucket(cs[0], resolution, model, lib), ConvertBuckets(cs[1..], resolution, model, lib))
  }

  /** What `convert_one_resolution` returns: the measurements of every
      bucket of the block, in bucket and sample order, then sorted. */
  function Converted(resolution: Resolution, model: Snapshot.Model, lib: TimeLib): Result<seq<Measurement>, NormalizeError>
  {
    match ConvertBuckets(Block(model, resolution).consumptions, resolution, model, lib)
    case Err(e) => Err(e)
    case Ok(ms) => Ok(Sort(ms))
  }

  /** One turn of the inner loop: the sample's measurement is pushed. */
  lemma PushStep(ms: seq<Measurement>, m: Measurement, rest: Result<seq<Measurement>, NormalizeError>,
                 later: Result<seq<Measurement>, NormalizeError>)
    ensures Concat(Ok(ms), Concat(Concat(Single(Ok(m)), rest), later))
         == Concat(Ok(ms + [m]), Concat(rest, later))
  {
    ConcatAssoc(Single(Ok(m)), rest, later);
    ConcatAssoc(Ok(ms), Single(Ok(m)), Concat(rest, later));
  }

  /** `convert_one_resolution`: nested loops over buckets and samples that
      push onto one vector, then a sort. */
  method ConvertOneResolution(resolution: Resolution, model: Snapshot.Model, lib: TimeLib)
    returns (r: Result<seq<Measurement>, NormalizeError>)
    ensures r == Converted(resolution, model, lib)
  {
    var measurements: seq<Measurement> := [];
    var root := Block(model, resolution);
    var consumptions := root.consumptions;
    ghost var target := ConvertBuckets(consumptions, resolution, model, lib);
    ConcatEmpty(target);
    assert consumptions[0..] == consumptions;
    for i := 0 to |consumptions|
      invariant target == Concat(Ok(measurements), ConvertBuckets(consumptions[i..], resolution, model, lib))
    {
      ghost var later := ConvertBuckets(consumptions[i + 1..], resolution, model, lib);
      assert consumptions[i..][1..] == consumptions[i + 1..];
      var tariff := DecodeTariff(consumptions[i].tariffTimeZoneName);
      if tariff.Err? {
        return Err(tariff.error);
      }
      var data := consumptions[i].series.data;
      assert data[0..] == data;
      for j := 0 to |data|
        invariant target == Concat(Ok(measurements),
                                   Concat(ConvertSamples(data[j..], tariff.value, resolution, model, lib), later))
      {
        assert data[j..][1..] == data[j + 1..];
        var meas := AssembleSample(data[j], tariff.value, resolution, model, lib);
        if meas.Err? {
          return Err(meas.error);
        }
        PushStep(measurements, meas.value, ConvertSamples(data[j + 1..], tariff.value, resolution, model, lib), later);
        measurements := measurements + [meas.value];
      }
      assert data[|data|..] == [];
      ConcatEmpty(later);
    }
    assert consumptions[|consumptions|..] == [];
    ConcatEmpty<Measurement, NormalizeError>(Ok(measurements));
    measurements := Sort(measurements);
    r := Ok(measurements);
  }

  // ---------------------------------------------------------------------
  // All resolutions

  /** The four resolutions converted in order and appended. */
  function Gathered(rs: seq<Resolution>, model: Snapshot.Model, lib: TimeLib): Result<seq<Measurement>, NormalizeError>
    decreases |rs|
  {
    if |rs| == 0 then Ok([]) else Concat(Converted(rs[0], model, lib), Gathered(rs[1..], model, lib))
  }

  /** What `From<&Model> for Measurements` returns. */
  function Normalized(model: Snapshot.Model, lib: TimeLib): Result<seq<Measurement>, NormalizeError>
  {
    match Gathered(Resolutions, model, lib)
    case Err(e) => Err(e)
    case Ok(ms) => Ok(Sort(ms))
  }

  /** `From<&Model> for Measurements`: a loop over the four resolutions
      appending each one's measurements, then a sort. */
  method FromModel(model: Snapshot.Model, lib: TimeLib) returns (r: Result<seq<Measurement>, NormalizeError>)
    ensures r == Normalized(model, lib)
  {
    var measurements: seq<Measurement> := [];
    var resolutions := Resolutions;
    ghost var target := Gathered(resolutions, model, lib);
    ConcatEmpty(target);
    assert resolutions[0..] == resolutions;
    for i := 0 to |resolutions|
      invariant target == Concat(Ok(measurements), Gathered(resolutions[i..], model, lib))
    {
      assert resolutions[i..][1..] == resolutions[i + 1..];
      var meas := ConvertOneResolution(resolutions[i], model, lib);
      if meas.Err? {
        return Err(meas.error);
      }
      ConcatAssoc(Ok(measurements), meas, Gathered(resolutions[i + 1..], model, lib));
      measurements := measurements + meas.value;
    }
    assert resolutions[|resolutions|..] == [];
    ConcatEmpty<Measurement, NormalizeError>(Ok(measurements));
    measurements := Sort(measurements);
    r := Ok(measurements);
  }

  // ---------------------------------------------------------------------
  // What the whole conversion computes

  /** One consumption sample together with where it was found: the
      resolution of its block and the label of its bucket. */
  datatype Tagged = Tagged(resolution: Resolution, tariffName: string, sample: Snapshot.Sample)

  /** The samples of one bucket, tagged. */
  function Tag(resolution: Resolution, tariffName: string, data: seq<Snapshot.Sample>): (r: seq<Tagged>)
    ensures |r| == |data|
    ensures forall k :: 0 <= k < |data| ==> r[k] == Tagged(resolution, tariffName, data[k])
  {
    seq(|data|, k requires 0 <= k < |data| => Tagged(resolution, tariffName, data[k]))
  }

  /** The tagged samples of the buckets `cs`, bucket after bucket. */
  function BucketInputs(cs: seq<Snapshot.Consumption>, resolution: Resolution): seq<Tagged>
    decreases |cs|
  {
    if |cs| == 0 then []
    else Tag(resolution, cs[0].tariffTimeZoneName, cs[0].series.data) + BucketInputs(cs[1..], resolution)
  }

  /** The tagged samples of the blocks of the resolutions `rs`, in order. */
  function InputsOf(rs: seq<Resolution>, model: Snapshot.Model): seq<Tagged>
    decreases |rs|
  {
    if |rs| == 0 then [] else BucketInputs(Block(model, rs[0]).consumptions, rs[0]) + InputsOf(rs[1..], model)
  }

  /** Every consumption sample of the snapshot, hours first, then days,
      months and years; within a block bucket by bucket, in sample order. */
  function Inputs(model: Snapshot.Model): seq<Tagged>
  {
    InputsOf(Resolutions, model)
  }

  /** Every bucket label of the blocks of `rs` is one of the two known. */
  predicate LabelsKnown(rs: seq<Resolution>, model: Snapshot.Model)
  {
    forall i, b :: 0 <= i < |rs| && 0 <= b < |Block(model, rs[i]).consumptions| ==>
      DecodeTariff(Block(model, rs[i]).consumptions[b].tariffTimeZoneName).Ok?
  }

  /** The measurement of one tagged sample. */
  function AssembleTagged(x: Tagged, model: Snapshot.Model, lib: TimeLib): Result<Measurement, NormalizeError>
  {
    match DecodeTariff(x.tariffName)
    case Err(e) => Err(e)
    case Ok(tariff) => Assemble(x.sample, tariff, x.resolution, model, lib)
  }

  /** The measurements of tagged samples, one each, in order. */
  function AssembleAll(xs: seq<Tagged>, model: Snapshot.Model, lib: TimeLib): Result<seq<Measurement>, NormalizeError>
    decreases |xs|
  {
    if |xs| == 0 then Ok([])
    else Concat(Single(AssembleTagged(xs[0], model, lib)), AssembleAll(xs[1..], model, lib))
  }

  /** One measurement per tagged sample, at the same position: none is
      dropped, merged or added. */
  lemma {:induction false} AssembleAllSpec(xs: seq<Tagged>, model: Snapshot.Model, lib: TimeLib)
    ensures var r := AssembleAll(xs, model, lib);
      && (r.Ok? <==> forall k :: 0 <= k < |xs| ==> AssembleTagged(xs[k], model, lib).Ok?)
      && (r.Ok? ==> |r.value| == |xs|)
      && (r.Ok? ==> forall k :: 0 <= k < |xs| ==> r.value[k] == AssembleTagged(xs[k], model, lib).value)
    decreases |xs|
  {
    if |xs| > 0 {
      AssembleAllSpec(xs[1..], model, lib);
      var r := AssembleAll(xs, model, lib);
      if r.Ok? {
        var tail := AssembleAll(xs[1..], model, lib).value;
        assert r.value == [AssembleTagged(xs[0], model, lib).value] + tail;
        forall k | 0 <= k < |xs|
          ensures r.value[k] == AssembleTagged(xs[k], model, lib).value
        {
          if k > 0 {
            assert r.value[k] == tail[k - 1];
            assert xs[1..][k - 1] == xs[k];
          }
        }
      } else if AssembleTagged(xs[0], model, lib).Ok? {
        var k :| 0 <= k < |xs[1..]| && AssembleTagged(xs[1..][k], model, lib).Err?;
        assert xs[k + 1] == xs[1..][k];
      }
    }
  }

  lemma {:induction false} AssembleAllAppend(xs: seq<Tagged>, ys: seq<Tagged>, model: Snapshot.Model, lib: TimeLib)
    ensures AssembleAll(xs + ys, model, lib) == Concat(AssembleAll(xs, model, lib), AssembleAll(ys, model, lib))
    decreases |xs|
  {
    if |xs| == 0 {
      assert xs + ys == ys;
      ConcatEmpty(AssembleAll(ys, model, lib));
    } else {
      assert (xs + ys)[0] == xs[0];
      assert (xs + ys)[1..] == xs[1..] + ys;
      AssembleAllAppend(xs[1..], ys, model, lib);
      ConcatAssoc(Single(AssembleTagged(xs[0], model, lib)), AssembleAll(xs[1..], model, lib), AssembleAll(ys, model, lib));
    }
  }

  /** Converting a bucket's samples is assembling its tagged samples. */
  lemma {:induction false} ConvertSamplesTagged(data: seq<Snapshot.Sample>, tariffName: string, tariff: Tariff,
                                                resolution: Resolution, model: Snapshot.Model, lib: TimeLib)
    requires DecodeTariff(tariffName) == Ok(tariff)
    ensures ConvertSamples(data, tariff, resolution, model, lib) == AssembleAll(Tag(resolution, tariffName, data), model, lib)
    decreases |data|
  {
    if |data| > 0 {
      var xs := Tag(resolution, tariffName, data);
      assert xs[1..] == Tag(resolution, tariffName, data[1..]);
      ConvertSamplesTagged(data[1..], tariffName, tariff, resolution, model, lib);
    }
  }

  /** A run of buckets converts exactly when every label is known and every
      tagged sample converts, and then gives their measurements in order. */
  lemma {:induction false} ConvertBucketsTagged(cs: seq<Snapshot.Consumption>, resolution: Resolution,
                                                model: Snapshot.Model, lib: TimeLib)
    ensures var r := ConvertBuckets(cs, resolution, model, lib);
      var all := AssembleAll(BucketInputs(cs, resolution), model, lib);
      && (r.Ok? <==> (forall b :: 0 <= b < |cs| ==> DecodeTariff(cs[b].tariffTimeZoneName).Ok?) && all.Ok?)
      && (r.Ok? ==> r == all)
    decreases |cs|
  {
    if |cs| > 0 {
      var c := cs[0];
      ConvertBucketsTagged(cs[1..], resolution, model, lib);
      var tagged := Tag(resolution, c.tariffTimeZoneName, c.series.data);
      AssembleAllAppend(tagged, BucketInputs(cs[1..], resolution), model, lib);
      match DecodeTariff(c.tariffTimeZoneName)
      case Err(e) =>
      case Ok(tariff) =>
        ConvertSamplesTagged(c.series.data, c.tariffTimeZoneName, tariff, resolution, model, lib);
        if forall b :: 0 <= b < |cs[1..]| ==> DecodeTariff(cs[1..][b].tariffTimeZoneName).Ok? {
          forall b | 0 <= b < |cs|
            ensures DecodeTariff(cs[b].tariffTimeZoneName).Ok?
          {
            if b > 0 { assert cs[b] == cs[1..][b - 1]; }
          }
        } else {
          var b :| 0 <= b < |cs[1..]| && DecodeTariff(cs[1..][b].tariffTimeZoneName).Err?;
          assert cs[b + 1] == cs[1..][b];
        }
    }
  }

  /** The resolutions `rs` converted and appended: each resolution's sort
      is stable, so at every sort key the measurements are those of the
      tagged samples, in input order. */
  lemma {:induction false} GatheredTagged(rs: seq<Resolution>, model: Snapshot.Model, lib: TimeLib)
    ensures var g := Gathered(rs, model, lib);
      var all := AssembleAll(InputsOf(rs, model), model, lib);
      && (g.Ok? <==> LabelsKnown(rs, model) && all.Ok?)
      && (g.Ok? ==> forall k :: AtKey(g.value, k) == AtKey(all.value, k))
    decreases |rs|
  {
    if |rs| > 0 {
      var r := rs[0];
      GatheredTagged(rs[1..], model, lib);
      ConvertBucketsTagged(Block(model, r).consumptions, r, model, lib);
      AssembleAllAppend(BucketInputs(Block(model, r).consumptions, r), InputsOf(rs[1..], model), model, lib);
      assert LabelsKnown(rs, model) <==> LabelsKnownIn(Block(model, r).consumptions) && LabelsKnown(rs[1..], model) by {
        LabelsKnownSplit(rs, model);
      }
      var g := Gathered(rs, model, lib);
      if g.Ok? {
        var mine := ConvertBuckets(Block(model, r).consumptions, r, model, lib).value;
        var rest := Gathered(rs[1..], model, lib).value;
        var restAll := AssembleAll(InputsOf(rs[1..], model), model, lib).value;
        forall k
          ensures AtKey(g.value, k) == AtKey(AssembleAll(InputsOf(rs, model), model, lib).value, k)
        {
          SortAtKey(mine, k);
          AtKeyAppend(Sort(mine), rest, k);
          AtKeyAppend(mine, restAll, k);
        }
      }
    }
  }

  predicate LabelsKnownIn(cs: seq<Snapshot.Consumption>)
  {
    forall b :: 0 <= b < |cs| ==> DecodeTariff(cs[b].tariffTimeZoneName).Ok?
  }

  lemma LabelsKnownSplit(rs: seq<Resolution>, model: Snapshot.Model)
    requires |rs| > 0
    ensures LabelsKnown(rs, model) <==> LabelsKnownIn(Block(model, rs[0]).consumptions) && LabelsKnown(rs[1..], model)
  {
    if LabelsKnownIn(Block(model, rs[0]).consumptions) && LabelsKnown(rs[1..], model) {
      forall i, b | 0 <= i < |rs| && 0 <= b < |Block(model, rs[i]).consumptions|
        ensures DecodeTariff(Block(model, rs[i]).consumptions[b].tariffTimeZoneName).Ok?
      {
        if i > 0 { assert rs[i] == rs[1..][i - 1]; }
      }
    }
    if LabelsKnown(rs, model) {
      forall i, b | 0 <= i < |rs[1..]| && 0 <= b < |Block(model, rs[1..][i]).consumptions|
        ensures DecodeTariff(Block(model, rs[1..][i]).consumptions[b].tariffTimeZoneName).Ok?
      {
        assert rs[1..][i] == rs[i + 1];
      }
    }
  }

  /** The conversion of a snapshot succeeds exactly when every bucket label
      of every resolution is known and every consumption sample has a
      unique UTC instant.  Its result then holds, at every sort key, the
      measurements of the consumption samples in input order; when every
      temperature is known it is exactly the stable sort of all samples'
      measurements under the derived order, so the per-resolution sorts
      leave no trace. */
  lemma NormalizedIsSortedInputs(model: Snapshot.Model, lib: TimeLib)
    ensures var n := Normalized(model, lib);
      var all := AssembleAll(Inputs(model), model, lib);
      && (n.Ok? <==> LabelsKnown(Resolutions, model) && all.Ok?)
      && (n.Ok? ==> forall k :: AtKey(n.value, k) == AtKey(all.value, k))
      && (n.Ok? && TemperaturesKnown(all.value) ==> n.value == Sort(all.value))
  {
    GatheredTagged(Resolutions, model, lib);
    var n := Normalized(model, lib);
    if n.Ok? {
      var g := Gathered(Resolutions, model, lib).value;
      var all := AssembleAll(Inputs(model), model, lib).value;
      forall k
        ensures AtKey(n.value, k) == AtKey(all, k)
      {
        SortAtKey(g, k);
      }
      if TemperaturesKnown(all) {
        SortedKnownUnique(g, all);
      }
    }
  }

  /** With known temperatures, sorting two sequences that agree at every
      key gives the same result. */
  lemma SortedKnownUnique(g: seq<Measurement>, all: seq<Measurement>)
    requires TemperaturesKnown(all)
    requires forall k :: AtKey(g, k) == AtKey(all, k)
    ensures Sort(g) == Sort(all)
  {
    TemperaturesKnownByKey(g, all);
    SortOrdered(g);
    SortOrdered(all);
    SortCount(all);
    TemperaturesKnownTransfer(Sort(all), all);
    forall k
      ensures AtKey(Sort(all), k) == AtKey(Sort(g), k)
    {
      SortAtKey(g, k);
      SortAtKey(all, k);
    }
    StableSortUnique(Sort(all), Sort(g));
  }

  /** The merged output holds one measurement per consumption sample of
      all four resolutions and all buckets, each made from its sample,
      nothing dropped or merged: a permutation of the assembled samples,
      sorted ascending by timestamp, keeping input order at every sort key,
      and, when every temperature is known, ordered under the derived
      order. */
  lemma NormalizedPermutation(model: Snapshot.Model, lib: TimeLib)
    requires Normalized(model, lib).Ok?
    ensures var out := Normalized(model, lib).value;
      var all := AssembleAll(Inputs(model), model, lib);
      && all.Ok?
      && Sorted(out)
      && (forall k :: AtKey(out, k) == AtKey(all.value, k))
      && (TemperaturesKnown(all.value) ==> Ordered(out))
      && |out| == |Inputs(model)| == |all.value|
      && multiset(out) == multiset(all.value)
      && (forall k :: 0 <= k < |Inputs(model)| ==>
            AssembleTagged(Inputs(model)[k], model, lib).Ok? && all.value[k] == AssembleTagged(Inputs(model)[k], model, lib).value)
  {
    NormalizedIsSortedInputs(model, lib);
    AssembleAllSpec(Inputs(model), model, lib);
    var g := Gathered(Resolutions, model, lib).value;
    var all := AssembleAll(Inputs(model), model, lib).value;
    GatheredTagged(Resolutions, model, lib);
    SortAgreeing(g, all);
  }

  /** A bucket with a label other than "Päivä" or "Yö", in any of the four
      blocks, aborts the whole conversion, even one with no samples. */
  lemma UnknownTariffAborts(model: Snapshot.Model, lib: TimeLib, resolution: Resolution, b: nat)
    requires b < |Block(model, resolution).consumptions|
    requires Block(model, resolution).consumptions[b].tariffTimeZoneName !in {"Päivä", "Yö"}
    ensures Normalized(model, lib).Err?
  {
    NormalizedIsSortedInputs(model, lib);
    var i := match resolution case Hour => 0 case Day => 1 case Month => 2 case Year => 3;
    assert Resolutions[i] == resolution;
    assert !DecodeTariff(Block(model, Resolutions[i]).consumptions[b].tariffTimeZoneName).Ok?;
  }

  /** Each per-resolution partial is sorted, holds that block's samples,
      one measurement each, keeps their order at every sort key and, when
      every temperature is known, is ordered under the derived order. */
  lemma ConvertedSorted(resolution: Resolution, model: Snapshot.Model, lib: TimeLib)
    requires Converted(resolution, model, lib).Ok?
    ensures var out := Converted(resolution, model, lib).value;
      var all := AssembleAll(BucketInputs(Block(model, resolution).consumptions, resolution), model, lib);
      && all.Ok? && Sorted(out) && multiset(out) == multiset(all.value)
      && (forall k :: AtKey(out, k) == AtKey(all.value, k))
      && (TemperaturesKnown(all.value) ==> Ordered(out))
  {
    ConvertBucketsTagged(Block(model, resolution).consumptions, resolution, model, lib);
    SortSpec(ConvertBuckets(Block(model, resolution).consumptions, resolution, model, lib).value);
  }
}
