# Energiatili snapshot normalisation, modelled in Dafny

Energiatili is an electricity-consumption portal. This project models the
library core that turns a portal snapshot into one sorted list of priced,
timestamped measurements, and the step of the export program that maps each
measurement to an InfluxDB point. The model covers four stages:

- **Literal repair** (`DateLiterals`, `energiatili-model/src/utils.rs`). The
  report page embeds JavaScript `new Date(<ms>)` calls in its JSON payload,
  and `fix_new_date` replaces each call with a quoted RFC 3339 UTC instant.
  The millisecond argument is a Helsinki wall-clock time: it is truncated
  toward zero to seconds and then converted to UTC.
- **Snapshot loading** (`Snapshot`, `energiatili-model/src/model.rs`).
  `from_report_html` finds the first `var model = ` line, cuts out the
  payload, repairs it and reads it as JSON. `from_reader` reads plain JSON.
  The snapshot records (`Model`, `OneResolution`, `Consumption`, the series
  and the price lists) are datatypes.
- **Normalisation** (`Normalize` and `Measurements`,
  `energiatili-model/src/measurement.rs`). Every consumption sample of every
  tariff bucket of the hour, day, month and year blocks becomes one
  measurement, as follows:
  - The tariff comes from the bucket label, "Päivä" or "Yö".
  - The UTC instant comes from the wall-clock time.
  - The quality comes from the first status sample at the same time, and
    is -1 when there is none.
  - The temperature comes from the first temperature sample at that time.
  - The transfer and energy costs are the consumption times the first
    matching price interval of the network and sales lists.

  Each resolution's list is sorted, the four lists are appended, and the
  whole is sorted again. `Vec::sort` compares with `PartialOrd::lt`, and
  `#[derive(PartialOrd)]` on `Measurement` (`measurement.rs:30`) compares
  field by field: timestamp, local time, consumption, quality, temperature,
  tariff, resolution, price. The hand-written `Ord` by timestamp alone
  (`measurement.rs:52-56`) is not what the sort calls. Measurements with
  equal timestamps are therefore ordered by their other fields, and a NaN
  temperature makes two measurements equal in timestamp, consumption and
  quality incomparable.
- **Export mapping** (`InfluxExport`, `influxdb-export/src/main.rs`). Each
  measurement becomes a point named `electricity`. Its timestamp is the hour
  (epoch seconds / 3600). It gets fields for what is known, a `tariff` tag
  for hourly data, and a `resolution` tag.

Every `panic!`, `expect` and `unwrap` of the source is modelled as an `Err`
result. Where several could fire, the model reports the one the source hits
first. Time-zone conversion and RFC 3339 rendering (chrono, chrono-tz) are
the parameter `Common.TimeLib`. JSON decoding (serde) is the parameter
`Snapshot.Parser`.

Five details of the code shape the model:

- A sample with no status sample at its time gets quality -1
  (`measurement.rs:104`).
- The sales price list is a mandatory field of the snapshot
  (`model.rs:28-35`).
- The status, temperature and price lookups scan their lists in order and
  take the first match (`measurement.rs:107-119`, `146-175`).
- A wall-clock time that falls in the autumn DST overlap fails: `unwrap` on
  an ambiguous local time panics (`utils.rs:18`, `measurement.rs:100`).
- The resolutions are converted one after another, in the order hour, day,
  month, year (`measurement.rs:62-70`).

## Model

| member | source | states |
|---|---|---|
| DateLiterals.FixNewDate | energiatili-model/src/utils.rs:4-34 | the cursor loop returns exactly the result of the left-to-right literal scan `Repair`, including which of the three failure kinds comes first (four panic sites, the two chrono ones merged) |
| DateLiterals.ConvertLiteral | energiatili-model/src/utils.rs:10-26 | one loop turn: a missing `)`, a non-`i64` argument or a local second with no unique UTC instant is the outcome of the whole repair; otherwise the output is the copied prefix plus the quoted instant, and the repair resumes after the `)` |
| DateLiterals.RepairSplices | energiatili-model/src/utils.rs:8-31 | the repair succeeds with `out` iff the input is literal-free text alternating with well-formed literals and `out` is that text with each literal replaced by its quoted UTC instant |
| DateLiterals.ScanSound | energiatili-model/src/utils.rs:8-31 | a successful scan cuts the input into well-formed pieces that put it back together |
| DateLiterals.UnparseScan | energiatili-model/src/utils.rs:8-31 | scanning the text of well-formed pieces recovers those pieces (the inverse of `ScanSound`) |
| DateLiterals.LiteralFreeUnchanged | energiatili-model/src/utils.rs:27-29 | text without `new Date(` is returned unchanged |
| DateLiterals.LiteralReplaced | energiatili-model/src/utils.rs:21-26 | the text before a literal is copied, the literal up to the first `)` becomes `"` + RFC 3339 of the UTC instant + `"`, and the repair continues after that `)` |
| DateLiterals.UnterminatedLiteral | energiatili-model/src/utils.rs:11 | a literal with no `)` after it fails the whole repair with MissingParen |
| DateLiterals.NonIntegerArgument | energiatili-model/src/utils.rs:12-13 | an argument that `str::parse::<i64>` rejects fails the whole repair with that argument |
| DateLiterals.NoLocalTimeFails | energiatili-model/src/utils.rs:17-19 | the argument is milliseconds truncated toward zero to seconds; a wall-clock second with no unique UTC instant fails the repair |
| DateLiterals.ParseShowInt | energiatili-model/src/utils.rs:13 | every 64-bit integer written in decimal is parsed as itself |
| DateLiterals.ParseI64 | energiatili-model/src/utils.rs:13 | the parsed value lies in the `i64` range |
| DateLiterals.RepairCount | energiatili-model/src/utils.rs:8-31 | a successful repair replaces exactly as many literals as there are non-overlapping occurrences of `new Date(` |
| Snapshot.FromReportHtml | energiatili-model/src/model.rs:9-19 | the `while let` loop returns exactly `ReportModel`: the first marker line before any read error, its payload, repaired and parsed, or ModelNotFound |
| Snapshot.MarkerLineFirst | energiatili-model/src/model.rs:11-12 | the loop stops at the first line holding `var model = `; every earlier line was read and lacks it; no line is found iff every marker line follows a read error |
| Snapshot.PayloadBetween | energiatili-model/src/model.rs:13 | the payload is the text between the first marker and the last character of the line; a marker that ends its line is an error |
| Snapshot.ReportUsesFirstMarkerLine | energiatili-model/src/model.rs:11-15 | for lines before the marker line that lack the marker, the result is the repaired-and-parsed payload of the marker line, whatever follows |
| Snapshot.ReaderMatchesReport | energiatili-model/src/model.rs:21-23 | `from_reader` on a literal-free payload gives what the page line `var model = <payload>;` gives |
| Normalize.DecodeTariff | energiatili-model/src/measurement.rs:92-96 | Day iff the label is "Päivä", Night iff it is "Yö", otherwise the UnknownTariff error naming the label |
| Normalize.SampleAtFirst | energiatili-model/src/measurement.rs:107-119 | the lookup gives the value of the first sample in list order at the exact time, and nothing iff no sample is at that time |
| Normalize.FirstSample | energiatili-model/src/measurement.rs:107-119 | the search loop with `break` returns the first-match lookup `SampleAt` |
| Normalize.PriceInFirst | energiatili-model/src/measurement.rs:158-172 | the price search gives the price with VAT of the first interval with `start <= t <= end`, and nothing iff no interval holds `t` |
| Normalize.FindPrice | energiatili-model/src/measurement.rs:146-175 | the two search loops return the first-match transfer price from the network list and energy price from the sales list, for the tariff's half |
| Normalize.ScaledFirstMatch | energiatili-model/src/measurement.rs:123-124 | a cost is missing iff no interval matches, and otherwise is the first matching unit price times the consumption |
| Normalize.AssembleSample | energiatili-model/src/measurement.rs:98-138 | the inner loop body builds exactly `Assemble` of the sample |
| Normalize.AssembleRecord | energiatili-model/src/measurement.rs:99-137 | a sample converts iff its truncated wall-clock second has a unique UTC instant; the record then carries that instant, the sample's consumption, the tariff and the resolution |
| Normalize.QualityFirstMatch | energiatili-model/src/measurement.rs:104-112 | the quality is the first matching status value cast to `i8`, or -1 when none matches |
| Normalize.TemperatureFirstMatch | energiatili-model/src/measurement.rs:105-119 | the temperature is the first matching temperature value, and missing (NaN) iff none matches |
| Normalize.PriceFirstMatchScaled | energiatili-model/src/measurement.rs:121-126 | the transfer and energy costs are the consumption times the first interval of the tariff's network and sales lists that contains the UTC instant, each missing iff no interval does |
| Normalize.ConvertOneResolution | energiatili-model/src/measurement.rs:77-144 | the nested loops and the sort return `Converted`: the bucket-by-bucket, sample-by-sample measurements stably sorted under the derived `PartialOrd`, or the first error |
| Normalize.ConvertedSorted | energiatili-model/src/measurement.rs:142 | a per-resolution result is ascending by timestamp, a permutation of that block's assembled samples, keeps their order among measurements with equal fields, and with known temperatures leaves no measurement after one that precedes it |
| Normalize.FromModel | energiatili-model/src/measurement.rs:58-75 | the loop over the four resolutions and the final sort return `Normalized`: the appended per-resolution results stably sorted under the derived `PartialOrd`, or the first error |
| Normalize.AssembleAllSpec | energiatili-model/src/measurement.rs:91-139 | assembling tagged samples succeeds iff each does, and then gives one measurement per sample at the same position |
| Normalize.ConvertBucketsTagged | energiatili-model/src/measurement.rs:91-140 | converting a block's buckets succeeds iff every label is known and every sample converts, and then equals assembling its tagged samples in order |
| Normalize.GatheredTagged | energiatili-model/src/measurement.rs:62-70 | the appended per-resolution results succeed iff every label is known and every sample converts; at every sort key (all fields but the local time) they hold the measurements of the tagged samples in input order |
| Normalize.NormalizedIsSortedInputs | energiatili-model/src/measurement.rs:58-75 | the conversion succeeds iff every label of every block is known and every sample has a unique UTC instant; the result then holds at every sort key the samples' measurements in input order, and with known temperatures it is exactly the stable sort under the derived `PartialOrd` of all samples' measurements (the per-resolution sorts leave no trace) |
| Normalize.NormalizedPermutation | energiatili-model/src/measurement.rs:62-73 | the output is ascending by timestamp, has one measurement per consumption sample of all blocks and buckets, is a permutation of those measurements, keeps their input order at every sort key, and with known temperatures leaves no measurement after one that precedes it |
| Normalize.UnknownTariffAborts | energiatili-model/src/measurement.rs:92-96 | a bucket labelled other than "Päivä" or "Yö" in any block aborts the whole conversion, even an empty bucket |
| Measurements.CompareTimestamp | energiatili-model/src/measurement.rs:30-33 | the timestamp is compared first: an earlier timestamp precedes, and a measurement that precedes another is not later |
| Measurements.CompareAntisymmetric | energiatili-model/src/measurement.rs:30-48 | `Greater` one way iff `Less` the other way, incomparable one way iff the other, and no two measurements precede each other |
| Measurements.CompareTotal | energiatili-model/src/measurement.rs:30-48 | with known temperatures two measurements always compare, and compare `Equal` iff all fields but the local time agree |
| Measurements.SameKeyUnordered | energiatili-model/src/measurement.rs:30-48 | measurements that agree in every compared field do not precede each other |
| Measurements.NotAfterTransitive | energiatili-model/src/measurement.rs:30-48 | with known temperatures, "does not precede" is transitive, so the derived order is a total preorder |
| Measurements.SortSpec | energiatili-model/src/measurement.rs:72 | the stable sort under `PartialOrd::lt` is a permutation of its input, ascending by timestamp, keeps input order at every sort key, and with known temperatures leaves no measurement after one that precedes it |
| Measurements.StableSortUnique | energiatili-model/src/measurement.rs:72 | with known temperatures, two ordered sequences holding at every sort key the same measurements in the same order are equal, so every stable sort gives the same result |
| Measurements.SortOfSortedParts | energiatili-model/src/measurement.rs:68-72 | with known temperatures, sorting the parts before appending them and sorting again gives what one sort of the unsorted parts gives |
| InfluxExport.ExportAll | influxdb-export/src/main.rs:28-67 | one point per measurement, in order, each the point `ToPoint` describes |
| InfluxExport.BuildPoint | influxdb-export/src/main.rs:31-67 | the builder calls produce a fresh point whose value is `ToPoint` of the measurement |
| InfluxExport.PointFields | influxdb-export/src/main.rs:33-53 | the point is named `electricity`, stamped with the hour (division by 3600 toward zero); `consumption` and `quality` are always present, each price field iff that price is, `price` iff both are (as their sum), `temperature` iff it is not NaN, and there are no other fields |
| InfluxExport.PointTags | influxdb-export/src/main.rs:55-67 | the `resolution` tag names the resolution in lower case; the `tariff` tag is present iff the resolution is Hour, and then names the tariff |

## Left out

- JSON decoding by serde is the parameter `Snapshot.Parser`. The model starts from the typed snapshot and does not model field renaming, `Option` defaults or the JSON grammar.
- chrono's `from_timestamp(_opt)` and `Helsinki.from_local_datetime(..).unwrap()` together are the partial function `TimeLib.localToUtc`. It fails on a time outside chrono's range, in the spring DST gap, and in the autumn overlap. The Helsinki tz database itself is not modelled.
- `to_rfc3339` is the parameter `TimeLib.rfc3339`. Its text format is not modelled.
- Floats are reals. A NaN temperature is `None`. A NaN status value (which Rust's `as i8` turns into 0) cannot arise.
- Normalize.SampleAt: the source matches a sample when `|a - b| < 1.0` on float milliseconds. The model holds sample times as integer milliseconds, where that test is equality. Fractional millisecond times are not modelled.
- Normalize.Assemble: `(data[0] / 1000.0) as i64` is modelled as integer division toward zero. Float rounding of huge timestamps and the saturation of the cast are not modelled.
- Price interval bounds and UTC instants are whole epoch seconds. Sub-second `DateTime` bounds are not modelled.
- Strings are sequences of characters. Rust slices `str` by byte offsets, so the model's indices differ from the source's on non-ASCII text. The model does not capture the panic of `line[..line.len() - 1]` when the last character is multi-byte.
- `Vec::sort` is modelled by the stable insertion sort `Measurements.Sort` under the derived `PartialOrd::lt`. The library's merge-sort steps and the in-place update are not modelled.
- `PartialOrd::lt` is modelled as `partial_cmp(..) == Some(Less)`, which is how current `#[derive(PartialOrd)]` defines it. Older compilers derived a field-by-field `lt` that skips incomparable fields; the two agree whenever no temperature is NaN.
- StableSortUnique: promises a unique result only when every temperature is known. With a NaN temperature among measurements of equal timestamp, consumption and quality, the derived order is not a total order, and `slice::sort` leaves the result unspecified. With a NaN measurement tied to two comparable ones it is not even a strict weak order, and newer standard libraries may panic.
- SortOfSortedParts: holds only when every temperature is known. With a NaN temperature among ties the derived order is not a total order, and `slice::sort` leaves the order of the result unspecified; with a NaN measurement tied to two comparable ones it is not even a strict weak order, and newer standard libraries may panic.
- NormalizedIsSortedInputs: equality with one sort of all samples is promised only when every temperature is known. Without that it promises the success condition and input order at every sort key, and NormalizedPermutation adds ascending timestamps and the permutation.
- `Measurement.localtime` is the Helsinki wall-clock epoch seconds rather than a `DateTime<Tz>`. The derived order skips it: chrono compares a `DateTime<Tz>` by its UTC instant, which is the measurement's `timestamp`, so it never decides a comparison. The derived `PartialEq` is not used by the core and is not modelled.
- The series metadata (`DataCount`, `Name`, `Resolution`, `Start`, `Stop`, `Type`, `Unit`) is carried in `Snapshot.Series` but never read by the conversion.
- Line reading is a sequence of `LineRead` items, where a read error ends the loop as `while let Some(Ok(..))` does. File and stdin handling are not modelled.
- In the export program, reading stdin, `println!`, the InfluxDB client, its credentials and `write_one` are not modelled. `InfluxExport.ExportAll` returns the points in the order they would be written. Each `write_one` passes `Precision::Hours`, which is why the timestamp is in hours.
- The point builder `InfluxExport.Point` stands for the `influent` library's `Measurement`. Only its name, timestamp, field and tag maps are modelled.
- energiatili-import (fetching the report over HTTP) and energiatili-config are not part of this model.
