/** The value types of energiatili-model/src/measurement.rs and the order
    its two sorts use.  `<[T]>::sort` compares with `PartialOrd::lt`, and
    `Measurement` derives `PartialOrd`: the comparison runs field by field
    (timestamp, local time, consumption, quality, temperature, tariff,
    resolution, price) and the first field that differs decides.  The
    hand-written `Ord` that compares timestamps alone is not what the sorts
    call.  A NaN temperature compares with nothing, so two measurements that
    agree up to a NaN temperature are neither before nor after each other. */
module Measurements {
  import opened Common

  datatype Resolution = Hour | Day | Month | Year

  datatype Tariff = Day | Night

  /** Rust's `i8`. */
  type I8 = x: int | -128 <= x <= 127

  /** Transfer and energy cost; each side may be missing. */
  datatype Price = Price(transfer: Option<real>, energy: Option<real>)

  /** One normalised record.  `timestamp` is UTC epoch seconds and
      `localtime` the Helsinki wall-clock epoch seconds it was converted
      from; a temperature of None stands for the source's NaN. */
  datatype Measurement = Measurement(
    timestamp: int,
    localtime: int,
    consumption: real,
    quality: I8,
    temperature: Option<real>,
    tariff: Tariff,
    resolution: Resolution,
    price: Price)

  // ---------------------------------------------------------------------
  // The derived comparison

  /** `std::cmp::Ordering`. */
  datatype Ordering = Less | Equal | Greater

  function CompareInt(x: int, y: int): Ordering
  {
    if x < y then Less else if x == y then Equal else Greater
  }

  function CompareReal(x: real, y: real): Ordering
  {
    if x < y then Less else if x == y then Equal else Greater
  }

  /** `f64::partial_cmp` where None is NaN: NaN compares with nothing, not
      even with itself. */
  function CompareFloat(x: Option<real>, y: Option<real>): Option<Ordering>
  {
    if x.Some? && y.Some? then Some(CompareReal(x.value, y.value)) else None
  }

  /** The derived order of `Option<f64>`: None before every Some. */
  function CompareOption(x: Option<real>, y: Option<real>): Ordering
  {
    match (x, y)
    case (None, None) => Equal
    case (None, Some(_)) => Less
    case (Some(_), None) => Greater
    case (Some(a), Some(b)) => CompareReal(a, b)
  }

  /** Derived enum orders follow declaration order. */
  function TariffRank(t: Tariff): int
  {
    match t
    case Day => 0
    case Night => 1
  }

  function ResolutionRank(r: Resolution): int
  {
    match r
    case Hour => 0
    case Day => 1
    case Month => 2
    case Year => 3
  }

  /** Lexicographic chaining: the first comparison that is not Equal
      decides; an incomparable field makes the whole incomparable. */
  function Then(first: Option<Ordering>, rest: Option<Ordering>): Option<Ordering>
  {
    if first == Some(Equal) then rest else first
  }

  /** The derived `PartialOrd::partial_cmp` of `Measurement`.  The local
      time is a `DateTime<Tz>`, which compares by its UTC instant; that
      instant is `timestamp`, already compared, so it never decides. */
  function Compare(a: Measurement, b: Measurement): Option<Ordering>
  {
    Then(Some(CompareInt(a.timestamp, b.timestamp)),
    Then(Some(CompareReal(a.consumption, b.consumption)),
    Then(Some(CompareInt(a.quality, b.quality)),
    Then(CompareFloat(a.temperature, b.temperature),
    Then(Some(CompareInt(TariffRank(a.tariff), TariffRank(b.tariff))),
    Then(Some(CompareInt(ResolutionRank(a.resolution), ResolutionRank(b.resolution))),
    Then(Some(CompareOption(a.price.transfer, b.price.transfer)),
         Some(CompareOption(a.price.energy, b.price.energy)))))))))
  }

  /** `PartialOrd::lt`, the only comparison the sort makes. */
  predicate Precedes(a: Measurement, b: Measurement)
  {
    Compare(a, b) == Some(Less)
  }

  /** The fields the comparison looks at: all but the local time. */
  datatype SortKey = SortKey(
    timestamp: int,
    consumption: real,
    quality: int,
    temperature: Option<real>,
    tariff: Tariff,
    resolution: Resolution,
    price: Price)

  function Key(m: Measurement): SortKey
  {
    SortKey(m.timestamp, m.consumption, m.quality, m.temperature, m.tariff, m.resolution, m.price)
  }

  /** Measurements whose temperature is known: among them the derived
      comparison is a total preorder. */
  predicate TemperaturesKnown(s: seq<Measurement>)
  {
    forall m :: m in s ==> m.temperature.Some?
  }

  /** The comparison is antisymmetric: `a` before `b` exactly when `b`
      compares as after `a`, and incomparability is mutual. */
  lemma CompareAntisymmetric(a: Measurement, b: Measurement)
    ensures Compare(a, b) == Some(Greater) <==> Precedes(b, a)
    ensures Compare(a, b).None? <==> Compare(b, a).None?
    ensures !(Precedes(a, b) && Precedes(b, a))
  {
  }

  /** The timestamp is the first key: an earlier timestamp always comes
      first, and nothing comes before a measurement with an earlier one. */
  lemma CompareTimestamp(a: Measurement, b: Measurement)
    ensures a.timestamp < b.timestamp ==> Precedes(a, b)
    ensures Precedes(a, b) ==> a.timestamp <= b.timestamp
  {
  }

  /** Measurements with the same key never come before one another. */
  lemma SameKeyUnordered(a: Measurement, b: Measurement)
    requires Key(a) == Key(b)
    ensures !Precedes(a, b)
  {
  }

  /** With known temperatures every two measurements compare, and they
      compare Equal exactly when their keys agree. */
  lemma CompareTotal(a: Measurement, b: Measurement)
    requires a.temperature.Some? && b.temperature.Some?
    ensures Compare(a, b).Some?
    ensures Compare(a, b) == Some(Equal) <==> Key(a) == Key(b)
  {
  }

  /** "Not after" is transitive among measurements with known
      temperatures. */
  lemma NotAfterTransitive(a: Measurement, b: Measurement, c: Measurement)
    requires a.temperature.Some? && b.temperature.Some? && c.temperature.Some?
    requires !Precedes(b, a) && !Precedes(c, b)
    ensures !Precedes(c, a)
  {
  }

  // ---------------------------------------------------------------------
  // The sort

  /** Ascending by timestamp. */
  predicate Sorted(s: seq<Measurement>)
  {
    forall i, j :: 0 <= i < j < |s| ==> s[i].timestamp <= s[j].timestamp
  }

  /** No measurement comes before one that precedes it in `s`: sorted under
      the derived order. */
  predicate Ordered(s: seq<Measurement>)
  {
    forall i, j :: 0 <= i < j < |s| ==> !Precedes(s[j], s[i])
  }

  /** The measurements of `s` with key `k`, in the order of `s`. */
  function AtKey(s: seq<Measurement>, k: SortKey): seq<Measurement>
    decreases |s|
  {
    if |s| == 0 then [] else (if Key(s[0]) == k then [s[0]] else []) + AtKey(s[1..], k)
  }

  /** `x` placed before the first element that does not precede it. */
  function Insert(x: Measurement, s: seq<Measurement>): seq<Measurement>
    decreases |s|
  {
    if |s| == 0 then [x]
    else if Precedes(s[0], x) then [s[0]] + Insert(x, s[1..])
    else [x] + s
  }

  /** `Vec::sort` of measurements: a stable sort under `PartialOrd::lt`.
      Each measurement is inserted, from the last to the first, before the
      first one that does not precede it, so of two measurements neither of
      which precedes the other the earlier stays first. */
  function Sort(s: seq<Measurement>): seq<Measurement>
    decreases |s|
  {
    if |s| == 0 then [] else Insert(s[0], Sort(s[1..]))
  }

  lemma {:induction false} AtKeyAppend(a: seq<Measurement>, b: seq<Measurement>, k: SortKey)
    ensures AtKey(a + b, k) == AtKey(a, k) + AtKey(b, k)
    decreases |a|
  {
    if |a| > 0 {
      assert (a + b)[1..] == a[1..] + b;
      AtKeyAppend(a[1..], b, k);
    } else {
      assert a + b == b;
    }
  }

  lemma {:induction false} AtKeyMembers(s: seq<Measurement>, k: SortKey)
    ensures forall m :: m in AtKey(s, k) ==> m in s && Key(m) == k
    ensures forall m :: m in s && Key(m) == k ==> m in AtKey(s, k)
    decreases |s|
  {
    if |s| > 0 {
      AtKeyMembers(s[1..], k);
      assert s == [s[0]] + s[1..];
    }
  }

  /** `AtKey` of a non-empty sequence, one step unfolded. */
  lemma AtKeyCons(s: seq<Measurement>, k: SortKey)
    requires |s| > 0
    ensures AtKey(s, k) == (if Key(s[0]) == k then [s[0]] else []) + AtKey(s[1..], k)
  {
  }

  lemma {:induction false} InsertCount(x: Measurement, s: seq<Measurement>)
    ensures multiset(Insert(x, s)) == multiset(s) + multiset{x}
    ensures |Insert(x, s)| == |s| + 1
    decreases |s|
  {
    if |s| > 0 && Precedes(s[0], x) {
      InsertCount(x, s[1..]);
      assert s == [s[0]] + s[1..];
    }
  }

  /** Every copy of `m` in `s` is among the measurements with its key. */
  lemma {:induction false} AtKeyCount(s: seq<Measurement>, m: Measurement)
    ensures multiset(AtKey(s, Key(m)))[m] == multiset(s)[m]
    decreases |s|
  {
    if |s| > 0 {
      AtKeyCount(s[1..], m);
      AtKeyCons(s, Key(m));
      assert s == [s[0]] + s[1..];
    }
  }

  /** Sequences holding the same measurements at every key are
      permutations of each other. */
  lemma AtKeySameMultiset(a: seq<Measurement>, b: seq<Measurement>)
    requires forall k :: AtKey(a, k) == AtKey(b, k)
    ensures multiset(a) == multiset(b)
  {
    forall m
      ensures multiset(a)[m] == multiset(b)[m]
    {
      AtKeyCount(a, m);
      AtKeyCount(b, m);
    }
  }

  /** A measurement no later than the head of a sorted sequence can be
      put in front of it. */
  lemma SortedCons(h: Measurement, s: seq<Measurement>)
    requires Sorted(s) && (|s| > 0 ==> h.timestamp <= s[0].timestamp)
    ensures Sorted([h] + s)
  {
    var r := [h] + s;
    forall i, j | 0 <= i < j < |r|
      ensures r[i].timestamp <= r[j].timestamp
    {
      assert r[j] == s[j - 1];
      if i > 0 {
        assert r[i] == s[i - 1];
      } else if j > 1 {
        assert s[0].timestamp <= s[j - 1].timestamp;
      }
    }
  }

  lemma SortedTail(s: seq<Measurement>)
    requires Sorted(s) && |s| > 0
    ensures Sorted(s[1..])
  {
    forall i, j | 0 <= i < j < |s[1..]|
      ensures s[1..][i].timestamp <= s[1..][j].timestamp
    {
      assert s[1..][i] == s[i + 1] && s[1..][j] == s[j + 1];
    }
  }

  /** Insertion keeps a sequence sorted by timestamp, whatever the
      temperatures: the timestamp is the first key. */
  lemma {:induction false} InsertSorted(x: Measurement, s: seq<Measurement>)
    requires Sorted(s)
    ensures Sorted(Insert(x, s))
    ensures |s| > 0 ==> Insert(x, s)[0] == if Precedes(s[0], x) then s[0] else x
    decreases |s|
  {
    if |s| == 0 {
      SortedCons(x, s);
      assert [x] + s == [x];
    } else if !Precedes(s[0], x) {
      CompareTimestamp(x, s[0]);
      CompareTimestamp(s[0], x);
      SortedCons(x, s);
    } else {
      CompareTimestamp(s[0], x);
      SortedTail(s);
      InsertSorted(x, s[1..]);
      if |s| > 1 {
        assert s[0].timestamp <= s[1].timestamp;
        CompareTimestamp(s[1], x);
      }
      SortedCons(s[0], Insert(x, s[1..]));
    }
  }

  /** `x` goes before every measurement that has its key. */
  lemma {:induction false} InsertAtKey(x: Measurement, s: seq<Measurement>, k: SortKey)
    ensures AtKey(Insert(x, s), k) == (if Key(x) == k then [x] else []) + AtKey(s, k)
    decreases |s|
  {
    if |s| == 0 {
      assert AtKey([x], k) == (if Key(x) == k then [x] else []) + AtKey([], k) by {
        AtKeyCons([x], k);
        assert [x][1..] == [];
      }
    } else if !Precedes(s[0], x) {
      var r := Insert(x, s);
      assert r == [x] + s;
      assert r[0] == x && r[1..] == s;
      AtKeyCons(r, k);
    } else {
      InsertAtKey(x, s[1..], k);
      InsertLater(x, s, k);
    }
  }

  lemma InsertLater(x: Measurement, s: seq<Measurement>, k: SortKey)
    requires |s| > 0 && Precedes(s[0], x)
    requires AtKey(Insert(x, s[1..]), k) == (if Key(x) == k then [x] else []) + AtKey(s[1..], k)
    ensures AtKey(Insert(x, s), k) == (if Key(x) == k then [x] else []) + AtKey(s, k)
  {
    var y, rest := s[0], s[1..];
    var hx := if Key(x) == k then [x] else [];
    var hy := if Key(y) == k then [y] else [];
    assert Key(y) != Key(x) by {
      if Key(y) == Key(x) {
        SameKeyUnordered(y, x);
      }
    }
    assert AtKey(Insert(x, s), k) == hy + AtKey(Insert(x, rest), k) by {
      var r := Insert(x, s);
      assert r == [y] + Insert(x, rest);
      assert r[0] == y && r[1..] == Insert(x, rest);
      AtKeyCons(r, k);
    }
    assert AtKey(s, k) == hy + AtKey(rest, k) by {
      AtKeyCons(s, k);
    }
    SwapHeads(hx, hy, AtKey(rest, k));
  }

  /** Two heads of which at most one is non-empty commute. */
  lemma SwapHeads<T>(hx: seq<T>, hy: seq<T>, tail: seq<T>)
    requires hx == [] || hy == []
    ensures hy + (hx + tail) == hx + (hy + tail)
  {
    if hx == [] {
      assert hx + tail == tail && hx + (hy + tail) == hy + tail;
    } else {
      assert hy + tail == tail && hy + (hx + tail) == hx + tail;
    }
  }

  /** Nothing in `s` precedes `y`. */
  predicate NoneBefore(y: Measurement, s: seq<Measurement>)
  {
    forall j :: 0 <= j < |s| ==> !Precedes(s[j], y)
  }

  /** A measurement that nothing in an ordered sequence precedes can be put
      in front of it. */
  lemma OrderedCons(h: Measurement, s: seq<Measurement>)
    requires Ordered(s) && NoneBefore(h, s)
    ensures Ordered([h] + s)
  {
    var r := [h] + s;
    forall i, j | 0 <= i < j < |r|
      ensures !Precedes(r[j], r[i])
    {
      assert r[j] == s[j - 1];
      if i > 0 {
        assert r[i] == s[i - 1];
      }
    }
  }

  lemma OrderedTail(s: seq<Measurement>)
    requires Ordered(s) && |s| > 0
    ensures Ordered(s[1..]) && NoneBefore(s[0], s[1..])
  {
    forall i, j | 0 <= i < j < |s[1..]|
      ensures !Precedes(s[1..][j], s[1..][i])
    {
      assert s[1..][i] == s[i + 1] && s[1..][j] == s[j + 1];
    }
    forall j | 0 <= j < |s[1..]|
      ensures !Precedes(s[1..][j], s[0])
    {
      assert s[1..][j] == s[j + 1];
    }
  }

  lemma TemperaturesKnownTransfer(s: seq<Measurement>, t: seq<Measurement>)
    requires TemperaturesKnown(t)
    requires multiset(s) <= multiset(t)
    ensures TemperaturesKnown(s)
  {
    forall m | m in s
      ensures m.temperature.Some?
    {
      assert m in multiset(s);
    }
  }

  lemma TemperaturesKnownTail(s: seq<Measurement>)
    requires TemperaturesKnown(s) && |s| > 0
    ensures TemperaturesKnown(s[1..]) && s[0].temperature.Some?
  {
    forall m | m in s[1..]
      ensures m.temperature.Some?
    {
      var i :| 0 <= i < |s[1..]| && s[1..][i] == m;
      assert s[i + 1] == m;
    }
  }

  /** Inserting a measurement that does not precede `y` into a sequence
      nothing of which precedes `y` leaves nothing preceding `y`. */
  lemma {:induction false} NoneBeforeInsert(x: Measurement, y: Measurement, s: seq<Measurement>)
    requires NoneBefore(y, s) && !Precedes(x, y)
    ensures NoneBefore(y, Insert(x, s))
    decreases |s|
  {
    if |s| > 0 && Precedes(s[0], x) {
      assert NoneBefore(y, s[1..]) by {
        forall j | 0 <= j < |s[1..]|
          ensures !Precedes(s[1..][j], y)
        {
          assert s[1..][j] == s[j + 1];
        }
      }
      NoneBeforeInsert(x, y, s[1..]);
      var r := Insert(x, s);
      assert r == [s[0]] + Insert(x, s[1..]);
      forall j | 0 <= j < |r|
        ensures !Precedes(r[j], y)
      {
        if j > 0 {
          assert r[j] == Insert(x, s[1..])[j - 1];
        }
      }
    } else if |s| > 0 {
      var r := Insert(x, s);
      assert r == [x] + s;
      forall j | 0 <= j < |r|
        ensures !Precedes(r[j], y)
      {
        if j > 0 {
          assert r[j] == s[j - 1];
        }
      }
    }
  }

  /** With known temperatures, a measurement that does not come after the
      head of an ordered sequence comes after nothing in it. */
  lemma NoneBeforeHead(x: Measurement, s: seq<Measurement>)
    requires Ordered(s) && TemperaturesKnown(s) && x.temperature.Some?
    requires |s| > 0 && !Precedes(s[0], x)
    ensures NoneBefore(x, s)
  {
    forall j | 0 <= j < |s|
      ensures !Precedes(s[j], x)
    {
      if j > 0 {
        assert s[0] in s && s[j] in s;
        NotAfterTransitive(x, s[0], s[j]);
      }
    }
  }

  /** Sequences holding the same measurements at every key, one of them
      with known temperatures, both have known temperatures. */
  lemma TemperaturesKnownByKey(s: seq<Measurement>, t: seq<Measurement>)
    requires TemperaturesKnown(t)
    requires forall k :: AtKey(s, k) == AtKey(t, k)
    ensures TemperaturesKnown(s)
  {
    forall m | m in s
      ensures m.temperature.Some?
    {
      AtKeyMembers(s, Key(m));
      AtKeyMembers(t, Key(m));
    }
  }

  /** Among known temperatures, insertion into an ordered sequence keeps
      it ordered. */
  lemma {:induction false} InsertOrdered(x: Measurement, s: seq<Measurement>)
    requires Ordered(s) && TemperaturesKnown(s) && x.temperature.Some?
    ensures Ordered(Insert(x, s))
    decreases |s|
  {
    if |s| == 0 {
      assert Insert(x, s) == [x];
    } else if !Precedes(s[0], x) {
      NoneBeforeHead(x, s);
      OrderedCons(x, s);
    } else {
      OrderedTail(s);
      TemperaturesKnownTail(s);
      InsertOrdered(x, s[1..]);
      CompareAntisymmetric(s[0], x);
      NoneBeforeInsert(x, s[0], s[1..]);
      OrderedCons(s[0], Insert(x, s[1..]));
    }
  }

  /** The sort keeps every measurement exactly as often as it occurs,
      leaves the result ascending by timestamp, keeps the input order
      among measurements with equal keys, and, among known temperatures,
      leaves no measurement after one it precedes. */
  lemma SortSpec(s: seq<Measurement>)
    ensures multiset(Sort(s)) == multiset(s)
    ensures |Sort(s)| == |s|
    ensures Sorted(Sort(s))
    ensures forall k :: AtKey(Sort(s), k) == AtKey(s, k)
    ensures TemperaturesKnown(s) ==> Ordered(Sort(s))
  {
    SortCount(s);
    SortSorted(s);
    forall k
      ensures AtKey(Sort(s), k) == AtKey(s, k)
    {
      SortAtKey(s, k);
    }
    if TemperaturesKnown(s) {
      SortOrdered(s);
    }
  }

  lemma {:induction false} SortCount(s: seq<Measurement>)
    ensures multiset(Sort(s)) == multiset(s)
    ensures |Sort(s)| == |s|
    decreases |s|
  {
    if |s| > 0 {
      var t := Sort(s[1..]);
      SortCount(s[1..]);
      InsertCount(s[0], t);
      assert multiset(s) == multiset(s[1..]) + multiset{s[0]} by {
        assert s == [s[0]] + s[1..];
      }
    }
  }

  lemma {:induction false} SortSorted(s: seq<Measurement>)
    ensures Sorted(Sort(s))
    decreases |s|
  {
    if |s| > 0 {
      SortSorted(s[1..]);
      InsertSorted(s[0], Sort(s[1..]));
    }
  }

  lemma {:induction false} SortAtKey(s: seq<Measurement>, k: SortKey)
    ensures AtKey(Sort(s), k) == AtKey(s, k)
    decreases |s|
  {
    if |s| > 0 {
      SortAtKey(s[1..], k);
      InsertAtKey(s[0], Sort(s[1..]), k);
      AtKeyCons(s, k);
    }
  }

  lemma {:induction false} SortOrdered(s: seq<Measurement>)
    requires TemperaturesKnown(s)
    ensures Ordered(Sort(s))
    decreases |s|
  {
    if |s| > 0 {
      assert s == [s[0]] + s[1..];
      TemperaturesKnownTransfer(s[1..], s);
      SortOrdered(s[1..]);
      SortCount(s[1..]);
      TemperaturesKnownTransfer(Sort(s[1..]), s[1..]);
      InsertOrdered(s[0], Sort(s[1..]));
    }
  }

  /** Sorting a sequence that agrees at every key with `all` gives a
      sorted permutation of `all` that still agrees with it at every key,
      and, when the temperatures of `all` are known, an ordered one. */
  lemma SortAgreeing(g: seq<Measurement>, all: seq<Measurement>)
    requires forall k :: AtKey(g, k) == AtKey(all, k)
    ensures Sorted(Sort(g))
    ensures multiset(Sort(g)) == multiset(all) && |Sort(g)| == |all|
    ensures forall k :: AtKey(Sort(g), k) == AtKey(all, k)
    ensures TemperaturesKnown(all) ==> Ordered(Sort(g))
  {
    SortSpec(g);
    AtKeySameMultiset(g, all);
    assert |multiset(g)| == |multiset(all)|;
    if TemperaturesKnown(all) {
      TemperaturesKnownByKey(g, all);
    }
  }

  /** In an ordered sequence nothing precedes its head. */
  lemma OrderedHead(s: seq<Measurement>, m: Measurement)
    requires Ordered(s) && m in s
    ensures !Precedes(m, s[0])
  {
    var k :| 0 <= k < |s| && s[k] == m;
    if k == 0 {
      SameKeyUnordered(m, m);
    }
  }

  /** With known temperatures, two measurements neither of which precedes
      the other have the same key. */
  lemma TiedSameKey(x: Measurement, y: Measurement)
    requires x.temperature.Some? && y.temperature.Some?
    requires !Precedes(x, y) && !Precedes(y, x)
    ensures Key(x) == Key(y)
  {
    CompareTotal(x, y);
    CompareAntisymmetric(x, y);
  }

  /** The first measurement of `s` with the key of the head is the head. */
  lemma AtKeyHead(s: seq<Measurement>)
    requires |s| > 0
    ensures AtKey(s, Key(s[0])) != [] && AtKey(s, Key(s[0]))[0] == s[0]
  {
    AtKeyCons(s, Key(s[0]));
  }

  /** Ordered sequences with known temperatures and the same measurements
      at every key start with the same measurement. */
  lemma SameHead(a: seq<Measurement>, b: seq<Measurement>)
    requires Ordered(a) && Ordered(b) && |a| > 0 && |b| > 0 && TemperaturesKnown(a)
    requires forall k :: AtKey(a, k) == AtKey(b, k)
    ensures a[0] == b[0]
  {
    var x, y := a[0], b[0];
    assert x in b && y in a && y.temperature.Some? by {
      AtKeyMembers(a, Key(y));
      AtKeyMembers(b, Key(x));
      assert x in AtKey(a, Key(x)) && y in AtKey(b, Key(y));
    }
    OrderedHead(b, x);
    OrderedHead(a, y);
    TiedSameKey(x, y);
    AtKeyHead(a);
    AtKeyHead(b);
  }

  /** After a common head, the tails hold the same measurements at every
      key. */
  lemma SameTails(a: seq<Measurement>, b: seq<Measurement>, k: SortKey)
    requires |a| > 0 && |b| > 0 && a[0] == b[0]
    requires AtKey(a, k) == AtKey(b, k)
    ensures AtKey(a[1..], k) == AtKey(b[1..], k)
  {
    AtKeyCons(a, k);
    AtKeyCons(b, k);
    var head := if Key(a[0]) == k then [a[0]] else [];
    assert AtKey(a[1..], k) == AtKey(a, k)[|head|..];
    assert AtKey(b[1..], k) == AtKey(b, k)[|head|..];
  }

  /** Sequences with the same measurements at every key are both empty or
      both not. */
  lemma SameKeysEmpty(a: seq<Measurement>, b: seq<Measurement>)
    requires forall k :: AtKey(a, k) == AtKey(b, k)
    ensures |a| == 0 <==> |b| == 0
  {
    if |a| > 0 {
      AtKeyHead(a);
    }
    if |b| > 0 {
      AtKeyHead(b);
    }
  }

  /** Two ordered sequences of measurements with known temperatures that
      hold, at every key, the same measurements in the same order are
      equal: among known temperatures a stable sort under the derived order
      has exactly one possible result, whatever algorithm produced it. */
  lemma {:induction false} StableSortUnique(a: seq<Measurement>, b: seq<Measurement>)
    requires TemperaturesKnown(a) && Ordered(a) && Ordered(b)
    requires forall k :: AtKey(a, k) == AtKey(b, k)
    ensures a == b
    decreases |a|
  {
    SameKeysEmpty(a, b);
    if |a| > 0 {
      SameHead(a, b);
      forall k
        ensures AtKey(a[1..], k) == AtKey(b[1..], k)
      {
        SameTails(a, b, k);
      }
      OrderedTail(a);
      OrderedTail(b);
      TemperaturesKnownTail(a);
      StableSortUnique(a[1..], b[1..]);
      assert a == [a[0]] + a[1..] && b == [b[0]] + b[1..];
    }
  }

  /** Sorting the parts first changes nothing at any key. */
  lemma SortedPartsAtKey(a: seq<Measurement>, b: seq<Measurement>, k: SortKey)
    ensures AtKey(Sort(Sort(a) + Sort(b)), k) == AtKey(Sort(a + b), k)
  {
    SortAtKey(Sort(a) + Sort(b), k);
    AtKeyAppend(Sort(a), Sort(b), k);
    SortAtKey(a, k);
    SortAtKey(b, k);
    AtKeyAppend(a, b, k);
    SortAtKey(a + b, k);
  }

  /** Among known temperatures, sorting parts, appending them and sorting
      again gives what one sort of the unsorted parts appended gives: the
      per-resolution sorts before the final one leave no trace. */
  lemma SortOfSortedParts(a: seq<Measurement>, b: seq<Measurement>)
    requires TemperaturesKnown(a + b)
    ensures Sort(Sort(a) + Sort(b)) == Sort(a + b)
  {
    var whole, parts := Sort(a + b), Sort(Sort(a) + Sort(b));
    SortCount(a + b);
    TemperaturesKnownTransfer(whole, a + b);
    SortOrdered(a + b);
    assert TemperaturesKnown(Sort(a) + Sort(b)) by {
      SortCount(a);
      SortCount(b);
      assert multiset(Sort(a) + Sort(b)) == multiset(a + b);
      TemperaturesKnownTransfer(Sort(a) + Sort(b), a + b);
    }
    SortOrdered(Sort(a) + Sort(b));
    forall k
      ensures AtKey(whole, k) == AtKey(parts, k)
    {
      SortedPartsAtKey(a, b, k);
    }
    StableSortUnique(whole, parts);
  }
}
