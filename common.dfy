/** Vocabulary shared by every part of the model: optional and fallible
    values, Rust's truncating integer division, substring search as
    `str::find` performs it, and the two calls the core makes into the
    `chrono` / `chrono-tz` libraries, which the model takes as parameters. */
module Common {

  datatype Option<+T> = None | Some(value: T)

  datatype Result<+T, +E> = Ok(value: T) | Err(error: E)

  /** Joins two fallible sequences: the first error wins, otherwise the
      values are appended.  This is how a growing output buffer behaves when
      any step may abort the run. */
  function Concat<T, E>(a: Result<seq<T>, E>, b: Result<seq<T>, E>): (r: Result<seq<T>, E>)
    ensures a.Err? ==> r == a
    ensures a.Ok? && b.Err? ==> r == b
    ensures a.Ok? && b.Ok? ==> r == Ok(a.value + b.value)
  {
    match a
    case Err(e) => Err(e)
    case Ok(x) =>
      match b
      case Err(e) => Err(e)
      case Ok(y) => Ok(x + y)
  }

  lemma ConcatAssoc<T, E>(a: Result<seq<T>, E>, b: Result<seq<T>, E>, c: Result<seq<T>, E>)
    ensures Concat(Concat(a, b), c) == Concat(a, Concat(b, c))
  {
    if a.Ok? && b.Ok? && c.Ok? {
      assert (a.value + b.value) + c.value == a.value + (b.value + c.value);
    }
  }

  /** `Ok([])` is the unit of `Concat` on either side. */
  lemma ConcatEmpty<T, E>(r: Result<seq<T>, E>)
    ensures Concat(Ok([]), r) == r
    ensures Concat(r, Ok([])) == r
  {
    if r.Ok? {
      assert [] + r.value == r.value;
      assert r.value + [] == r.value;
    }
  }

  /** Rust's `/` on signed integers rounds toward zero, where Dafny's `/`
      rounds toward negative infinity; the two differ on negative dividends. */
  function TruncDiv(a: int, b: int): int
    requires b > 0
  {
    if a >= 0 then a / b else -((-a) / b)
  }

  /** The truncated quotient never overshoots the dividend: it lies in the
      unit interval between the dividend and zero. */
  lemma TruncDivBounds(a: int, b: int)
    requires b > 0
    ensures a >= 0 ==> 0 <= TruncDiv(a, b) && b * TruncDiv(a, b) <= a < b * TruncDiv(a, b) + b
    ensures a < 0 ==> TruncDiv(a, b) <= 0 && b * TruncDiv(a, b) - b < a <= b * TruncDiv(a, b)
  {
    var n := if a >= 0 then a else -a;
    var q, r := n / b, n % b;
    assert n == b * q + r && 0 <= r < b;
  }

  /** The calls into the time libraries.  `localToUtc` takes a naive
      Helsinki wall-clock time in epoch seconds (`NaiveDateTime::from_timestamp`
      followed by `Helsinki.from_local_datetime(..).unwrap()` and
      `with_timezone(&Utc)`) and gives the UTC instant in epoch seconds, or
      None where the library call panics: a value out of chrono's range, a
      wall-clock time skipped by a daylight-saving change, or one that
      occurs twice.  `rfc3339` is `DateTime::<Utc>::to_rfc3339`. */
  datatype TimeLib = TimeLib(localToUtc: int -> Option<int>, rfc3339: int -> string)

  /** `pat` occurs in `s` starting at index `k`. */
  predicate OccursAt(s: string, pat: string, k: int)
  {
    0 <= k && k + |pat| <= |s| && s[k..k + |pat|] == pat
  }

  predicate Contains(s: string, pat: string)
  {
    exists k | 0 <= k <= |s| :: OccursAt(s, pat, k)
  }

  /** `str::find`: the index of the first occurrence of `pat` in `s`.
      Its meaning is stated by `FindSpec`, kept out of the function's own
      contract so that it is brought in only where a proof needs it. */
  function Find(s: string, pat: string): (r: Option<nat>)
    ensures r.Some? ==> r.value + |pat| <= |s|
  {
    FindFrom(s, pat, 0)
  }

  function FindFrom(s: string, pat: string, i: nat): (r: Option<nat>)
    requires i <= |s|
    ensures r.Some? ==> i <= r.value && r.value + |pat| <= |s|
    decreases |s| - i, 1
  {
    if i + |pat| > |s| then None else FindAt(s, pat, i)
  }

  function FindAt(s: string, pat: string, i: nat): (r: Option<nat>)
    requires i + |pat| <= |s|
    ensures r.Some? ==> i <= r.value && r.value + |pat| <= |s|
    decreases |s| - i, 0
  {
    if OccursAt(s, pat, i) then Some(i) else FindFrom(s, pat, i + 1)
  }

  lemma {:induction false} FindFromSpec(s: string, pat: string, i: nat)
    requires i <= |s|
    ensures var r := FindFrom(s, pat, i);
      && (r.Some? ==> OccursAt(s, pat, r.value))
      && (r.Some? ==> forall k :: i <= k < r.value ==> !OccursAt(s, pat, k))
      && (r.None? ==> forall k :: i <= k ==> !OccursAt(s, pat, k))
    decreases |s| - i
  {
    if i + |pat| <= |s| && !OccursAt(s, pat, i) {
      assert FindFrom(s, pat, i) == FindAt(s, pat, i) == FindFrom(s, pat, i + 1);
      FindFromSpec(s, pat, i + 1);
    }
  }

  /** `find` answers the first occurrence, and None only when there is none. */
  lemma FindSpec(s: string, pat: string)
    ensures var r := Find(s, pat);
      && (r.Some? ==> OccursAt(s, pat, r.value))
      && (r.Some? ==> forall k :: 0 <= k < r.value ==> !OccursAt(s, pat, k))
      && (r.None? <==> !Contains(s, pat))
  {
    FindFromSpec(s, pat, 0);
    var r := Find(s, pat);
    if r.Some? {
      assert OccursAt(s, pat, r.value);
    }
  }

  /** The first occurrence of a pattern whose first character does not
      recur inside it, written right after text that does not contain the
      pattern, is found exactly there: it cannot straddle the boundary. */
  lemma {:induction false} FindAfterPlainText(t: string, pat: string, rest: string)
    requires |pat| > 0
    requires forall d :: 1 <= d < |pat| ==> pat[d] != pat[0]
    requires !Contains(t, pat)
    ensures Find(t + pat + rest, pat) == Some(|t|)
  {
    var s := t + pat + rest;
    assert s[|t|..|t| + |pat|] == pat;
    assert OccursAt(s, pat, |t|);
    forall k | 0 <= k < |t|
      ensures !OccursAt(s, pat, k)
    {
      if k + |pat| <= |t| {
        // a whole occurrence here would lie inside `t`
        assert t[k..k + |pat|] == s[k..k + |pat|];
        assert !OccursAt(t, pat, k);
      } else if k + |pat| <= |s| {
        // one straddling the boundary would need `pat[0]` at offset d
        var d := |t| - k;
        assert s[k..k + |pat|][d] == s[|t|] == pat[0];
        assert pat[d] != pat[0];
      }
    }
    FindSpec(s, pat);
  }

  /** When no occurrence starts before `m`, searching `s` is searching the
      suffix from `m` and shifting the answer. */
  lemma FindSkip(s: string, pat: string, m: nat)
    requires m <= |s|
    requires forall k :: 0 <= k < m ==> !OccursAt(s, pat, k)
    ensures Find(s, pat).Some? <==> Find(s[m..], pat).Some?
    ensures Find(s, pat).Some? ==> Find(s, pat).value == m + Find(s[m..], pat).value
  {
    forall j | 0 <= j
      ensures OccursAt(s[m..], pat, j) <==> OccursAt(s, pat, m + j)
    {
      if m + j + |pat| <= |s| {
        assert s[m..][j..j + |pat|] == s[m + j..m + j + |pat|];
      }
    }
    FindSpec(s, pat);
    FindSpec(s[m..], pat);
    var a, b := Find(s, pat), Find(s[m..], pat);
    if a.Some? {
      assert OccursAt(s[m..], pat, a.value - m);
    }
    if b.Some? {
      assert OccursAt(s, pat, m + b.value);
    }
  }

  /** Text that ends before the first occurrence of a pattern does not
      contain the pattern. */
  lemma BeforeFirstOccurrence(s: string, pat: string, i: nat)
    requires |pat| > 0 && i <= |s|
    requires forall k :: 0 <= k < i ==> !OccursAt(s, pat, k)
    ensures !Contains(s[..i], pat)
  {
    forall k | 0 <= k <= i && OccursAt(s[..i], pat, k)
      ensures false
    {
      assert s[..i][k..k + |pat|] == s[k..k + |pat|];
      assert OccursAt(s, pat, k);
    }
  }
}
