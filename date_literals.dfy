/** The literal repair that runs before the report payload can be read as
    JSON (energiatili-model/src/utils.rs, `fix_new_date`).  The report page
    writes `new Date(<milliseconds>)` where JSON needs a value; the number is
    a Helsinki wall-clock time, not UTC.  Every such call is replaced by a
    quoted RFC 3339 rendering of the UTC instant; all other text is copied. */
module DateLiterals {
  import opened Common

  /** The opening of a literal; the literal runs to the first `)` after it. */
  const Literal: string := "new Date("

  /** The three kinds of failure of `fix_new_date`'s `expect`/`unwrap`
      calls; the two time-conversion panics are one kind here. */
  datatype RepairError =
    | MissingParen              // no `)` after `new Date(`
    | BadInteger(text: string)  // the argument is not an `i64`
    | NoLocalTime(seconds: int) // the wall-clock time has no unique UTC instant

  const I64Min: int := -0x8000_0000_0000_0000
  const I64Max: int := 0x7fff_ffff_ffff_ffff

  predicate IsDigit(c: char)
  {
    '0' <= c <= '9'
  }

  /** The characters `s[lo..hi]` are all decimal digits. */
  predicate AllDigits(s: string, lo: nat, hi: nat)
    requires lo <= hi <= |s|
  {
    forall k :: lo <= k < hi ==> IsDigit(s[k])
  }

  /** The value of the decimal digits `s[lo..hi]`, most significant first,
      or None when one of them is not a digit. */
  function ReadDigits(s: string, lo: nat, hi: nat): Option<nat>
    requires lo <= hi <= |s|
    decreases hi - lo
  {
    if hi == lo then Some(0)
    else if !IsDigit(s[hi - 1]) then None
    else
      match ReadDigits(s, lo, hi - 1)
      case None => None
      case Some(v) => Some(v * 10 + (s[hi - 1] as int - '0' as int))
  }

  lemma {:induction false} ReadDigitsAllDigits(s: string, lo: nat, hi: nat)
    requires lo <= hi <= |s|
    ensures ReadDigits(s, lo, hi).Some? <==> AllDigits(s, lo, hi)
    decreases hi - lo
  {
    if hi > lo {
      ReadDigitsAllDigits(s, lo, hi - 1);
    }
  }

  /** `str::parse::<i64>`: an optional `+` or `-`, then at least one decimal
      digit, and nothing else; values outside the 64-bit range are rejected. */
  function ParseI64(s: string): (r: Option<int>)
    ensures r.Some? ==> I64Min <= r.value <= I64Max
  {
    var start := if |s| > 0 && (s[0] == '+' || s[0] == '-') then 1 else 0;
    if start == |s| then None
    else
      match ReadDigits(s, start, |s|)
      case None => None
      case Some(n) =>
        var v: int := if s[0] == '-' then -(n as int) else n;
        if I64Min <= v <= I64Max then Some(v) else None
  }

  /** Decimal rendering of a natural number, the reference for `ParseI64`. */
  function ShowNat(n: nat): (r: string)
    ensures |r| > 0
    decreases n
  {
    (if n < 10 then "" else ShowNat(n / 10)) + [('0' as int + n % 10) as char]
  }

  function ShowInt(n: int): string
  {
    if n < 0 then "-" + ShowNat(-n) else ShowNat(n)
  }

  /** The last digit of `n` and the number before it. */
  lemma LastDigit(n: nat)
    ensures var c := ('0' as int + n % 10) as char;
      IsDigit(c) && (n / 10) * 10 + (c as int - '0' as int) == n
  {
  }

  /** Reading one more digit. */
  lemma ReadDigitsStep(t: string, lo: nat, hi: nat, v: nat)
    requires lo < hi <= |t| && IsDigit(t[hi - 1]) && ReadDigits(t, lo, hi - 1) == Some(v)
    ensures ReadDigits(t, lo, hi) == Some(v * 10 + (t[hi - 1] as int - '0' as int))
  {
  }

  /** Where `w + [c]` is written from `lo`, so are `w` and then `c`. */
  lemma WrittenSnoc(t: string, lo: nat, w: string, c: char)
    requires lo + |w| < |t|
    requires forall k :: 0 <= k < |w| + 1 ==> t[lo + k] == (w + [c])[k]
    ensures t[lo + |w|] == c
    ensures forall k :: 0 <= k < |w| ==> t[lo + k] == w[k]
  {
    assert t[lo + |w|] == (w + [c])[|w|];
    forall k | 0 <= k < |w|
      ensures t[lo + k] == w[k]
    {
      assert t[lo + k] == (w + [c])[k];
    }
  }

  /** Wherever the decimal rendering of `n` is written, it reads back as `n`. */
  lemma {:induction false} ShowNatDigits(n: nat, t: string, lo: nat, hi: nat)
    requires hi == lo + |ShowNat(n)| <= |t|
    requires forall k :: 0 <= k < |ShowNat(n)| ==> t[lo + k] == ShowNat(n)[k]
    ensures ReadDigits(t, lo, hi) == Some(n)
    decreases n
  {
    var c := ('0' as int + n % 10) as char;
    LastDigit(n);
    var prefix := if n < 10 then "" else ShowNat(n / 10);
    assert ShowNat(n) == prefix + [c];
    WrittenSnoc(t, lo, prefix, c);
    if n >= 10 {
      ShowNatDigits(n / 10, t, lo, hi - 1);
    }
    ReadDigitsStep(t, lo, hi, n / 10);
  }

  /** Every 64-bit integer written in decimal is accepted as itself. */
  lemma ParseShowInt(n: int)
    requires I64Min <= n <= I64Max
    ensures ParseI64(ShowInt(n)) == Some(n)
  {
    var s := ShowInt(n);
    if n < 0 {
      var digits := ShowNat(-n);
      assert s == "-" + digits;
      ShowNatDigits(-n, s, 1, |s|);
    } else {
      ShowNatDigits(n, s, 0, |s|);
      ReadDigitsAllDigits(s, 0, |s|);
      assert IsDigit(s[0]);
    }
  }

  /** Whatever `ParseI64` accepts is a sign and digits: it holds neither a
      `)` nor an `n`, so it can neither end a literal early nor begin one. */
  lemma ParsedArgumentIsPlain(arg: string)
    requires ParseI64(arg).Some?
    ensures ')' !in arg && 'n' !in arg
  {
    var start := if |arg| > 0 && (arg[0] == '+' || arg[0] == '-') then 1 else 0;
    ReadDigitsAllDigits(arg, start, |arg|);
  }

  /** A pattern of one character occurs exactly where that character does. */
  lemma AbsentCharNotContained(x: string, c: char)
    requires c !in x
    ensures !Contains(x, [c])
  {
    forall k | 0 <= k <= |x|
      ensures !OccursAt(x, [c], k)
    {
      if k < |x| {
        assert x[k..k + 1][0] == x[k];
      }
    }
  }

  /** One stretch of the input: plain text, copied through, or a literal
      whose argument text and converted UTC instant are kept. */
  datatype Piece = Text(text: string) | Date(arg: string, utc: int)

  /** Splits the input the way the scanner walks it: text up to the first
      `new Date(`, the literal up to the first `)` after it, and the rest
      scanned again from just after that `)`. */
  function Scan(s: string, lib: TimeLib): Result<seq<Piece>, RepairError>
    decreases |s|, 1, 0
  {
    match Find(s, Literal)
    case None => Ok([Text(s)])
    case Some(i) => ScanAt(s, i, lib)
  }

  /** The scanner at the literal that starts at index `i` of `s`.  The
      argument is milliseconds; it is truncated toward zero to whole seconds
      before the wall-clock conversion. */
  function ScanAt(s: string, i: nat, lib: TimeLib): Result<seq<Piece>, RepairError>
    requires Find(s, Literal) == Some(i)
    decreases |s|, 0, 1
  {
    match Find(s[i..], ")")
    case None => Err(MissingParen)
    case Some(j) => ScanLiteral(s, i, j, lib)
  }

  /** The literal spanning `s[i..i + j + 1]`, closed by the `)` at `i + j`. */
  function ScanLiteral(s: string, i: nat, j: nat, lib: TimeLib): Result<seq<Piece>, RepairError>
    requires Find(s, Literal) == Some(i)
    requires i <= |s| && Find(s[i..], ")") == Some(j)
    decreases |s|, 0, 0
  {
    ParenAfterLiteral(s, i, j);
    var arg := s[i + |Literal|..i + j];
    match ParseI64(arg)
    case None => Err(BadInteger(arg))
    case Some(ms) =>
      var local := TruncDiv(ms, 1000);
      match lib.localToUtc(local)
      case None => Err(NoLocalTime(local))
      case Some(utc) => Concat(Ok([Text(s[..i]), Date(arg, utc)]), Scan(s[i + j + 1..], lib))
  }

  /** The `)` that closes a literal lies after the literal's opening. */
  lemma ParenAfterLiteral(s: string, i: nat, j: nat)
    requires Find(s, Literal) == Some(i)
    requires i <= |s| && Find(s[i..], ")") == Some(j)
    ensures |Literal| <= j
  {
    FindSpec(s, Literal);
    FindSpec(s[i..], ")");
    assert s[i..][j..j + 1][0] == ')';
    forall d | 0 <= d < |Literal|
      ensures s[i..][d] != ')'
    {
      assert s[i..][d] == s[i..i + |Literal|][d];
    }
  }

  function Quoted(utc: int, lib: TimeLib): string
  {
    "\"" + lib.rfc3339(utc) + "\""
  }

  /** The repaired text: literals become quoted timestamps. */
  function Render(ps: seq<Piece>, lib: TimeLib): string
    decreases |ps|
  {
    if |ps| == 0 then ""
    else
      (match ps[0]
       case Text(t) => t
       case Date(_, utc) => Quoted(utc, lib))
      + Render(ps[1..], lib)
  }

  /** The original text the pieces were cut from. */
  function Unparse(ps: seq<Piece>): string
    decreases |ps|
  {
    if |ps| == 0 then ""
    else
      (match ps[0]
       case Text(t) => t
       case Date(arg, _) => Literal + arg + ")")
      + Unparse(ps[1..])
  }

  function DateCount(ps: seq<Piece>): nat
    decreases |ps|
  {
    if |ps| == 0 then 0 else (if ps[0].Date? then 1 else 0) + DateCount(ps[1..])
  }

  /** What `fix_new_date` returns: the rendering of the scanned pieces. */
  function Repair(s: string, lib: TimeLib): Result<string, RepairError>
  {
    RenderResult(Scan(s, lib), lib)
  }

  function RenderResult(scanned: Result<seq<Piece>, RepairError>, lib: TimeLib): Result<string, RepairError>
  {
    match scanned
    case Err(e) => Err(e)
    case Ok(ps) => Ok(Render(ps, lib))
  }

  /** A literal is well formed when its argument is an `i64` whose value,
      truncated toward zero from milliseconds to seconds, is a Helsinki
      wall-clock time with a unique UTC instant `utc`. */
  predicate ValidDate(arg: string, utc: int, lib: TimeLib)
  {
    match ParseI64(arg)
    case None => false
    case Some(ms) => lib.localToUtc(TruncDiv(ms, 1000)) == Some(utc)
  }

  /** Text and literals alternate, beginning and ending with text, and no
      text contains the start of a literal. */
  predicate WellFormed(ps: seq<Piece>, lib: TimeLib)
    decreases |ps|
  {
    && |ps| > 0
    && ps[0].Text? && !Contains(ps[0].text, Literal)
    && (|ps| > 1 ==> ps[1].Date? && ValidDate(ps[1].arg, ps[1].utc, lib) && WellFormed(ps[2..], lib))
  }

  /** The pieces one literal contributes, ahead of the pieces of the rest. */
  lemma PiecesCons(t: string, arg: string, utc: int, rest: seq<Piece>, lib: TimeLib)
    ensures var ps := [Text(t), Date(arg, utc)] + rest;
      && ps[2..] == rest
      && Unparse(ps) == t + Literal + arg + ")" + Unparse(rest)
      && Render(ps, lib) == t + Quoted(utc, lib) + Render(rest, lib)
      && DateCount(ps) == 1 + DateCount(rest)
      && (WellFormed(ps, lib) <==> !Contains(t, Literal) && ValidDate(arg, utc, lib) && WellFormed(rest, lib))
  {
    var ps := [Text(t), Date(arg, utc)] + rest;
    assert ps[1..][1..] == ps[2..] == rest;
    UnparseCons(ps, t, arg, utc, rest);
    RenderCons(ps, t, arg, utc, rest, lib);
    DateCountCons(ps, rest);
    WellFormedCons(ps, t, arg, utc, rest, lib);
  }

  lemma DateCountCons(ps: seq<Piece>, rest: seq<Piece>)
    requires |ps| >= 2 && ps[0].Text? && ps[1].Date? && ps[1..][1..] == rest
    ensures DateCount(ps) == 1 + DateCount(rest)
  {
    assert DateCount(ps) == DateCount(ps[1..]) == 1 + DateCount(rest);
  }

  lemma WellFormedCons(ps: seq<Piece>, t: string, arg: string, utc: int, rest: seq<Piece>, lib: TimeLib)
    requires |ps| >= 2 && ps[0] == Text(t) && ps[1] == Date(arg, utc) && ps[2..] == rest
    ensures WellFormed(ps, lib) <==> !Contains(t, Literal) && ValidDate(arg, utc, lib) && WellFormed(rest, lib)
  {
    assert |ps| == |rest| + 2;
  }

  lemma UnparseCons(ps: seq<Piece>, t: string, arg: string, utc: int, rest: seq<Piece>)
    requires |ps| >= 2 && ps[0] == Text(t) && ps[1] == Date(arg, utc) && ps[1..][1..] == rest
    ensures Unparse(ps) == t + Literal + arg + ")" + Unparse(rest)
  {
    assert Unparse(ps) == t + Unparse(ps[1..]) == t + ((Literal + arg + ")") + Unparse(rest));
  }

  lemma RenderCons(ps: seq<Piece>, t: string, arg: string, utc: int, rest: seq<Piece>, lib: TimeLib)
    requires |ps| >= 2 && ps[0] == Text(t) && ps[1] == Date(arg, utc) && ps[1..][1..] == rest
    ensures Render(ps, lib) == t + Quoted(utc, lib) + Render(rest, lib)
  {
    assert Render(ps, lib) == t + Render(ps[1..], lib) == t + (Quoted(utc, lib) + Render(rest, lib));
  }

  /** A lone text piece is the whole input and the whole output. */
  lemma PiecesSingle(t: string, lib: TimeLib)
    ensures var ps := [Text(t)];
      && Unparse(ps) == t && Render(ps, lib) == t && DateCount(ps) == 0
      && (WellFormed(ps, lib) <==> !Contains(t, Literal))
  {
    var ps := [Text(t)];
    assert ps[1..] == [];
  }

  /** Where `find` places a literal whose argument has no `)`: at the end of
      the literal-free text before it, closed by the `)` after the argument. */
  lemma LiteralAt(t: string, arg: string, rest: string)
    requires !Contains(t, Literal) && ')' !in arg
    ensures var s := t + Literal + arg + ")" + rest;
      && Find(s, Literal) == Some(|t|)
      && Find(s[|t|..], ")") == Some(|Literal| + |arg|)
      && s[|t| + |Literal|..|t| + |Literal| + |arg|] == arg
      && s[|t| + |Literal| + |arg| + 1..] == rest
      && s[..|t|] == t
  {
    var s := t + Literal + arg + ")" + rest;
    assert s == t + Literal + (arg + ")" + rest);
    assert forall d :: 1 <= d < |Literal| ==> Literal[d] != Literal[0];
    FindAfterPlainText(t, Literal, arg + ")" + rest);
    assert s[|t|..] == (Literal + arg) + ")" + rest;
    assert ')' !in Literal + arg;
    AbsentCharNotContained(Literal + arg, ')');
    FindAfterPlainText(Literal + arg, ")", rest);
  }

  /** The scan of text, a literal and what follows: the literal's argument
      decides between the two errors and the pieces it contributes, and the
      scan resumes on `rest`. */
  lemma ScanAtLiteral(t: string, arg: string, rest: string, lib: TimeLib)
    requires !Contains(t, Literal) && ')' !in arg
    ensures Scan(t + Literal + arg + ")" + rest, lib) ==
      match ParseI64(arg)
      case None => Err(BadInteger(arg))
      case Some(ms) =>
        match lib.localToUtc(TruncDiv(ms, 1000))
        case None => Err(NoLocalTime(TruncDiv(ms, 1000)))
        case Some(utc) => Concat(Ok([Text(t), Date(arg, utc)]), Scan(rest, lib))
  {
    LiteralAt(t, arg, rest);
    var s := t + Literal + arg + ")" + rest;
    assert Scan(s, lib) == ScanAt(s, |t|, lib) == ScanLiteral(s, |t|, |Literal| + |arg|, lib);
  }

  /** The scanner's view of its input: the text before the first literal,
      the literal's argument up to the first `)`, and the rest after it. */
  lemma LiteralSplit(s: string, i: nat, j: nat)
    requires Find(s, Literal) == Some(i)
    requires i <= |s| && Find(s[i..], ")") == Some(j)
    ensures |Literal| <= j && i + j < |s|
    ensures s == s[..i] + Literal + s[i + |Literal|..i + j] + ")" + s[i + j + 1..]
    ensures !Contains(s[..i], Literal) && ')' !in s[i + |Literal|..i + j]
  {
    ParenAfterLiteral(s, i, j);
    FindSpec(s, Literal);
    BeforeFirstOccurrence(s, Literal, i);
    FindSpec(s[i..], ")");
    LiteralParts(s, i, j);
    ArgumentBeforeParen(s, i, j);
  }

  lemma LiteralParts(s: string, i: nat, j: nat)
    requires i + |Literal| <= i + j < |s| && OccursAt(s, Literal, i)
    requires s[i..][j..j + 1] == ")"
    ensures s == s[..i] + Literal + s[i + |Literal|..i + j] + ")" + s[i + j + 1..]
  {
    assert s[i..i + |Literal|] == Literal;
    assert s[i + j..i + j + 1] == ")";
    assert s == s[..i] + s[i..i + |Literal|] + s[i + |Literal|..i + j] + s[i + j..i + j + 1] + s[i + j + 1..];
  }

  lemma ArgumentBeforeParen(s: string, i: nat, j: nat)
    requires |Literal| <= j && i + j <= |s|
    requires forall k :: 0 <= k < j ==> !OccursAt(s[i..], ")", k)
    ensures ')' !in s[i + |Literal|..i + j]
  {
    var arg := s[i + |Literal|..i + j];
    forall k | 0 <= k < |arg|
      ensures arg[k] != ')'
    {
      assert !OccursAt(s[i..], ")", |Literal| + k);
      assert s[i..][|Literal| + k..|Literal| + k + 1][0] == arg[k];
    }
  }

  /** Whatever scans successfully is cut into well-formed pieces that put
      the input back together. */
  lemma {:induction false} ScanSound(s: string, lib: TimeLib)
    requires Scan(s, lib).Ok?
    ensures WellFormed(Scan(s, lib).value, lib) && Unparse(Scan(s, lib).value) == s
    decreases |s|
  {
    match Find(s, Literal)
    case None =>
      FindSpec(s, Literal);
      PiecesSingle(s, lib);
    case Some(i) =>
      assert Scan(s, lib) == ScanAt(s, i, lib);
      var j := Find(s[i..], ")").value;
      LiteralSplit(s, i, j);
      var t, arg, rest := s[..i], s[i + |Literal|..i + j], s[i + j + 1..];
      ScanAtLiteral(t, arg, rest, lib);
      var ms := ParseI64(arg).value;
      var utc := lib.localToUtc(TruncDiv(ms, 1000)).value;
      ScanSound(rest, lib);
      PiecesCons(t, arg, utc, Scan(rest, lib).value, lib);
  }

  /** Conversely, the scan of well-formed pieces put together recovers them. */
  lemma {:induction false} UnparseScan(ps: seq<Piece>, lib: TimeLib)
    requires WellFormed(ps, lib)
    ensures Scan(Unparse(ps), lib) == Ok(ps)
    decreases |ps|
  {
    var t := ps[0].text;
    if |ps| == 1 {
      PiecesSingle(t, lib);
      FindSpec(t, Literal);
      assert ps == [Text(t)];
    } else {
      var arg, utc, rest := ps[1].arg, ps[1].utc, ps[2..];
      assert ps == [Text(t), Date(arg, utc)] + rest;
      PiecesCons(t, arg, utc, rest, lib);
      ParsedArgumentIsPlain(arg);
      ScanAtLiteral(t, arg, Unparse(rest), lib);
      UnparseScan(rest, lib);
    }
  }

  /** `fix_new_date` succeeds with `out` exactly when its input is text
      without literals and well-formed literals in alternation, and `out` is
      that text with every literal replaced by its quoted UTC instant. */
  lemma RepairSplices(s: string, out: string, lib: TimeLib)
    ensures Repair(s, lib) == Ok(out) <==>
      exists ps :: WellFormed(ps, lib) && Unparse(ps) == s && Render(ps, lib) == out
  {
    if Repair(s, lib) == Ok(out) {
      ScanSound(s, lib);
      var ps := Scan(s, lib).value;
      assert WellFormed(ps, lib) && Unparse(ps) == s && Render(ps, lib) == out;
    }
    if ps :| WellFormed(ps, lib) && Unparse(ps) == s && Render(ps, lib) == out {
      UnparseScan(ps, lib);
    }
  }

  /** Text without a literal is returned unchanged. */
  lemma LiteralFreeUnchanged(s: string, lib: TimeLib)
    requires !Contains(s, Literal)
    ensures Repair(s, lib) == Ok(s)
  {
    FindSpec(s, Literal);
    RepairWithoutLiteral(s, lib);
  }

  /** The text before a literal is copied, the literal up to the first `)`
      becomes the quoted UTC instant, and the repair goes on right after
      that `)`. */
  lemma LiteralReplaced(t: string, arg: string, rest: string, utc: int, lib: TimeLib)
    requires !Contains(t, Literal) && ')' !in arg && ValidDate(arg, utc, lib)
    ensures Repair(t + Literal + arg + ")" + rest, lib) == Concat(Ok(t + Quoted(utc, lib)), Repair(rest, lib))
  {
    ScanAtLiteral(t, arg, rest, lib);
    RenderTextDate(t, arg, utc, Scan(rest, lib), lib);
  }

  /** A literal with no `)` after it fails the whole repair. */
  lemma UnterminatedLiteral(t: string, rest: string, lib: TimeLib)
    requires !Contains(t, Literal) && ')' !in rest
    ensures Repair(t + Literal + rest, lib) == Err(MissingParen)
  {
    var s := t + Literal + rest;
    assert s == t + Literal + rest + "";
    assert forall d :: 1 <= d < |Literal| ==> Literal[d] != Literal[0];
    FindAfterPlainText(t, Literal, rest);
    assert s[|t|..] == Literal + rest;
    assert ')' !in Literal + rest;
    AbsentCharNotContained(Literal + rest, ')');
    FindSpec(Literal + rest, ")");
    assert Scan(s, lib) == ScanAt(s, |t|, lib);
  }

  /** An argument that is not an `i64` fails the whole repair. */
  lemma NonIntegerArgument(t: string, arg: string, rest: string, lib: TimeLib)
    requires !Contains(t, Literal) && ')' !in arg && ParseI64(arg).None?
    ensures Repair(t + Literal + arg + ")" + rest, lib) == Err(BadInteger(arg))
  {
    ScanAtLiteral(t, arg, rest, lib);
  }

  /** The argument is read as milliseconds and truncated toward zero to
      seconds; a wall-clock second with no unique UTC instant fails the
      whole repair. */
  lemma NoLocalTimeFails(t: string, arg: string, rest: string, ms: int, lib: TimeLib)
    requires !Contains(t, Literal) && ')' !in arg && ParseI64(arg) == Some(ms)
    requires lib.localToUtc(TruncDiv(ms, 1000)).None?
    ensures Repair(t + Literal + arg + ")" + rest, lib) == Err(NoLocalTime(TruncDiv(ms, 1000)))
  {
    ScanAtLiteral(t, arg, rest, lib);
  }

  /** The non-overlapping occurrences of `new Date(`, found left to right. */
  function Occurrences(s: string): nat
    decreases |s|
  {
    match Find(s, Literal)
    case None => 0
    case Some(i) => 1 + Occurrences(s[i + |Literal|..])
  }

  /** Skipping a prefix in which no occurrence starts loses no occurrence. */
  lemma OccurrencesSkip(u: string, m: nat)
    requires m <= |u|
    requires forall k :: 0 <= k < m ==> !OccursAt(u, Literal, k)
    ensures Occurrences(u) == Occurrences(u[m..])
  {
    FindSkip(u, Literal, m);
    OccurrencesShift(u, m);
  }

  lemma OccurrencesShift(u: string, m: nat)
    requires m <= |u|
    requires Find(u, Literal).Some? <==> Find(u[m..], Literal).Some?
    requires Find(u, Literal).Some? ==> Find(u, Literal).value == m + Find(u[m..], Literal).value
    ensures Occurrences(u) == Occurrences(u[m..])
  {
    var v := u[m..];
    match Find(u, Literal)
    case None =>
    case Some(a) =>
      var b := Find(v, Literal).value;
      assert a + |Literal| <= |u| by {
        FindSpec(u, Literal);
      }
      assert v[b + |Literal|..] == u[a + |Literal|..];
      assert Occurrences(v) == 1 + Occurrences(v[b + |Literal|..]);
  }

  /** A literal whose argument holds no `n` and no `)` is one occurrence,
      and the next one can only start after its `)`. */
  lemma OccurrencesAfterLiteral(t: string, arg: string, rest: string)
    requires !Contains(t, Literal) && ')' !in arg && 'n' !in arg
    ensures Occurrences(t + Literal + arg + ")" + rest) == 1 + Occurrences(rest)
  {
    LiteralAt(t, arg, rest);
    var s := t + Literal + arg + ")" + rest;
    var u := s[|t| + |Literal|..];
    assert u == arg + ")" + rest;
    forall k | 0 <= k <= |arg|
      ensures !OccursAt(u, Literal, k)
    {
      if k + |Literal| <= |u| {
        assert u[k..k + |Literal|][0] == u[k] != 'n';
      }
    }
    OccurrencesSkip(u, |arg| + 1);
    assert u[|arg| + 1..] == rest;
  }

  /** Well-formed pieces hold one literal per occurrence of `new Date(`. */
  lemma {:induction false} DateCountOccurrences(ps: seq<Piece>, lib: TimeLib)
    requires WellFormed(ps, lib)
    ensures DateCount(ps) == Occurrences(Unparse(ps))
    decreases |ps|
  {
    var t := ps[0].text;
    if |ps| == 1 {
      PiecesSingle(t, lib);
      FindSpec(t, Literal);
      assert ps == [Text(t)];
    } else {
      var arg, utc, rest := ps[1].arg, ps[1].utc, ps[2..];
      assert ps == [Text(t), Date(arg, utc)] + rest;
      PiecesCons(t, arg, utc, rest, lib);
      ParsedArgumentIsPlain(arg);
      OccurrencesAfterLiteral(t, arg, Unparse(rest));
      DateCountOccurrences(rest, lib);
    }
  }

  /** Every successful repair replaces exactly as many literals as there
      are non-overlapping occurrences of `new Date(`. */
  lemma RepairCount(s: string, lib: TimeLib)
    requires Scan(s, lib).Ok?
    ensures DateCount(Scan(s, lib).value) == Occurrences(s)
  {
    ScanSound(s, lib);
    DateCountOccurrences(Scan(s, lib).value, lib);
  }

  /** The source loop: a cursor `index1` into `buf` and a growing result. */
  method FixNewDate(buf: string, lib: TimeLib) returns (r: Result<string, RepairError>)
    ensures r == Repair(buf, lib)
  {
    var index1 := 0;
    var result := "";
    RepairFromStart(buf, lib);
    while true
      invariant index1 <= |buf|
      invariant Repair(buf, lib) == Concat(Ok(result), Repair(buf[index1..], lib))
      decreases |buf| - index1
    {
      var found := Find(buf[index1..], Literal);
      if found.None? {
        RepairWithoutLiteral(buf[index1..], lib);
        result := result + buf[index1..];
        break;
      }
      var index2 := index1 + found.value;
      var converted := ConvertLiteral(buf, index1, index2, lib);
      if converted.Err? {
        return Err(converted.error);
      }
      var (quoted, end) := converted.value;
      var emitted := buf[index1..index2] + quoted;
      ConcatAssoc(Ok(result), Ok(emitted), Repair(buf[end + 1..], lib));
      result := result + emitted;
      index1 := end + 1;
    }
    r := Ok(result);
  }

  /** One turn of the loop, at the literal that starts at `index2`: the
      closing `)`, the argument, its value and its UTC instant, giving the
      quoted replacement and the index `end` of the `)`.  Its outcome is the
      outcome of the whole repair of `buf[index1..]`, or the text and the
      resume point that it continues with. */
  method ConvertLiteral(buf: string, index1: nat, index2: nat, lib: TimeLib)
    returns (r: Result<(string, nat), RepairError>)
    requires index1 <= index2 && index1 <= |buf| && Find(buf[index1..], Literal) == Some(index2 - index1)
    ensures r.Err? ==> Repair(buf[index1..], lib) == Err(r.error)
    ensures r.Ok? ==> index2 <= r.value.1 < |buf|
    ensures r.Ok? ==>
      Repair(buf[index1..], lib) == Concat(Ok(buf[index1..index2] + r.value.0), Repair(buf[r.value.1 + 1..], lib))
  {
    var close := Find(buf[index2..], ")");
    if close.None? {
      MissingParenAt(buf, index1, index2, lib);
      return Err(MissingParen);
    }
    var end := index2 + close.value;
    LiteralBeforeParen(buf, index1, index2, end);
    var dateStr := buf[index2 + |Literal|..end];
    var dateInt := ParseI64(dateStr);
    if dateInt.None? {
      BadIntegerAt(buf, index1, index2, end, lib);
      return Err(BadInteger(dateStr));
    }
    var local := TruncDiv(dateInt.value, 1000);
    var utc := lib.localToUtc(local);
    if utc.None? {
      NoLocalTimeAt(buf, index1, index2, end, dateInt.value, lib);
      return Err(NoLocalTime(local));
    }
    StepAtLiteral(buf, index1, index2, end, dateInt.value, utc.value, lib);
    r := Ok((Quoted(utc.value, lib), end));
  }

  lemma RepairFromStart(buf: string, lib: TimeLib)
    ensures Repair(buf, lib) == Concat(Ok(""), Repair(buf[0..], lib))
  {
    assert buf[0..] == buf;
    ConcatEmpty(Repair(buf, lib));
  }

  /** The positions of one literal as the loop holds them: the scan resumed
      at `index1`, the literal starts at `index2` and its `)` is at `end`. */
  predicate LiteralSpan(buf: string, index1: nat, index2: nat, end: nat)
  {
    && index1 <= index2 <= end < |buf|
    && Find(buf[index1..], Literal) == Some(index2 - index1)
    && Find(buf[index2..], ")") == Some(end - index2)
  }

  /** The loop's `index2 + 9 <= end`: the slice of the argument is in order. */
  lemma LiteralBeforeParen(buf: string, index1: nat, index2: nat, end: nat)
    requires LiteralSpan(buf, index1, index2, end)
    ensures index2 + |Literal| <= end
  {
    assert buf[index1..][index2 - index1..] == buf[index2..];
    ParenAfterLiteral(buf[index1..], index2 - index1, end - index2);
  }

  /** The slices of the loop's indices, seen from the suffix that the scan
      resumed on. */
  lemma LiteralSlices(buf: string, index1: nat, index2: nat, end: nat)
    requires index1 <= index2 && index2 + |Literal| <= end < |buf|
    ensures var s, i, j := buf[index1..], index2 - index1, end - index2;
      && s[i..] == buf[index2..]
      && s[i + |Literal|..i + j] == buf[index2 + |Literal|..end]
      && s[..i] == buf[index1..index2]
      && s[i + j + 1..] == buf[end + 1..]
  {
  }

  /** One turn of the loop on a well-formed literal, in the loop's own
      indices: the text before the literal and the quoted timestamp are
      emitted, and the repair resumes just after the closing parenthesis. */
  lemma StepAtLiteral(buf: string, index1: nat, index2: nat, end: nat, ms: int, utc: int, lib: TimeLib)
    requires LiteralSpan(buf, index1, index2, end) && index2 + |Literal| <= end
    requires ParseI64(buf[index2 + |Literal|..end]) == Some(ms)
    requires lib.localToUtc(TruncDiv(ms, 1000)) == Some(utc)
    ensures Repair(buf[index1..], lib) == Concat(Ok(buf[index1..index2] + Quoted(utc, lib)), Repair(buf[end + 1..], lib))
  {
    LiteralSlices(buf, index1, index2, end);
    var s, i, j := buf[index1..], index2 - index1, end - index2;
    RepairAtLiteral(s, i, j, ms, utc, lib);
  }

  lemma RepairAtLiteral(s: string, i: nat, j: nat, ms: int, utc: int, lib: TimeLib)
    requires Find(s, Literal) == Some(i)
    requires i <= |s| && Find(s[i..], ")") == Some(j)
    requires |Literal| <= j
    requires ParseI64(s[i + |Literal|..i + j]) == Some(ms)
    requires lib.localToUtc(TruncDiv(ms, 1000)) == Some(utc)
    ensures Repair(s, lib) == Concat(Ok(s[..i] + Quoted(utc, lib)), Repair(s[i + j + 1..], lib))
  {
    assert Scan(s, lib) == ScanAt(s, i, lib) == ScanLiteral(s, i, j, lib);
    RenderTextDate(s[..i], s[i + |Literal|..i + j], utc, Scan(s[i + j + 1..], lib), lib);
  }

  /** The loop's three early returns, in the loop's own indices: the
      error raised at the first literal is the whole outcome. */
  lemma MissingParenAt(buf: string, index1: nat, index2: nat, lib: TimeLib)
    requires index1 <= index2 <= |buf| && Find(buf[index1..], Literal) == Some(index2 - index1)
    requires Find(buf[index2..], ")").None?
    ensures Repair(buf[index1..], lib) == Err(MissingParen)
  {
    var s, i := buf[index1..], index2 - index1;
    assert s[i..] == buf[index2..];
    assert Scan(s, lib) == ScanAt(s, i, lib);
  }

  lemma BadIntegerAt(buf: string, index1: nat, index2: nat, end: nat, lib: TimeLib)
    requires LiteralSpan(buf, index1, index2, end) && index2 + |Literal| <= end
    requires ParseI64(buf[index2 + |Literal|..end]).None?
    ensures Repair(buf[index1..], lib) == Err(BadInteger(buf[index2 + |Literal|..end]))
  {
    LiteralSlices(buf, index1, index2, end);
    var s, i, j := buf[index1..], index2 - index1, end - index2;
    assert Scan(s, lib) == ScanAt(s, i, lib) == ScanLiteral(s, i, j, lib);
  }

  lemma NoLocalTimeAt(buf: string, index1: nat, index2: nat, end: nat, ms: int, lib: TimeLib)
    requires LiteralSpan(buf, index1, index2, end) && index2 + |Literal| <= end
    requires ParseI64(buf[index2 + |Literal|..end]) == Some(ms)
    requires lib.localToUtc(TruncDiv(ms, 1000)).None?
    ensures Repair(buf[index1..], lib) == Err(NoLocalTime(TruncDiv(ms, 1000)))
  {
    LiteralSlices(buf, index1, index2, end);
    var s, i, j := buf[index1..], index2 - index1, end - index2;
    assert Scan(s, lib) == ScanAt(s, i, lib) == ScanLiteral(s, i, j, lib);
  }

  /** Text in which `find` sees no literal is copied unchanged. */
  lemma RepairWithoutLiteral(s: string, lib: TimeLib)
    requires Find(s, Literal).None?
    ensures Repair(s, lib) == Ok(s)
  {
    var ps := [Text(s)];
    assert Scan(s, lib) == Ok(ps);
    assert ps[1..] == [];
    assert Render(ps, lib) == s + Render(ps[1..], lib) == s + "" == s;
  }

  lemma RenderTextDate(text: string, arg: string, utc: int, rest: Result<seq<Piece>, RepairError>, lib: TimeLib)
    ensures RenderResult(Concat(Ok([Text(text), Date(arg, utc)]), rest), lib)
         == Concat(Ok(text + Quoted(utc, lib)), RenderResult(rest, lib))
  {
    if rest.Ok? {
      var ps := [Text(text), Date(arg, utc)] + rest.value;
      assert ps[1..][1..] == rest.value;
      calc {
        Render(ps, lib);
        text + Render(ps[1..], lib);
        text + (Quoted(utc, lib) + Render(rest.value, lib));
        (text + Quoted(utc, lib)) + Render(rest.value, lib);
      }
    }
  }
}
