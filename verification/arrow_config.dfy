/** The initializer of the Arrow file writer: the output path template and
    its expansion when a file is opened, the parameter hash, the schema
    definition string and the assignment of an Arrow type to each field. */
module ArrowConfig {
  import opened Common
  import opened ArrowValues

  // ------------------------------------------------------------------
  // trim_cstring and strtok_r
  // ------------------------------------------------------------------

  /** The number of white-space characters `s` starts with. */
  function LeadingSpaces(s: string): (n: nat)
    ensures n <= |s|
    ensures forall k :: 0 <= k < n ==> IsSpace(s[k])
    ensures n < |s| ==> !IsSpace(s[n])
  {
    if s == [] || !IsSpace(s[0]) then 0 else 1 + LeadingSpaces(s[1..])
  }

  /** The number of white-space characters `s` ends with. */
  function TrailingSpaces(s: string): (n: nat)
    ensures n <= |s|
    ensures forall k :: |s| - n <= k < |s| ==> IsSpace(s[k])
    ensures n < |s| ==> !IsSpace(s[|s| - 1 - n])
  {
    if s == [] || !IsSpace(s[|s| - 1]) then 0 else 1 + TrailingSpaces(s[..|s| - 1])
  }

  predicate AllSpace(s: string)
  {
    forall k :: 0 <= k < |s| ==> IsSpace(s[k])
  }

  /** Neither end is white space. */
  predicate Trimmed(s: string)
  {
    s == [] || (!IsSpace(s[0]) && !IsSpace(s[|s| - 1]))
  }

  /** `trim_cstring`: drops white space from both ends. */
  function Trim(s: string): (r: string)
    ensures Trimmed(r)
  {
    var t := s[LeadingSpaces(s)..];
    t[..|t| - TrailingSpaces(t)]
  }

  /** Trimming undoes any white-space padding of a trimmed string. */
  lemma TrimPadded(pre: string, core: string, post: string)
    requires AllSpace(pre) && AllSpace(post) && Trimmed(core)
    ensures Trim(pre + core + post) == core
  {
    var s := pre + core + post;
    var n := LeadingSpaces(s);
    if core == [] {
      assert AllSpace(s) by {
        forall k | 0 <= k < |s| ensures IsSpace(s[k]) {
          if k >= |pre| { assert s[k] == post[k - |pre|]; }
        }
      }
      assert n == |s|;
    } else {
      assert s[|pre|] == core[0];
      assert n == |pre|;
      var t := s[n..];
      assert t == core + post;
      var m := TrailingSpaces(t);
      assert t[|core| - 1] == core[|core| - 1];
      assert m == |post|;
      assert t[..|t| - m] == core;
    }
  }

  lemma TrimIdempotent(s: string)
    ensures Trim(Trim(s)) == Trim(s)
  {
    TrimPadded([], Trim(s), []);
    assert [] + Trim(s) + [] == Trim(s);
  }

  /** `strtok_r` with a single delimiter: the non-empty pieces between
      delimiters, in order. */
  function Tokens(s: string, d: char): (ts: seq<string>)
    ensures forall k :: 0 <= k < |ts| ==> ts[k] != [] && d !in ts[k]
    decreases |s|
  {
    if s == [] then []
    else if s[0] == d then Tokens(s[1..], d)
    else match IndexOf(s, d)
      case None => [s]
      case Some(n) => [s[..n]] + Tokens(s[n + 1..], d)
  }

  /** The pieces separated by single delimiters. */
  function Join(ts: seq<string>, d: char): string
  {
    if ts == [] then []
    else if |ts| == 1 then ts[0]
    else ts[0] + [d] + Join(ts[1..], d)
  }

  predicate Token(t: string, d: char)
  {
    t != [] && d !in t
  }

  /** Splitting the joined pieces gives them back. */
  lemma {:induction false} TokensJoin(ts: seq<string>, d: char)
    requires forall k :: 0 <= k < |ts| ==> Token(ts[k], d)
    ensures Tokens(Join(ts, d), d) == ts
    decreases |ts|
  {
    if |ts| == 1 {
      assert Token(ts[0], d);
      assert IndexOf(ts[0], d).None?;
    } else if |ts| > 1 {
      assert Token(ts[0], d);
      var s := Join(ts, d);
      var n := |ts[0]|;
      assert s == ts[0] + ([d] + Join(ts[1..], d));
      assert s[..n] == ts[0];
      assert s[n] == d;
      assert s[0] == ts[0][0];
      assert d !in s[..n];
      assert IndexOf(s, d) == Some(n);
      assert s[n + 1..] == Join(ts[1..], d);
      TokensJoin(ts[1..], d);
    }
  }

  // ------------------------------------------------------------------
  // __arrowFilePathnameValidator and the expansion in arrowFileOpen
  // ------------------------------------------------------------------

  /** Characters accepted after `%` in the path template. */
  const DIRECTIVES: set<char> := {'Y', 'y', 'm', 'd', 'H', 'M', 'S', 'p', 'q'}

  /** Characters `arrowFileOpen` knows how to expand: all but the sequence
      number `%q`. */
  const EXPANDABLE: set<char> := DIRECTIVES - {'q'}

  /** Every `%` is followed by one of `allowed`. */
  predicate DirectivesIn(s: string, allowed: set<char>)
  {
    forall k :: 0 <= k < |s| && s[k] == '%' ==> k + 1 < |s| && s[k + 1] in allowed
  }

  /** The loop of `__arrowFilePathnameValidator` over a directive set that
      does not hold `%` itself. */
  method ValidateTemplate(s: string, allowed: set<char>) returns (r: Result<string>)
    requires '%' !in allowed
    ensures r.Ok? <==> s != [] && s[0] == '/' && DirectivesIn(s, allowed)
    ensures r.Ok? ==> r.value == s
  {
    if |s| == 0 {
      return Err("pathname must not be empty");
    }
    if s[0] != '/' {
      return Err("pathname must be absolute path");
    }
    var i := 0;
    while i < |s|
      invariant 0 <= i <= |s|
      invariant forall k :: 0 <= k < i && s[k] == '%' ==> k + 1 < i && s[k + 1] in allowed
    {
      if s[i] == '%' {
        i := i + 1;
        if i >= |s| {
          return Err("invalid pathname configuration");
        }
        if s[i] !in allowed {
          return Err("unknown format character");
        }
      }
      i := i + 1;
    }
    return Ok(s);
  }

  /** `__arrowFilePathnameValidator` as written: every `%` introduces one of
      `YymdHMSpq`, although the expansion knows no `%q`. */
  method ValidatePathnameAsWritten(s: string) returns (r: Result<string>)
    ensures r.Ok? <==> s != [] && s[0] == '/' && DirectivesIn(s, DIRECTIVES)
    ensures r.Ok? ==> r.value == s
  {
    r := ValidateTemplate(s, DIRECTIVES);
  }

  /** The validator with the evident intent: it accepts exactly the
      directives `arrowFileOpen` expands, so an accepted path always
      expands. */
  method ValidatePathname(s: string) returns (r: Result<string>)
    ensures r.Ok? <==> s != [] && s[0] == '/' && DirectivesIn(s, EXPANDABLE)
    ensures r.Ok? ==> r.value == s
    ensures r.Ok? ==> forall tm: Tm, pid: nat :: Expand(s, tm, pid).Ok?
  {
    r := ValidateTemplate(s, EXPANDABLE);
  }

  /** The `struct tm` fields the expansion reads: years since 1900 and a
      zero-based month, as `localtime_r` gives them. */
  datatype Tm = Tm(year: nat, mon: nat, mday: nat, hour: nat, min: nat, sec: nat)

  function Zeros(n: nat): (r: string)
    ensures |r| == n && forall k :: 0 <= k < n ==> r[k] == '0'
  {
    if n == 0 then [] else Zeros(n - 1) + ['0']
  }

  /** `%0<width>u`: the decimal digits, zero-padded on the left to at least
      `width` characters. */
  function PadDecimal(n: nat, width: nat): (r: string)
    ensures |r| >= width && |r| >= 1
    ensures forall k :: 0 <= k < |r| ==> IsDigit(r[k])
    ensures ParseDigits(r) == n
    ensures |r| == (if |DigitLoop(n)| >= width then |DigitLoop(n)| else width)
    ensures |r| > width && |r| > 1 ==> r[0] != '0'
  {
    DigitLoopDigits(n);
    var d := DigitLoop(n);
    if |d| >= width then d
    else
      ParseDigitsZeros(width - |d|, d);
      Zeros(width - |d|) + d
  }

  /** Leading zeros do not change the value of a digit string. */
  lemma {:induction false} ParseDigitsZeros(m: nat, d: string)
    requires forall k :: 0 <= k < |d| ==> IsDigit(d[k])
    ensures forall k :: 0 <= k < |Zeros(m) + d| ==> IsDigit((Zeros(m) + d)[k])
    ensures ParseDigits(Zeros(m) + d) == ParseDigits(d)
    decreases |d| + m
  {
    var s := Zeros(m) + d;
    if d == [] {
      assert s == Zeros(m);
      if m > 0 {
        assert s[..|s| - 1] == Zeros(m - 1) + [];
        ParseDigitsZeros(m - 1, []);
      }
    } else {
      assert s[..|s| - 1] == Zeros(m) + d[..|d| - 1];
      ParseDigitsZeros(m, d[..|d| - 1]);
    }
  }

  /** The text one directive expands to. */
  function DirectiveText(c: char, tm: Tm, pid: nat): string
    requires c in EXPANDABLE
  {
    match c
    case 'Y' => PadDecimal(tm.year + 1900, 4)
    case 'y' => PadDecimal(tm.year % 100, 2)
    case 'm' => PadDecimal(tm.mon + 1, 2)
    case 'd' => PadDecimal(tm.mday, 2)
    case 'H' => PadDecimal(tm.hour, 2)
    case 'M' => PadDecimal(tm.min, 2)
    case 'S' => PadDecimal(tm.sec, 2)
    case 'p' => PadDecimal(pid, 0)
  }

  /** How `DirectivesIn` unfolds over the first character, and over a
      leading directive when `%` is not itself allowed. */
  lemma DirectivesStep(s: string, allowed: set<char>)
    requires s != []
    ensures s[0] != '%' ==> (DirectivesIn(s, allowed) <==> DirectivesIn(s[1..], allowed))
    ensures s[0] == '%' && '%' !in allowed ==>
      (DirectivesIn(s, allowed) <==> |s| >= 2 && s[1] in allowed && DirectivesIn(s[2..], allowed))
  {
    if s[0] != '%' && DirectivesIn(s[1..], allowed) {
      forall k | 0 <= k < |s| && s[k] == '%' ensures k + 1 < |s| && s[k + 1] in allowed {
        assert s[1..][k - 1] == s[k];
      }
    }
    if s[0] == '%' && '%' !in allowed && |s| >= 2 && s[1] in allowed && DirectivesIn(s[2..], allowed) {
      forall k | 0 <= k < |s| && s[k] == '%' ensures k + 1 < |s| && s[k + 1] in allowed {
        if k >= 2 {
          assert s[2..][k - 2] == s[k];
        }
      }
    }
  }

  /** The expansion loop of `arrowFileOpen`: every directive is replaced
      by its text; `%q`, an unknown directive or a trailing `%` raises. */
  function Expand(s: string, tm: Tm, pid: nat): (r: Result<string>)
    ensures r.Ok? <==> DirectivesIn(s, EXPANDABLE)
    ensures '%' !in s ==> r == Ok(s)
    decreases |s|
  {
    if s == [] then Ok([])
    else if s[0] != '%' then
      DirectivesStep(s, EXPANDABLE);
      assert s == [s[0]] + s[1..];
      match Expand(s[1..], tm, pid)
      case Ok(t) => Ok([s[0]] + t)
      case Err(e) => Err(e)
    else
      DirectivesStep(s, EXPANDABLE);
      if |s| < 2 then Err("unclosed format character")
      else if s[1] !in EXPANDABLE then Err("unknown format character")
      else match Expand(s[2..], tm, pid)
        case Ok(t) => Ok(DirectiveText(s[1], tm, pid) + t)
        case Err(e) => Err(e)
  }

  /** `p` written before a successful expansion; an error passes through. */
  function Prepend(p: string, r: Result<string>): (q: Result<string>)
    ensures q.Ok? <==> r.Ok?
    ensures q.Err? ==> q == r
  {
    match r
    case Ok(t) => Ok(p + t)
    case Err(e) => Err(e)
  }

  lemma PrependTwice(p: string, x: string, r: Result<string>)
    ensures Prepend(p, Prepend(x, r)) == Prepend(p + x, r)
  {
    if r.Ok? {
      assert p + (x + r.value) == (p + x) + r.value;
    }
  }

  /** One unfolding of `Expand` over its leading unit. */
  lemma ExpandFirst(s: string, tm: Tm, pid: nat)
    requires s != []
    ensures s[0] != '%' ==> Expand(s, tm, pid) == Prepend([s[0]], Expand(s[1..], tm, pid))
    ensures s[0] == '%' && |s| >= 2 && s[1] in EXPANDABLE ==>
      Expand(s, tm, pid) == Prepend(DirectiveText(s[1], tm, pid), Expand(s[2..], tm, pid))
  {
  }

  /** Expansion works unit by unit: an expandable prefix expands on its
      own and the rest of the path is expanded after it, with the rest's
      error when it has one. */
  lemma {:induction false} ExpandAppend(a: string, b: string, tm: Tm, pid: nat)
    requires Expand(a, tm, pid).Ok?
    ensures Expand(a + b, tm, pid) == Prepend(Expand(a, tm, pid).value, Expand(b, tm, pid))
    decreases |a|
  {
    var s := a + b;
    if a == [] {
      assert s == b;
      if Expand(b, tm, pid).Ok? {
        assert [] + Expand(b, tm, pid).value == Expand(b, tm, pid).value;
      }
    } else if a[0] != '%' {
      assert s[0] == a[0] && s[1..] == a[1..] + b;
      ExpandFirst(a, tm, pid);
      ExpandFirst(s, tm, pid);
      ExpandAppend(a[1..], b, tm, pid);
      PrependTwice([a[0]], Expand(a[1..], tm, pid).value, Expand(b, tm, pid));
    } else {
      DirectivesStep(a, EXPANDABLE);
      assert |a| >= 2 && a[1] in EXPANDABLE;
      assert s[0] == '%' && s[1] == a[1] && s[2..] == a[2..] + b;
      ExpandFirst(a, tm, pid);
      ExpandFirst(s, tm, pid);
      ExpandAppend(a[2..], b, tm, pid);
      PrependTwice(DirectiveText(a[1], tm, pid), Expand(a[2..], tm, pid).value, Expand(b, tm, pid));
    }
  }

  /** The units of a path: a plain character copies itself, `%` with an
      expandable character gives that directive's text, and `%` with
      anything else, or at the end, is an error. */
  lemma ExpandUnit(c: char, tm: Tm, pid: nat)
    ensures c != '%' ==> Expand([c], tm, pid) == Ok([c])
    ensures c in EXPANDABLE ==> Expand(['%', c], tm, pid) == Ok(DirectiveText(c, tm, pid))
    ensures c !in EXPANDABLE ==> Expand(['%', c], tm, pid).Err?
    ensures Expand(['%'], tm, pid).Err?
  {
    assert ['%', c][2..] == [];
    if c in EXPANDABLE {
      assert Expand([], tm, pid) == Ok([]);
      assert DirectiveText(c, tm, pid) + [] == DirectiveText(c, tm, pid);
    }
  }

  /** A path the validator accepted expands unless it asks for the
      sequence number. */
  lemma ValidPathExpands(s: string, tm: Tm, pid: nat)
    requires DirectivesIn(s, DIRECTIVES)
    ensures Expand(s, tm, pid).Ok? <==>
      !(exists k :: 0 <= k < |s| - 1 && s[k] == '%' && s[k + 1] == 'q')
  {
    if !Expand(s, tm, pid).Ok? {
      var k :| 0 <= k < |s| && s[k] == '%' && !(k + 1 < |s| && s[k + 1] in EXPANDABLE);
      assert s[k + 1] == 'q';
    }
  }

  // ------------------------------------------------------------------
  // __arrowFileParseParams
  // ------------------------------------------------------------------

  /** What `rb_hash_fetch` finds under one key: no entry (it raises
      `KeyError`), an entry holding `nil`, or an entry holding a value. */
  datatype Entry<T> = Absent | NilEntry | Given(value: T)

  /** The parameter argument: `nil`, something other than a Hash, or a Hash
      seen through its four keys. Column names are taken after `to_s`. */
  datatype ParamsArg =
    | NilParams
    | NotAHash
    | HashParams(tsColumn: Entry<string>, tagColumn: Entry<string>,
                 recordBatchThreshold: Entry<int>, filesizeThreshold: Entry<int>)

  /** The stored thresholds, in bytes, and the column names that were set. */
  datatype Params = Params(recordBatchThreshold: nat, filesizeThreshold: nat,
                           tsColumn: Option<string>, tagColumn: Option<string>)

  const RECORD_BATCH_DEFAULT: nat := 240
  const RECORD_BATCH_MAX: nat := 2048
  const FILESIZE_DEFAULT: nat := 10000
  const FILESIZE_MAX: nat := 1048576
  const THRESHOLD_MIN: nat := 16
  /** The thresholds are given in megabytes and stored shifted left by 20. */
  const MB: nat := 0x10_0000

  /** One column-name key: a missing key raises, `nil` leaves it unset. */
  function ColumnEntry(e: Entry<string>): Result<Option<string>>
  {
    match e
    case Absent => Err("key not found")
    case NilEntry => Ok(None)
    case Given(v) => Ok(Some(v))
  }

  /** One threshold key: a missing key raises, `nil` keeps the default;
      otherwise `NUM2LONG` (which raises outside `long`), stored into a
      `size_t`, then range-checked. */
  function Threshold(e: Entry<int>, dflt: nat, hi: nat): Result<nat>
  {
    match e
    case Absent => Err("key not found")
    case NilEntry => Ok(dflt)
    case Given(v) =>
      if !IsInt64(v) then Err("integer out of range of long")
      else
        var t := WrapU(v, 64);
        if t < THRESHOLD_MIN || t > hi then Err("threshold out of range") else Ok(t)
  }

  /** The key is present and holds `nil` or a value in `[lo, hi]`. */
  predicate InRange(e: Entry<int>, lo: int, hi: int)
  {
    e.NilEntry? || (e.Given? && lo <= e.value <= hi)
  }

  function ValueOr(e: Entry<int>, dflt: int): int
  {
    if e.Given? then e.value else dflt
  }

  function NameOf(e: Entry<string>): Option<string>
  {
    if e.Given? then Some(e.value) else None
  }

  /** `__arrowFileParseParams`. A negative value, read as `size_t`, is too
      large, so the accepted values are exactly the in-range ones. */
  function ParseParams(arg: ParamsArg): (r: Result<Params>)
    ensures r.Ok? <==> (arg.NilParams? ||
      (arg.HashParams? && !arg.tsColumn.Absent? && !arg.tagColumn.Absent?
                       && InRange(arg.recordBatchThreshold, THRESHOLD_MIN, RECORD_BATCH_MAX)
                       && InRange(arg.filesizeThreshold, THRESHOLD_MIN, FILESIZE_MAX)))
    ensures r.Ok? && arg.NilParams? ==>
      r.value == Params(RECORD_BATCH_DEFAULT * MB, FILESIZE_DEFAULT * MB, None, None)
    ensures r.Ok? && arg.HashParams? ==>
      && r.value.recordBatchThreshold == ValueOr(arg.recordBatchThreshold, RECORD_BATCH_DEFAULT) * MB
      && r.value.filesizeThreshold == ValueOr(arg.filesizeThreshold, FILESIZE_DEFAULT) * MB
      && r.value.tsColumn == NameOf(arg.tsColumn)
      && r.value.tagColumn == NameOf(arg.tagColumn)
  {
    match arg
    case NilParams => Ok(Params(RECORD_BATCH_DEFAULT * MB, FILESIZE_DEFAULT * MB, None, None))
    case NotAHash => Err("parameters must be Hash")
    case HashParams(ts, tag, rb, fs) =>
      match ColumnEntry(ts)
      case Err(e) => Err(e)
      case Ok(tsName) =>
        match ColumnEntry(tag)
        case Err(e) => Err(e)
        case Ok(tagName) =>
          match Threshold(rb, RECORD_BATCH_DEFAULT, RECORD_BATCH_MAX)
          case Err(e) => Err(e)
          case Ok(r) =>
            match Threshold(fs, FILESIZE_DEFAULT, FILESIZE_MAX)
            case Err(e) => Err(e)
            case Ok(f) => Ok(Params(r * MB, f * MB, tsName, tagName))
  }

  // ------------------------------------------------------------------
  // __assignFieldType* and __arrowFileAssignFieldType
  // ------------------------------------------------------------------

  datatype Precision = Half | Single | Double
  datatype DateUnit = DayUnit | MilliSecondUnit

  /** The Arrow types a field can be given. */
  datatype ArrowType =
    | ABool
    | AInt(signed: bool, bitWidth: nat)
    | AFloat(precision: Precision)
    | ADecimal(decPrecision: nat, scale: nat, decWidth: nat)
    | ADate(dateUnit: DateUnit)
    | ATime(timeUnit: Unit, timeWidth: nat)
    | ATimestamp(tsUnit: Unit, timezone: Option<string>)
    | AUtf8
    | AFixedSizeBinary(byteWidth: nat)

  const DECIMAL_WIDTH: nat := 128
  const DECIMAL_DEFAULT_PRECISION: nat := 30
  const DECIMAL_DEFAULT_SCALE: nat := 8
  const IP4ADDR_LEN: nat := 4
  const IP6ADDR_LEN: nat := 16
  /** The custom metadata value of the `pg_type` key of address columns. */
  const INET_PG_TYPE: string := "pg_catalog.inet"

  /** The number of decimal digits `s` starts with. */
  function LeadingDigits(s: string): (n: nat)
    ensures n <= |s|
    ensures forall k :: 0 <= k < n ==> IsDigit(s[k])
    ensures n < |s| ==> !IsDigit(s[n])
  {
    if s == [] || !IsDigit(s[0]) then 0 else 1 + LeadingDigits(s[1..])
  }

  /** `%u` of `sscanf`: an unsigned number and the characters it took, or
      nothing when no digit follows. */
  function ScanUint(s: string): (r: Option<(nat, nat)>)
    ensures r.None? <==> (s == [] || !IsDigit(s[0]))
    ensures r.Some? ==> 1 <= r.value.1 <= |s| && (r.value.1 < |s| ==> !IsDigit(s[r.value.1]))
    ensures r.Some? ==> (forall k :: 0 <= k < r.value.1 ==> IsDigit(s[k]))
                        && r.value.0 == ParseDigits(s[..r.value.1])
  {
    var n := LeadingDigits(s);
    if n == 0 then None else Some((ParseDigits(s[..n]), n))
  }

  /** Scanning a digit run, leading zeros included, followed by a non-digit
      reads the whole run and its value. */
  lemma ScanUintPrefix(d: string, rest: string)
    requires d != [] && forall k :: 0 <= k < |d| ==> IsDigit(d[k])
    requires rest == [] || !IsDigit(rest[0])
    ensures ScanUint(d + rest) == Some((ParseDigits(d), |d|))
  {
    LeadingDigitsPrefix(d, rest);
    assert (d + rest)[..|d|] == d;
  }

  /** Scanning a printed number followed by a non-digit reads the number. */
  lemma ScanUintDigits(n: nat, rest: string)
    requires rest == [] || !IsDigit(rest[0])
    ensures ScanUint(DigitLoop(n) + rest) == Some((n, |DigitLoop(n)|))
  {
    DigitLoopDigits(n);
    ScanUintPrefix(DigitLoop(n), rest);
  }

  lemma {:induction false} LeadingDigitsPrefix(d: string, rest: string)
    requires forall k :: 0 <= k < |d| ==> IsDigit(d[k])
    requires rest == [] || !IsDigit(rest[0])
    ensures LeadingDigits(d + rest) == |d|
    decreases |d|
  {
    if d != [] {
      assert (d + rest)[1..] == d[1..] + rest;
      LeadingDigitsPrefix(d[1..], rest);
    } else {
      assert d + rest == rest;
    }
  }

  function IntWidth(extra: string): Option<nat>
  {
    if extra == "8" then Some(8)
    else if extra == "16" then Some(16)
    else if extra == "32" then Some(32)
    else if extra == "64" then Some(64)
    else None
  }

  /** The `[unit]` suffixes of time and timestamp types. */
  function UnitText(u: Unit): string
  {
    match u
    case Sec => "[sec]"
    case Ms => "[ms]"
    case Us => "[us]"
    case Ns => "[ns]"
  }

  function UnitOf(extra: string): (r: Option<Unit>)
    ensures r.Some? ==> UnitText(r.value) == extra
    ensures forall u :: extra == UnitText(u) ==> r == Some(u)
  {
    if extra == "[sec]" then Some(Sec)
    else if extra == "[ms]" then Some(Ms)
    else if extra == "[us]" then Some(Us)
    else if extra == "[ns]" then Some(Ns)
    else None
  }

  /** `__assignFieldTypeInt` and `__assignFieldTypeUint`. */
  function IntType(signed: bool, extra: string): Result<ArrowType>
  {
    match IntWidth(extra)
    case Some(w) => Ok(AInt(signed, w))
    case None => Err("Not a supported Int width")
  }

  /** `__assignFieldTypeFloatingPoint`. */
  function FloatType(extra: string): Result<ArrowType>
  {
    if extra == "16" then Ok(AFloat(Half))
    else if extra == "32" then Ok(AFloat(Single))
    else if extra == "64" then Ok(AFloat(Double))
    else Err("Not a supported FloatingPoint width")
  }

  /** The two `sscanf` attempts on `(P,S)` or `(S)`: when the first does not
      convert both numbers, the first number is read again as the scale and
      the precision keeps its default. */
  function DecimalArgs(x: string): Result<ArrowType>
  {
    var body := if x == [] then [] else x[1..];
    match ScanUint(body)
    case None => Err("Arrow::Decimal definition syntax error")
    case Some((p, n)) =>
      if n < |body| && body[n] == ',' && ScanUint(body[n + 1..]).Some? then
        Ok(ADecimal(p, ScanUint(body[n + 1..]).value.0, DECIMAL_WIDTH))
      else
        Ok(ADecimal(DECIMAL_DEFAULT_PRECISION, p, DECIMAL_WIDTH))
  }

  /** `__assignFieldTypeDecimal`: an optional `128`, then nothing or a
      parenthesised argument list. */
  function DecimalType(extra: string): (r: Result<ArrowType>)
    ensures r.Ok? ==> r.value.ADecimal? && r.value.decWidth == DECIMAL_WIDTH
    ensures extra == [] || extra == "128" ==>
      r == Ok(ADecimal(DECIMAL_DEFAULT_PRECISION, DECIMAL_DEFAULT_SCALE, DECIMAL_WIDTH))
  {
    var x := if StartsWith(extra, "128") then extra[3..] else extra;
    if x == [] then Ok(ADecimal(DECIMAL_DEFAULT_PRECISION, DECIMAL_DEFAULT_SCALE, DECIMAL_WIDTH))
    else if x[0] != '(' || x[|x| - 1] != ')' then Err("Arrow::Decimal definition syntax error")
    else DecimalArgs(x)
  }

  /** An optional `128` in front of a parenthesised list changes nothing. */
  lemma DecimalWidthPrefix(pre: string, x: string)
    requires pre == [] || pre == "128"
    requires |x| >= 2 && x[0] == '(' && x[|x| - 1] == ')'
    ensures DecimalType(pre + x) == DecimalArgs(x)
  {
    assert (pre + x)[..|pre|] == pre;
    assert (pre + x)[|pre|..] == x;
    assert !StartsWith(x, "128") by { assert x[0] != '1'; }
  }

  lemma DecimalPairArgs(p: string, q: string)
    requires p != [] && forall k :: 0 <= k < |p| ==> IsDigit(p[k])
    requires q != [] && forall k :: 0 <= k < |q| ==> IsDigit(q[k])
    ensures DecimalArgs("(" + p + "," + q + ")") == Ok(ADecimal(ParseDigits(p), ParseDigits(q), DECIMAL_WIDTH))
  {
    var rest := "," + q + ")";
    var x := "(" + p + "," + q + ")";
    var b := x[1..];
    assert b == p + rest by { assert x == "(" + (p + rest); }
    assert ScanUint(b) == Some((ParseDigits(p), |p|)) by {
      ScanUintPrefix(p, rest);
    }
    assert |p| < |b| && b[|p|] == ',';
    assert ScanUint(b[|p| + 1..]) == Some((ParseDigits(q), |q|)) by {
      assert b[|p| + 1..] == q + ")";
      ScanUintPrefix(q, ")");
    }
  }

  lemma DecimalScaleArgs(q: string)
    requires q != [] && forall k :: 0 <= k < |q| ==> IsDigit(q[k])
    ensures DecimalArgs("(" + q + ")") == Ok(ADecimal(DECIMAL_DEFAULT_PRECISION, ParseDigits(q), DECIMAL_WIDTH))
  {
    var b := ("(" + q + ")")[1..];
    assert b == q + ")";
    ScanUintPrefix(q, ")");
    assert b[|q|] == ')';
  }

  /** `Decimal(P,S)` and `Decimal128(P,S)` give precision P and scale S. */
  lemma DecimalPairForm(pre: string, p: string, q: string, args: string)
    requires pre == [] || pre == "128"
    requires p != [] && forall k :: 0 <= k < |p| ==> IsDigit(p[k])
    requires q != [] && forall k :: 0 <= k < |q| ==> IsDigit(q[k])
    requires args == "(" + p + "," + q + ")"
    ensures DecimalType(pre + args) == Ok(ADecimal(ParseDigits(p), ParseDigits(q), DECIMAL_WIDTH))
  {
    assert |args| >= 2 && args[0] == '(' && args[|args| - 1] == ')';
    DecimalWidthPrefix(pre, args);
    DecimalPairArgs(p, q);
  }

  /** `Decimal(S)` and `Decimal128(S)` give the default precision and scale
      S. */
  lemma DecimalScaleForm(pre: string, q: string, args: string)
    requires pre == [] || pre == "128"
    requires q != [] && forall k :: 0 <= k < |q| ==> IsDigit(q[k])
    requires args == "(" + q + ")"
    ensures DecimalType(pre + args) == Ok(ADecimal(DECIMAL_DEFAULT_PRECISION, ParseDigits(q), DECIMAL_WIDTH))
  {
    assert |args| >= 2 && args[0] == '(' && args[|args| - 1] == ')';
    DecimalWidthPrefix(pre, args);
    DecimalScaleArgs(q);
  }

  /** `__assignFieldTypeDate`. */
  function DateType(extra: string): Result<ArrowType>
  {
    if extra == "[day]" || extra == "" then Ok(ADate(DayUnit))
    else if extra == "[ms]" then Ok(ADate(MilliSecondUnit))
    else Err("Arrow::Date - not a supported unit size")
  }

  /** The storage width of a time-of-day column in the unit. */
  function TimeWidth(u: Unit): nat
  {
    if u == Sec || u == Ms then 32 else 64
  }

  /** `__assignFieldTypeTime`: no suffix means seconds. */
  function TimeType(extra: string): Result<ArrowType>
  {
    if extra == "" then Ok(ATime(Sec, TimeWidth(Sec)))
    else match UnitOf(extra)
      case Some(u) => Ok(ATime(u, TimeWidth(u)))
      case None => Err("Arrow::Time - not a supported unit size")
  }

  /** `__assignFieldTypeTimestamp`: a `Tz` prefix takes the local time zone
      name `zone` (absent when `localtime_r` gives none). */
  function TimestampType(extra: string, zone: Option<string>): Result<ArrowType>
  {
    var tz := if StartsWith(extra, "Tz") then zone else None;
    var rest := if StartsWith(extra, "Tz") then extra[2..] else extra;
    match UnitOf(rest)
    case Some(u) => Ok(ATimestamp(u, tz))
    case None => Err("Arrow::Time - not a supported unit size")
  }

  /** `__arrowFileAssignFieldType` as written: the type name is matched by
      prefix in source order, so `Time` is tested before `Timestamp` and an
      `Interval` name is taken by the `Int` prefix. */
  function ParseTypeAsWritten(t: string, zone: Option<string>): Result<ArrowType>
  {
    if t == "Bool" then Ok(ABool)
    else if StartsWith(t, "Int") then IntType(true, t[3..])
    else if StartsWith(t, "Uint") then IntType(false, t[4..])
    else if StartsWith(t, "Float") then FloatType(t[5..])
    else if StartsWith(t, "Decimal") then DecimalType(t[7..])
    else if StartsWith(t, "Date") then DateType(t[4..])
    else if StartsWith(t, "Time") then TimeType(t[4..])
    else if StartsWith(t, "Timestamp") then TimestampType(t[9..], zone)
    else if StartsWith(t, "Interval") then Err("Arrow::Interval - not implemented yet")
    else if t == "Utf8" then Ok(AUtf8)
    else if t == "Ipaddr4" then Ok(AFixedSizeBinary(IP4ADDR_LEN))
    else if t == "Ipaddr6" then Ok(AFixedSizeBinary(IP6ADDR_LEN))
    else Err("ArrowFile: not a supported type")
  }

  /** As written, no `Timestamp` column can be declared: the `Time` branch
      takes the name and rejects the `stamp...` suffix. */
  lemma TimestampAsWrittenRejected(t: string, zone: Option<string>)
    requires StartsWith(t, "Timestamp")
    ensures ParseTypeAsWritten(t, zone).Err?
  {
    assert t[0] == t[..9][0] == 'T';
    assert t != "Bool";
    assert !StartsWith(t, "Int") by { assert t[..3][0] == 'T'; }
    assert !StartsWith(t, "Uint") by { assert t[..4][0] == 'T'; }
    assert !StartsWith(t, "Float") by { assert t[..5][0] == 'T'; }
    assert !StartsWith(t, "Decimal") by { assert t[..7][0] == 'T'; }
    assert !StartsWith(t, "Date") by { assert t[..4][0] == 'T'; }
    assert StartsWith(t, "Time") by { assert t[..4] == t[..9][..4]; }
    var x := t[4..];
    assert x[0] == t[..9][4] == 's';
    assert TimeType(x).Err?;
  }

  /** The type name with `Timestamp` tested before `Time`; every other name
      is matched as written. */
  function ParseType(t: string, zone: Option<string>): Result<ArrowType>
  {
    if StartsWith(t, "Timestamp") then TimestampType(t[9..], zone)
    else ParseTypeAsWritten(t, zone)
  }

  /** The buffers a column of the type takes: null bitmap and values, plus
      an extra buffer for the variable-length `Utf8`. */
  function NBuffers(ty: ArrowType): nat
  {
    if ty.AUtf8? then 3 else 2
  }

  /** The types that can be declared, with the widths each fixes. */
  predicate Supported(ty: ArrowType)
  {
    match ty
    case AInt(_, w) => w == 8 || w == 16 || w == 32 || w == 64
    case ADecimal(_, _, w) => w == DECIMAL_WIDTH
    case ATime(u, w) => w == TimeWidth(u)
    case AFixedSizeBinary(w) => w == IP4ADDR_LEN || w == IP6ADDR_LEN
    case _ => true
  }

  /** A declaration that names the type. */
  function TypeName(ty: ArrowType): string
  {
    match ty
    case ABool => "Bool"
    case AInt(signed, w) => (if signed then "Int" else "Uint") + WidthText(w)
    case AFloat(p) => "Float" + (match p case Half => "16" case Single => "32" case Double => "64")
    case ADecimal(p, s, _) => "Decimal(" + DigitLoop(p) + "," + DigitLoop(s) + ")"
    case ADate(u) => "Date" + (if u == DayUnit then "[day]" else "[ms]")
    case ATime(u, _) => "Time" + UnitText(u)
    case ATimestamp(u, tz) => "Timestamp" + (if tz.Some? then "Tz" else "") + UnitText(u)
    case AUtf8 => "Utf8"
    case AFixedSizeBinary(w) => if w == IP4ADDR_LEN then "Ipaddr4" else "Ipaddr6"
  }

  function WidthText(w: nat): string
  {
    if w == 8 then "8" else if w == 16 then "16" else if w == 32 then "32" else "64"
  }

  /** Every supported type is parsed back from its name; a `Tz` timestamp
      takes the zone it was declared in. */
  lemma ParseTypeName(ty: ArrowType, zone: Option<string>)
    requires Supported(ty)
    requires ty.ATimestamp? && ty.timezone.Some? ==> zone == ty.timezone
    ensures ParseType(TypeName(ty), zone) == Ok(ty)
  {
    match ty
    case ABool =>
    case AInt(signed, w) => ParseIntName(signed, w, zone);
    case AFloat(p) => ParseFloatName(p, zone);
    case ADecimal(p, sc, _) => ParseDecimalName(p, sc, zone);
    case ADate(u) => ParseDateName(u, zone);
    case ATime(u, _) => ParseTimeName(u, zone);
    case ATimestamp(u, tz) => ParseTimestampName(u, tz, zone);
    case AUtf8 => ParseUtf8Name(zone);
    case AFixedSizeBinary(w) => ParseIpaddrName(w, zone);
  }

  lemma ParseIpaddrName(w: nat, zone: Option<string>)
    requires w == IP4ADDR_LEN || w == IP6ADDR_LEN
    ensures ParseType(TypeName(AFixedSizeBinary(w)), zone) == Ok(AFixedSizeBinary(w))
  {
    var t := TypeName(AFixedSizeBinary(w));
    assert t[0] == 'I' && t[1] == 'p';
    NotPrefix(t, "Timestamp", 0);
    NotPrefix(t, "Int", 1);
    NotPrefix(t, "Uint", 0);
    NotPrefix(t, "Float", 0);
    NotPrefix(t, "Decimal", 0);
    NotPrefix(t, "Date", 0);
    NotPrefix(t, "Time", 0);
    NotPrefix(t, "Interval", 1);
    assert t != "Utf8" by { assert t[0] != 'U'; }
    if w == IP6ADDR_LEN {
      assert t != "Ipaddr4" by { assert t[6] != '4'; }
    }
  }

  lemma ParseUtf8Name(zone: Option<string>)
    ensures ParseType(TypeName(AUtf8), zone) == Ok(AUtf8)
  {
    var t := TypeName(AUtf8);
    NotPrefix(t, "Timestamp", 0);
    NotPrefix(t, "Int", 0);
    NotPrefix(t, "Uint", 1);
    NotPrefix(t, "Float", 0);
    NotPrefix(t, "Decimal", 0);
    NotPrefix(t, "Date", 0);
    NotPrefix(t, "Time", 0);
    NotPrefix(t, "Interval", 0);
  }

  /** A name that differs from `p` at position `i` does not start with it. */
  lemma NotPrefix(t: string, p: string, i: nat)
    requires i < |p| && (i >= |t| || t[i] != p[i])
    ensures !StartsWith(t, p)
  {
  }

  lemma ParseIntName(signed: bool, w: nat, zone: Option<string>)
    requires w == 8 || w == 16 || w == 32 || w == 64
    ensures ParseType(TypeName(AInt(signed, w)), zone) == Ok(AInt(signed, w))
  {
    var t := TypeName(AInt(signed, w));
    var x := WidthText(w);
    assert IntWidth(x) == Some(w) by {
      if w != 8 { assert x[0] != '8' || |x| != 1; }
      if w == 32 { assert x[0] != "16"[0]; }
      if w == 64 { assert x[0] != "16"[0] && x[0] != "32"[0]; }
    }
    NotPrefix(t, "Timestamp", 0);
    assert t != "Bool" by { assert t[0] != 'B'; }
    if signed {
      assert t == "Int" + x;
      assert t[..3] == "Int";
      assert t[3..] == x;
    } else {
      assert t == "Uint" + x;
      NotPrefix(t, "Int", 0);
      assert t[..4] == "Uint";
      assert t[4..] == x;
    }
  }

  lemma ParseFloatName(p: Precision, zone: Option<string>)
    ensures ParseType(TypeName(AFloat(p)), zone) == Ok(AFloat(p))
  {
    var t := TypeName(AFloat(p));
    var x := match p case Half => "16" case Single => "32" case Double => "64";
    assert t == "Float" + x;
    NotPrefix(t, "Timestamp", 0);
    assert t != "Bool" by { assert t[0] != 'B'; }
    NotPrefix(t, "Int", 0);
    NotPrefix(t, "Uint", 0);
    assert t[..5] == "Float";
    assert t[5..] == x;
    assert FloatType(x) == Ok(AFloat(p)) by {
      if p == Single { assert x[0] != "16"[0]; }
      if p == Double { assert x[0] != "16"[0] && x[0] != "32"[0]; }
    }
  }

  lemma ParseDateName(u: DateUnit, zone: Option<string>)
    ensures ParseType(TypeName(ADate(u)), zone) == Ok(ADate(u))
  {
    var t := TypeName(ADate(u));
    var x := if u == DayUnit then "[day]" else "[ms]";
    assert t == "Date" + x;
    NotPrefix(t, "Timestamp", 0);
    assert t != "Bool" by { assert t[0] != 'B'; }
    NotPrefix(t, "Int", 0);
    NotPrefix(t, "Uint", 0);
    NotPrefix(t, "Float", 0);
    NotPrefix(t, "Decimal", 1);
    assert t[..4] == "Date";
    assert t[4..] == x;
  }

  /** The names the decimal branch receives. */
  lemma DecimalPrefix(t: string, zone: Option<string>)
    requires StartsWith(t, "Decimal")
    ensures ParseType(t, zone) == DecimalType(t[7..])
  {
    assert t[0] == t[..7][0] == 'D';
    assert !StartsWith(t, "Timestamp") by { assert |t| < 9 || t[..9][0] == 'D'; }
    assert t != "Bool";
    assert !StartsWith(t, "Int") by { assert t[..3][0] == 'D'; }
    assert !StartsWith(t, "Uint") by { assert t[..4][0] == 'D'; }
    assert !StartsWith(t, "Float") by { assert t[..5][0] == 'D'; }
  }

  lemma DecimalArgsName(p: nat, sc: nat)
    ensures DecimalType("(" + DigitLoop(p) + "," + DigitLoop(sc) + ")") == Ok(ADecimal(p, sc, DECIMAL_WIDTH))
  {
    var dp := DigitLoop(p);
    var ds := DigitLoop(sc);
    var x := "(" + dp + "," + ds + ")";
    assert x[0] == '(';
    NotPrefix(x, "128", 0);
    assert x[|x| - 1] == ')';
    ScanUintDigits(p, "," + ds + ")");
    ScanUintDigits(sc, ")");
    DecimalArgsBody(dp, ds, p, sc);
  }

  lemma DecimalArgsBody(dp: string, ds: string, p: nat, sc: nat)
    requires ScanUint(dp + ("," + ds + ")")) == Some((p, |dp|))
    requires ScanUint(ds + ")") == Some((sc, |ds|))
    ensures DecimalArgs("(" + dp + "," + ds + ")") == Ok(ADecimal(p, sc, DECIMAL_WIDTH))
  {
    var x := "(" + dp + "," + ds + ")";
    var body := x[1..];
    assert body == dp + ("," + ds + ")");
    assert body[|dp|] == ',';
    assert body[|dp| + 1..] == ds + ")";
    DecimalArgsPair(x, p, |dp|, sc);
  }

  lemma DecimalArgsPair(x: string, p: nat, n: nat, sc: nat)
    requires x != [] && ScanUint(x[1..]) == Some((p, n))
    requires n < |x[1..]| && x[1..][n] == ','
    requires ScanUint(x[1..][n + 1..]).Some? && ScanUint(x[1..][n + 1..]).value.0 == sc
    ensures DecimalArgs(x) == Ok(ADecimal(p, sc, DECIMAL_WIDTH))
  {
  }

  lemma ParseDecimalName(p: nat, sc: nat, zone: Option<string>)
    ensures ParseType(TypeName(ADecimal(p, sc, DECIMAL_WIDTH)), zone) == Ok(ADecimal(p, sc, DECIMAL_WIDTH))
  {
    var x := "(" + DigitLoop(p) + "," + DigitLoop(sc) + ")";
    var t := TypeName(ADecimal(p, sc, DECIMAL_WIDTH));
    assert t == "Decimal" + x;
    assert t[..7] == "Decimal";
    assert t[7..] == x;
    DecimalPrefix(t, zone);
    DecimalArgsName(p, sc);
  }

  lemma ParseTimeName(u: Unit, zone: Option<string>)
    ensures ParseType(TypeName(ATime(u, TimeWidth(u))), zone) == Ok(ATime(u, TimeWidth(u)))
  {
    var t := TypeName(ATime(u, TimeWidth(u)));
    assert t == "Time" + UnitText(u);
    assert t[..4] == "Time";
    assert t[4..] == UnitText(u);
    assert t[4] == '[';
    assert !StartsWith(t, "Timestamp") by { assert |t| < 9 || t[..9][4] == '['; }
    assert t != "Bool";
    assert !StartsWith(t, "Int") by { assert t[..3][0] == 'T'; }
    assert !StartsWith(t, "Uint") by { assert t[..4][0] == 'T'; }
    assert !StartsWith(t, "Float") by { assert t[..5][0] == 'T'; }
    assert !StartsWith(t, "Decimal") by { assert t[..7][0] == 'T'; }
    assert !StartsWith(t, "Date") by { assert t[..4][1] == 'i'; }
  }

  lemma ParseTimestampName(u: Unit, tz: Option<string>, zone: Option<string>)
    requires tz.Some? ==> zone == tz
    ensures ParseType(TypeName(ATimestamp(u, tz)), zone) == Ok(ATimestamp(u, tz))
  {
    var t := TypeName(ATimestamp(u, tz));
    var x := (if tz.Some? then "Tz" else "") + UnitText(u);
    assert t == "Timestamp" + x;
    assert t[..9] == "Timestamp";
    assert t[9..] == x;
    if tz.Some? {
      assert x[..2] == "Tz";
      assert x[2..] == UnitText(u);
    } else {
      assert x[0] == '[';
    }
  }

  // ------------------------------------------------------------------
  // __arrowFileParseSchemaDefs and __arrowFileInitTable
  // ------------------------------------------------------------------

  /** One `<name>=<type>[;<attr>...]` entry after parsing. */
  datatype FieldDef = FieldDef(name: string, typ: string, statEnabled: bool)

  const STAT_ENABLED: string := "stat_enabled"

  /** The column attributes: each, trimmed, must be `stat_enabled`, and it
      may be given once. `stat` says whether it was already seen. */
  function ParseAttrs(attrs: seq<string>, stat: bool): (r: Result<bool>)
    ensures r.Ok? <==>
      (forall k :: 0 <= k < |attrs| ==> Trim(attrs[k]) == STAT_ENABLED)
      && |attrs| + (if stat then 1 else 0) <= 1
    ensures r.Ok? ==> r.value == (stat || |attrs| == 1)
    decreases |attrs|
  {
    if attrs == [] then Ok(stat)
    else if Trim(attrs[0]) != STAT_ENABLED then Err("unknown column attribute")
    else if stat then Err("duplicated column attribute")
    else
      var r := ParseAttrs(attrs[1..], true);
      assert r.Ok? <==> attrs[1..] == [] by {
        if attrs[1..] != [] { assert |attrs[1..]| + 1 > 1; }
      }
      r
  }

  /** One schema entry: the name up to the first `=`, the type up to the
      first `;` after it, then the attributes; name and type trimmed. */
  function ParseField(tok: string): (r: Result<FieldDef>)
    ensures '=' !in tok ==> r.Err?
    ensures r.Ok? ==> Trimmed(r.value.name) && Trimmed(r.value.typ)
    ensures r.Ok? ==> '=' !in r.value.name && ';' !in r.value.typ
  {
    match IndexOf(tok, '=')
    case None => Err("syntax error in schema definition")
    case Some(i) => TrimSubsequence(tok[..i]); FieldAfterName(Trim(tok[..i]), tok[i + 1..])
  }

  /** The part of an entry after its `=`, for the trimmed name. */
  function FieldAfterName(name: string, rest: string): (r: Result<FieldDef>)
    ensures r.Ok? ==> r.value.name == name && Trimmed(r.value.typ) && ';' !in r.value.typ
  {
    match IndexOf(rest, ';')
    case None =>
      TrimSubsequence(rest);
      Ok(FieldDef(name, Trim(rest), false))
    case Some(j) =>
      TrimSubsequence(rest[..j]);
      match ParseAttrs(Tokens(rest[j + 1..], ';'), false)
      case Err(e) => Err(e)
      case Ok(st) => Ok(FieldDef(name, Trim(rest[..j]), st))
  }

  /** Trimming keeps a contiguous part of the string, so it adds no
      character. */
  lemma TrimSubsequence(s: string)
    ensures forall c :: c in Trim(s) ==> c in s
  {
    var n := LeadingSpaces(s);
    var t := s[n..];
    var r := t[..|t| - TrailingSpaces(t)];
    forall c | c in r ensures c in s {
      var k :| 0 <= k < |r| && r[k] == c;
      assert s[n + k] == c;
    }
  }

  /** Net parenthesis depth at the end of `s`: `(` opens one, `)` closes one. */
  function Nesting(s: string): int
    decreases |s|
  {
    if s == [] then 0
    else Nesting(s[..|s| - 1]) + (if s[|s| - 1] == '(' then 1 else if s[|s| - 1] == ')' then -1 else 0)
  }

  lemma {:induction false} NestingAppend(a: string, b: string)
    ensures Nesting(a + b) == Nesting(a) + Nesting(b)
    decreases |b|
  {
    if b == [] {
      assert a + b == a;
    } else {
      var c := a + b;
      assert c[..|c| - 1] == a + b[..|b| - 1];
      NestingAppend(a, b[..|b| - 1]);
    }
  }

  /** Text with no comma and no parenthesis. */
  predicate Plain(s: string)
  {
    ',' !in s && '(' !in s && ')' !in s
  }

  lemma {:induction false} NestingFlat(s: string)
    requires '(' !in s && ')' !in s
    ensures Nesting(s) == 0
    decreases |s|
  {
    if s != [] {
      assert s[..|s| - 1] == s[..|s| - 1];
      NestingFlat(s[..|s| - 1]);
    }
  }

  /** A comma at index `k` with no parenthesis open before it. */
  predicate TopComma(s: string, k: nat)
  {
    k < |s| && s[k] == ',' && Nesting(s[..k]) <= 0
  }

  /** The first comma outside parentheses at or after `from`. */
  function FirstTopComma(s: string, from: nat): (r: Option<nat>)
    requires from <= |s|
    ensures r.Some? ==> from <= r.value && TopComma(s, r.value)
    ensures r.Some? ==> forall k :: from <= k < r.value ==> !TopComma(s, k)
    ensures r.None? ==> forall k :: from <= k < |s| ==> !TopComma(s, k)
    decreases |s| - from
  {
    if from == |s| then None
    else if TopComma(s, from) then Some(from)
    else FirstTopComma(s, from + 1)
  }

  /** The entry split with the evident intent: `strtok_r` on `,`, but only
      on commas outside parentheses, so `Decimal(P,S)` stays one entry. */
  function Entries(s: string): (es: seq<string>)
    ensures forall k :: 0 <= k < |es| ==> es[k] != []
    decreases |s|
  {
    if s == [] then []
    else if s[0] == ',' then Entries(s[1..])
    else match FirstTopComma(s, 0)
      case None => [s]
      case Some(n) => [s[..n]] + Entries(s[n + 1..])
  }

  /** Every comma of `t` sits inside parentheses, and none is left open. */
  predicate NestedCommas(t: string)
  {
    Nesting(t) <= 0 && forall k :: 0 <= k < |t| ==> !TopComma(t, k)
  }

  /** Splitting entries joined by `,` gives them back, when each entry keeps
      its commas inside parentheses. */
  lemma {:induction false} EntriesJoin(ts: seq<string>)
    requires forall k :: 0 <= k < |ts| ==> ts[k] != [] && NestedCommas(ts[k])
    ensures Entries(Join(ts, ',')) == ts
    decreases |ts|
  {
    if |ts| == 1 {
      var t := ts[0];
      assert NestedCommas(t) && !TopComma(t, 0);
      assert t[..0] == [];
      assert t[0] != ',';
    } else if |ts| > 1 {
      var t := ts[0];
      assert NestedCommas(t) && !TopComma(t, 0);
      assert t[..0] == [];
      var s := Join(ts, ',');
      var n := |t|;
      assert s == t + ([','] + Join(ts[1..], ','));
      assert s[0] == t[0] != ',';
      forall k | 0 <= k < n ensures !TopComma(s, k) {
        assert s[..k] == t[..k];
        assert s[k] == t[k];
        assert !TopComma(t, k);
      }
      assert s[..n] == t;
      assert TopComma(s, n);
      assert FirstTopComma(s, 0) == Some(n);
      assert s[n + 1..] == Join(ts[1..], ',');
      EntriesJoin(ts[1..]);
    }
  }

  /** Plain text before an entry keeps its commas nested. */
  lemma NestedCommasPrepend(p: string, t: string)
    requires Plain(p) && NestedCommas(t)
    ensures NestedCommas(p + t)
  {
    NestingFlat(p);
    NestingAppend(p, t);
    forall k | 0 <= k < |p + t| ensures !TopComma(p + t, k) {
      if (p + t)[k] == ',' {
        assert k >= |p|;
        var j := k - |p|;
        assert (p + t)[..k] == p + t[..j];
        NestingAppend(p, t[..j]);
        assert t[j] == ',' && !TopComma(t, j);
      }
    }
  }

  /** Plain text after an entry keeps its commas nested. */
  lemma NestedCommasAppend(t: string, q: string)
    requires Plain(q) && NestedCommas(t)
    ensures NestedCommas(t + q)
  {
    NestingFlat(q);
    NestingAppend(t, q);
    forall k | 0 <= k < |t + q| ensures !TopComma(t + q, k) {
      if (t + q)[k] == ',' {
        assert k < |t|;
        assert (t + q)[..k] == t[..k];
        assert !TopComma(t, k);
      }
    }
  }

  /** A parenthesised list whose items hold no parenthesis. */
  lemma NestedCommasParens(m: string)
    requires '(' !in m && ')' !in m
    ensures NestedCommas("(" + m + ")")
  {
    var t := "(" + m + ")";
    NestingFlat(m);
    NestingAppend("(" + m, ")");
    NestingAppend("(", m);
    forall k | 0 <= k < |t| ensures !TopComma(t, k) {
      if t[k] == ',' {
        assert 1 <= k <= |m|;
        assert t[..k] == "(" + m[..k - 1];
        assert '(' !in m[..k - 1] && ')' !in m[..k - 1] by {
          forall c | c in m[..k - 1] ensures c in m { }
        }
        NestingFlat(m[..k - 1]);
        NestingAppend("(", m[..k - 1]);
      }
    }
  }

  /** The text part of `__arrowFileParseSchemaDefs`, with entries split
      outside parentheses. */
  function ParseSchemaFields(s: string): Result<seq<FieldDef>>
  {
    MapResult(Entries(s), ParseField)
  }

  /** As written: entries split on every `,` (empty entries are skipped by
      `strtok_r`). */
  function ParseSchemaFieldsAsWritten(s: string): Result<seq<FieldDef>>
  {
    MapResult(Tokens(s, ','), ParseField)
  }

  /** The declaration of one field. */
  function RenderField(f: FieldDef): string
  {
    f.name + "=" + f.typ + (if f.statEnabled then ";" + STAT_ENABLED else "")
  }

  function RenderFields(fs: seq<FieldDef>): (r: seq<string>)
    ensures |r| == |fs| && forall k :: 0 <= k < |fs| ==> r[k] == RenderField(fs[k])
  {
    if fs == [] then [] else [RenderField(fs[0])] + RenderFields(fs[1..])
  }

  /** A schema string declaring the fields. */
  function RenderSchema(fs: seq<FieldDef>): string
  {
    Join(RenderFields(fs), ',')
  }

  /** What a field must look like to be written as one entry. */
  predicate FieldShape(f: FieldDef)
  {
    Trimmed(f.name) && Trimmed(f.typ) && '=' !in f.name && ';' !in f.typ
  }

  /** What a field must look like to be declared in a schema string: a name
      with no comma or parenthesis, and a type whose commas are nested. */
  predicate Declarable(f: FieldDef)
  {
    FieldShape(f) && Plain(f.name) && NestedCommas(f.typ)
  }

  /** As written, no comma may appear in a declared field at all. */
  predicate DeclarableAsWritten(f: FieldDef)
  {
    FieldShape(f) && ',' !in f.name && ',' !in f.typ
  }

  lemma ParseFieldRender(f: FieldDef)
    requires FieldShape(f)
    ensures ParseField(RenderField(f)) == Ok(f)
  {
    var rest := f.typ + (if f.statEnabled then ";" + STAT_ENABLED else "");
    assert RenderField(f) == f.name + "=" + rest;
    ParseFieldSplit(f.name, rest);
    if f.statEnabled {
      FieldAfterNameStat(f.name, f.typ);
    } else {
      FieldAfterNamePlain(f.name, f.typ);
    }
  }

  lemma ParseFieldSplit(name: string, rest: string)
    requires '=' !in name && Trimmed(name)
    ensures ParseField(name + "=" + rest) == FieldAfterName(name, rest)
  {
    SplitAtEquals(name, rest);
    TrimFixes(name);
  }

  lemma FieldAfterNamePlain(name: string, typ: string)
    requires Trimmed(typ) && ';' !in typ
    ensures FieldAfterName(name, typ) == Ok(FieldDef(name, typ, false))
  {
    TrimFixes(typ);
  }

  lemma FieldAfterNameStat(name: string, typ: string)
    requires Trimmed(typ) && ';' !in typ
    ensures FieldAfterName(name, typ + (";" + STAT_ENABLED)) == Ok(FieldDef(name, typ, true))
  {
    TrimFixes(typ);
    ParseRestStat(typ);
  }

  /** The first `=` of an entry ends a name that has none. */
  lemma SplitAtEquals(name: string, rest: string)
    requires '=' !in name
    ensures var tok := name + "=" + rest;
      IndexOf(tok, '=') == Some(|name|) && tok[..|name|] == name && tok[|name| + 1..] == rest
  {
    var tok := name + "=" + rest;
    assert tok[..|name|] == name;
    assert tok[|name|] == '=';
    assert tok[|name| + 1..] == rest;
  }

  lemma TrimFixes(s: string)
    requires Trimmed(s)
    ensures Trim(s) == s
  {
    TrimPadded([], s, []);
    assert [] + s + [] == s;
  }

  /** The part after `=` of an entry with the `stat_enabled` attribute. */
  lemma ParseRestStat(typ: string)
    requires ';' !in typ
    ensures var rest := typ + (";" + STAT_ENABLED);
      && IndexOf(rest, ';') == Some(|typ|)
      && rest[..|typ|] == typ
      && ParseAttrs(Tokens(rest[|typ| + 1..], ';'), false) == Ok(true)
  {
    var rest := typ + (";" + STAT_ENABLED);
    assert rest[..|typ|] == typ;
    assert rest[|typ|] == ';';
    assert rest[|typ| + 1..] == STAT_ENABLED;
    StatAttr();
  }

  lemma StatAttr()
    ensures ParseAttrs(Tokens(STAT_ENABLED, ';'), false) == Ok(true)
  {
    var a := STAT_ENABLED;
    assert a[0] == 's' && a[|a| - 1] == 'd';
    assert Trimmed(a);
    TrimFixes(a);
    assert ';' !in a;
    assert Join([a], ';') == a;
    TokensJoin([a], ';');
    var ts := Tokens(a, ';');
    assert ts == [a];
    assert ParseAttrs(ts, false) == ParseAttrs([], true);
  }

  /** Parsing a rendered schema gives back its fields. */
  lemma SchemaRoundTrip(fs: seq<FieldDef>)
    requires forall k :: 0 <= k < |fs| ==> Declarable(fs[k])
    ensures ParseSchemaFields(RenderSchema(fs)) == Ok(fs)
  {
    var toks := RenderFields(fs);
    forall k | 0 <= k < |toks| ensures toks[k] != [] && NestedCommas(toks[k]) {
      var f := fs[k];
      var opt := if f.statEnabled then ";" + STAT_ENABLED else "";
      assert toks[k] == (f.name + "=") + f.typ + opt;
      assert Plain(f.name + "=") by { assert f.name + "=" == f.name + ['=']; }
      assert Plain(opt);
      NestedCommasPrepend(f.name + "=", f.typ);
      NestedCommasAppend((f.name + "=") + f.typ, opt);
    }
    EntriesJoin(toks);
    forall k | 0 <= k < |toks| ensures ParseField(toks[k]) == Ok(fs[k]) {
      ParseFieldRender(fs[k]);
    }
    var r := MapResult(toks, ParseField);
    assert r.Ok?;
    assert r.value == fs;
  }

  /** As written, a rendered schema parses back when no field holds a comma. */
  lemma SchemaRoundTripAsWritten(fs: seq<FieldDef>)
    requires forall k :: 0 <= k < |fs| ==> DeclarableAsWritten(fs[k])
    ensures ParseSchemaFieldsAsWritten(RenderSchema(fs)) == Ok(fs)
  {
    var toks := RenderFields(fs);
    forall k | 0 <= k < |toks| ensures Token(toks[k], ',') {
      var f := fs[k];
      assert toks[k] == f.name + "=" + f.typ + (if f.statEnabled then ";" + STAT_ENABLED else "");
      assert toks[k][|f.name|] == '=';
    }
    TokensJoin(toks, ',');
    forall k | 0 <= k < |toks| ensures ParseField(toks[k]) == Ok(fs[k]) {
      ParseFieldRender(fs[k]);
    }
    var r := MapResult(toks, ParseField);
    assert r.Ok?;
    assert r.value == fs;
  }

  /** As written, a `Decimal(P,S)` column cannot be declared: `strtok_r`
      cuts its entry at the comma, and the second half has no `=`. */
  lemma DecimalPairUnreachable(name: string, pre: string, p: string, q: string, s: string)
    requires ',' !in name
    requires pre == [] || pre == "128"
    requires forall k :: 0 <= k < |p| ==> IsDigit(p[k])
    requires forall k :: 0 <= k < |q| ==> IsDigit(q[k])
    requires s == name + "=Decimal" + pre + "(" + p + "," + q + ")"
    ensures ParseSchemaFieldsAsWritten(s).Err?
  {
    var a := name + "=Decimal" + pre + "(" + p;
    var b := q + ")";
    assert s == a + [','] + b;
    assert Join([a, b], ',') == a + [','] + b;
    assert ',' !in p && ',' !in q && ',' !in pre;
    assert Token(a, ',') && Token(b, ',');
    TokensJoin([a, b], ',');
    assert Tokens(s, ',')[1] == b;
    assert '=' !in b;
  }

  /** The `Decimal(P,S)` type text is trimmed, has no `;` and keeps its
      comma inside the parentheses. */
  lemma DecimalPairShape(pre: string, p: string, q: string, typ: string)
    requires pre == [] || pre == "128"
    requires forall k :: 0 <= k < |p| ==> IsDigit(p[k])
    requires forall k :: 0 <= k < |q| ==> IsDigit(q[k])
    requires typ == "Decimal" + pre + "(" + p + "," + q + ")"
    ensures Trimmed(typ) && ';' !in typ && NestedCommas(typ)
  {
    var m := p + "," + q;
    assert '(' !in m && ')' !in m && ';' !in m;
    NestedCommasParens(m);
    assert typ == ("Decimal" + pre) + ("(" + m + ")");
    assert Plain("Decimal" + pre);
    NestedCommasPrepend("Decimal" + pre, "(" + m + ")");
    assert typ[0] == 'D' && typ[|typ| - 1] == ')';
  }

  lemma DecimalPairType(pre: string, p: string, q: string, typ: string, zone: Option<string>)
    requires pre == [] || pre == "128"
    requires p != [] && forall k :: 0 <= k < |p| ==> IsDigit(p[k])
    requires q != [] && forall k :: 0 <= k < |q| ==> IsDigit(q[k])
    requires typ == "Decimal" + pre + "(" + p + "," + q + ")"
    ensures ParseType(typ, zone) == Ok(ADecimal(ParseDigits(p), ParseDigits(q), DECIMAL_WIDTH))
  {
    var args := "(" + p + "," + q + ")";
    DecimalPairRegroup(pre, p, q, args, typ);
    DecimalNameSplit(pre + args, typ);
    DecimalPrefix(typ, zone);
    DecimalPairForm(pre, p, q, args);
  }

  lemma DecimalPairRegroup(pre: string, p: string, q: string, args: string, typ: string)
    requires args == "(" + p + "," + q + ")"
    requires typ == "Decimal" + pre + "(" + p + "," + q + ")"
    ensures typ == "Decimal" + (pre + args)
  {
  }

  lemma DecimalNameSplit(x: string, typ: string)
    requires typ == "Decimal" + x
    ensures StartsWith(typ, "Decimal") && typ[7..] == x
  {
    assert typ[..7] == "Decimal";
  }

  /** A schema of one declarable field parses to that field. */
  lemma SingleFieldSchema(f: FieldDef)
    requires Declarable(f) && !f.statEnabled
    ensures ParseSchemaFields(f.name + "=" + f.typ) == Ok([f])
  {
    SchemaRoundTrip([f]);
    assert RenderFields([f]) == [RenderField(f)];
    assert RenderSchema([f]) == RenderField(f);
    assert RenderField(f) == f.name + "=" + f.typ + "";
    assert f.name + "=" + f.typ + "" == f.name + "=" + f.typ;
  }

  /** With entries split outside parentheses, a `Decimal(P,S)` or
      `Decimal128(P,S)` column is declared whole, with precision P and
      scale S. */
  lemma DecimalPairDeclared(name: string, pre: string, p: string, q: string, typ: string, zone: Option<string>)
    requires Trimmed(name) && Plain(name) && '=' !in name
    requires pre == [] || pre == "128"
    requires p != [] && forall k :: 0 <= k < |p| ==> IsDigit(p[k])
    requires q != [] && forall k :: 0 <= k < |q| ==> IsDigit(q[k])
    requires typ == "Decimal" + pre + "(" + p + "," + q + ")"
    ensures ParseSchemaFields(name + "=" + typ) == Ok([FieldDef(name, typ, false)])
    ensures ParseType(typ, zone) == Ok(ADecimal(ParseDigits(p), ParseDigits(q), DECIMAL_WIDTH))
  {
    DecimalPairShape(pre, p, q, typ);
    SingleFieldSchema(FieldDef(name, typ, false));
    DecimalPairType(pre, p, q, typ, zone);
  }

  /** A column after type assignment; address columns carry the `pg_type`
      custom metadata. */
  datatype Column = Column(name: string, typ: ArrowType, statEnabled: bool, pgType: Option<string>)

  /** `__arrowFileAssignFieldType`, with `Timestamp` names recognised. */
  function AssignFieldType(f: FieldDef, zone: Option<string>): (r: Result<(Column, nat)>)
    ensures r.Ok? <==> ParseType(f.typ, zone).Ok?
    ensures r.Ok? ==> r.value.0 == Column(f.name, ParseType(f.typ, zone).value, f.statEnabled, r.value.0.pgType)
    ensures r.Ok? ==> (r.value.0.pgType.Some? <==> r.value.0.typ.AFixedSizeBinary?)
    ensures r.Ok? ==> r.value.1 == NBuffers(r.value.0.typ)
  {
    match ParseType(f.typ, zone)
    case Err(e) => Err(e)
    case Ok(ty) =>
      var pg := if ty.AFixedSizeBinary? then Some(INET_PG_TYPE) else None;
      Ok((Column(f.name, ty, f.statEnabled, pg), NBuffers(ty)))
  }

  /** The table of `SQLtable`: the record-batch threshold as segment size,
      the columns, and the field-node and buffer counts (`uint32_t`). */
  datatype Table = Table(segmentSize: nat, columns: seq<Column>, numFieldNodes: nat, numBuffers: nat)

  function CountUtf8(cs: seq<Column>): (n: nat)
    ensures n <= |cs|
  {
    if cs == [] then 0 else (if cs[0].typ.AUtf8? then 1 else 0) + CountUtf8(cs[1..])
  }

  function Columns(asg: seq<(Column, nat)>): (cs: seq<Column>)
    ensures |cs| == |asg| && forall k :: 0 <= k < |asg| ==> cs[k] == asg[k].0
  {
    seq(|asg|, k requires 0 <= k < |asg| => asg[k].0)
  }

  /** The `nbuffers` sum of `__arrowFileInitTable`. */
  function TotalBuffers(asg: seq<(Column, nat)>): nat
  {
    if asg == [] then 0 else asg[0].1 + TotalBuffers(asg[1..])
  }

  /** Two buffers per column and one more per `Utf8` column. */
  lemma {:induction false} TotalBuffersCount(asg: seq<(Column, nat)>)
    requires forall k :: 0 <= k < |asg| ==> asg[k].1 == NBuffers(asg[k].0.typ)
    ensures TotalBuffers(asg) == 2 * |asg| + CountUtf8(Columns(asg))
    decreases |asg|
  {
    if asg != [] {
      TotalBuffersCount(asg[1..]);
      assert Columns(asg)[1..] == Columns(asg[1..]);
    }
  }

  /** The assignment loop of `__arrowFileInitTable`: every field in order,
      the first one whose type does not parse raising. */
  function AssignAll(defs: seq<FieldDef>, zone: Option<string>): (r: Result<seq<(Column, nat)>>)
    ensures r.Ok? ==> |r.value| == |defs|
    ensures r.Ok? ==> forall k :: 0 <= k < |r.value| ==> r.value[k].1 == NBuffers(r.value[k].0.typ)
    decreases |defs|
  {
    if defs == [] then Ok([])
    else match AssignFieldType(defs[0], zone)
      case Err(e) => Err(e)
      case Ok(a) =>
        match AssignAll(defs[1..], zone)
        case Err(e) => Err(e)
        case Ok(rest) => Ok([a] + rest)
  }

  /** The assignment loop succeeds exactly when every field's type parses,
      and then gives each field's name, statistics flag and parsed type. */
  lemma {:induction false} AssignAllColumns(defs: seq<FieldDef>, zone: Option<string>)
    ensures AssignAll(defs, zone).Ok? <==> forall k :: 0 <= k < |defs| ==> ParseType(defs[k].typ, zone).Ok?
    ensures var r := AssignAll(defs, zone);
      r.Ok? ==> forall k :: 0 <= k < |defs| ==>
        && r.value[k].0.name == defs[k].name && r.value[k].0.statEnabled == defs[k].statEnabled
        && r.value[k].0.typ == ParseType(defs[k].typ, zone).value
    decreases |defs|
  {
    if defs != [] {
      AssignAllColumns(defs[1..], zone);
      assert forall k :: 1 <= k < |defs| ==> defs[k] == defs[1..][k - 1];
    }
  }

  /** The table of a list of field assignments: their columns in order and
      their buffer counts summed into a `uint32_t`. */
  function TableOf(segmentSize: nat, asg: seq<(Column, nat)>): (t: Table)
    requires forall k :: 0 <= k < |asg| ==> asg[k].1 == NBuffers(asg[k].0.typ)
    ensures t.columns == Columns(asg) && t.numFieldNodes == |asg|
    ensures t.numBuffers == WrapU(2 * |asg| + CountUtf8(t.columns), 32)
  {
    TotalBuffersCount(asg);
    Table(segmentSize, Columns(asg), |asg|, WrapU(TotalBuffers(asg), 32))
  }

  /** `__arrowFileInitTable`: every field assigned in order (the first
      failing one raises), then the table of the assignments. */
  function InitTable(defs: seq<FieldDef>, zone: Option<string>, segmentSize: nat): (r: Result<Table>)
    ensures r.Ok? ==> |r.value.columns| == |defs| == r.value.numFieldNodes
    ensures r.Ok? ==> r.value.numBuffers == WrapU(2 * |defs| + CountUtf8(r.value.columns), 32)
  {
    match AssignAll(defs, zone)
    case Err(e) => Err(e)
    case Ok(asg) => Ok(TableOf(segmentSize, asg))
  }

  /** The table is built exactly when every field's type parses, and its
      columns are the fields with their parsed types, in order. */
  lemma InitTableColumns(defs: seq<FieldDef>, zone: Option<string>, segmentSize: nat)
    ensures InitTable(defs, zone, segmentSize).Ok? <==> forall k :: 0 <= k < |defs| ==> ParseType(defs[k].typ, zone).Ok?
    ensures var r := InitTable(defs, zone, segmentSize);
      r.Ok? ==> forall k :: 0 <= k < |defs| ==>
        r.value.columns[k].name == defs[k].name && r.value.columns[k].statEnabled == defs[k].statEnabled
        && r.value.columns[k].typ == ParseType(defs[k].typ, zone).value
  {
    AssignAllColumns(defs, zone);
  }

  /** `__arrowFileParseSchemaDefs`: the entries, then the table. */
  function ParseSchemaDefs(s: string, zone: Option<string>, segmentSize: nat): (r: Result<Table>)
    ensures r.Ok? ==> ParseSchemaFields(s).Ok? && |r.value.columns| == |Entries(s)|
  {
    match ParseSchemaFields(s)
    case Err(e) => Err(e)
    case Ok(defs) => InitTable(defs, zone, segmentSize)
  }
}
