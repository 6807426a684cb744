/** Pure helpers of the device-code generator: the function-template
    attribute string of the catalog, the byte strings the device-type hash
    functions feed to `hash_any`, the result-width bookkeeping of varlena
    expressions, and catalog name matching. `hash_any` itself is not modelled:
    two keys hash alike here when the bytes handed to it are equal. */
module Codegen {
  import opened Common

  // ------------------------------------------------------------------
  // __construct_devfunc_info: the template attribute string
  // ------------------------------------------------------------------

  /** The `DEVKERNEL_NEEDS_*` library flags a template can ask for. */
  datatype DevFlag = NeedsPrimitive | NeedsTextlib | NeedsTimelib | NeedsJsonlib
                   | NeedsMisclib | NeedsRangetype | NeedsPostgis

  /** The flag an attribute character selects; `L` and `C` are not flags,
      and any other character is reported and ignored. */
  function FlagOf(c: char): Option<DevFlag>
  {
    if c == 'p' then Some(NeedsPrimitive)
    else if c == 's' then Some(NeedsTextlib)
    else if c == 't' then Some(NeedsTimelib)
    else if c == 'j' then Some(NeedsJsonlib)
    else if c == 'm' then Some(NeedsMisclib)
    else if c == 'r' then Some(NeedsRangetype)
    else if c == 'g' then Some(NeedsPostgis)
    else None
  }

  /** The flags set by an attribute string. */
  function FlagsOf(attrs: string): (r: set<DevFlag>)
    ensures forall f :: f in r <==> exists i :: 0 <= i < |attrs| && FlagOf(attrs[i]) == Some(f)
  {
    if attrs == [] then {}
    else
      var rest := FlagsOf(attrs[1..]);
      assert forall i :: 1 <= i < |attrs| ==> attrs[1..][i - 1] == attrs[i];
      (if FlagOf(attrs[0]).Some? then {FlagOf(attrs[0]).value} else {}) + rest
  }

  /** What the template says about a device function. */
  datatype Template = Template(flags: set<DevFlag>, hasCollation: bool, hasCallbacks: bool, devname: string)

  /** The attribute part (before the first `/`, empty without one) and the
      rest of a template. */
  function SplitTemplate(t: string): (r: (string, string))
    ensures '/' !in r.0
    ensures ('/' in t && t == r.0 + "/" + r.1) || ('/' !in t && r.0 == "" && r.1 == t)
  {
    match IndexOf(t, '/')
    case None => ("", t)
    case Some(e) =>
      assert t == t[..e] + "/" + t[e + 1..];
      (t[..e], t[e + 1..])
  }

  /** The template parse of `__construct_devfunc_info`; `None` when the rest
      does not start with `f:`, where the source gives up with a notice. */
  function ParseTemplate(t: string): (r: Option<Template>)
    ensures r.None? <==> !StartsWith(SplitTemplate(t).1, "f:")
    ensures r.Some? ==>
      var (attrs, rest) := SplitTemplate(t);
      && "f:" + r.value.devname == rest
      && (r.value.hasCollation <==> 'L' in attrs)
      && (r.value.hasCallbacks <==> 'C' in attrs)
      && (forall f :: f in r.value.flags <==> exists i :: 0 <= i < |attrs| && FlagOf(attrs[i]) == Some(f))
  {
    var (attrs, rest) := SplitTemplate(t);
    if !StartsWith(rest, "f:") then None
    else
      assert rest == "f:" + rest[2..];
      Some(Template(FlagsOf(attrs), 'L' in attrs, 'C' in attrs, rest[2..]))
  }

  /** A catalog template is an attribute string, a `/`, `f:` and the device
      function name; the parse recovers each part. */
  lemma ParseTemplateRoundTrip(attrs: string, devname: string)
    requires '/' !in attrs
    ensures var r := ParseTemplate(attrs + "/f:" + devname);
      && r.Some?
      && r.value.devname == devname
      && r.value.flags == FlagsOf(attrs)
      && (r.value.hasCollation <==> 'L' in attrs)
      && (r.value.hasCallbacks <==> 'C' in attrs)
  {
    var t := attrs + "/f:" + devname;
    var e := IndexOf(t, '/');
    assert t[|attrs|] == '/';
    assert e.Some?;
    assert '/' !in t[..|attrs|] by {
      assert t[..|attrs|] == attrs;
    }
    assert e.value == |attrs|;
    assert t[..|attrs|] == attrs;
    assert t[|attrs| + 1..] == "f:" + devname;
  }

  /** Which result-size routine a device function gets. */
  datatype ResultSize = CatalogCallback | GenericResultSize

  /** The fields of `devfunc_info` the template and collation decide. */
  datatype DevFunc = DevFunc(flags: set<DevFlag>, isNegative: bool, collid: nat, devname: string,
                             resultSize: ResultSize)

  /** `__construct_devfunc_info`. `collid` 0 is `InvalidOid`; `collateIsC`
      is the answer of `lc_collate_is_c` for it, a catalog lookup. */
  function ConstructDevFunc(template: string, collid: nat, collateIsC: bool): (r: Option<DevFunc>)
    ensures r.None? <==> ParseTemplate(template).None?
    ensures r.Some? ==> r.value.devname == ParseTemplate(template).value.devname
    ensures r.Some? ==> r.value.flags == ParseTemplate(template).value.flags
  {
    match ParseTemplate(template)
    case None => None
    case Some(p) =>
      Some(DevFunc(
        p.flags,
        p.hasCollation && collid != 0 && !collateIsC,
        if p.hasCollation then collid else 0,
        p.devname,
        if p.hasCallbacks then CatalogCallback else GenericResultSize))
  }

  /** A collation-sensitive (`L`) function is rejected for the device exactly
      when a valid, non-C collation applies; other functions never are, and
      only `L` functions remember the collation. The catalog's size callback is
      used exactly for `C` templates. */
  lemma DevFuncNegativeIffCollation(attrs: string, devname: string, collid: nat, collateIsC: bool)
    requires '/' !in attrs
    ensures var r := ConstructDevFunc(attrs + "/f:" + devname, collid, collateIsC);
      && r.Some?
      && (r.value.isNegative <==> 'L' in attrs && collid != 0 && !collateIsC)
      && (r.value.collid == if 'L' in attrs then collid else 0)
      && (r.value.resultSize == CatalogCallback <==> 'C' in attrs)
  {
    ParseTemplateRoundTrip(attrs, devname);
  }

  /** The same decision for any template, read through its attribute part,
      which is empty when the template has no `/`. */
  lemma DevFuncByAttributes(template: string, collid: nat, collateIsC: bool)
    ensures var r := ConstructDevFunc(template, collid, collateIsC);
      var attrs := SplitTemplate(template).0;
      r.Some? ==>
        && (r.value.isNegative <==> 'L' in attrs && collid != 0 && !collateIsC)
        && (r.value.collid == if 'L' in attrs then collid else 0)
        && (r.value.resultSize == CatalogCallback <==> 'C' in attrs)
  {
  }

  /** A bare `f:<name>` template, the most common catalog form, builds an
      entry that is never negative, keeps no collation and uses the generic
      result size. */
  lemma DevFuncBareTemplate(devname: string, collid: nat, collateIsC: bool)
    requires '/' !in devname
    ensures var r := ConstructDevFunc("f:" + devname, collid, collateIsC);
      && r.Some?
      && r.value.devname == devname
      && !r.value.isNegative
      && r.value.collid == 0
      && r.value.resultSize == GenericResultSize
  {
  }

  // ------------------------------------------------------------------
  // Device-type hash functions: the bytes given to hash_any
  // ------------------------------------------------------------------

  /** `pg_bpchar_devtype_hashfunc` hashes the value without its trailing
      blanks: the length returned here. */
  function BpcharHashLength(s: string): (n: nat)
    ensures n <= |s|
    ensures forall k :: n <= k < |s| ==> s[k] == ' '
    ensures n == 0 || s[n - 1] != ' '
  {
    if s == [] || s[|s| - 1] != ' ' then |s|
    else BpcharHashLength(s[..|s| - 1])
  }

  function BpcharHashKey(s: string): string
  {
    s[..BpcharHashLength(s)]
  }

  function Blanks(n: nat): (r: string)
    ensures |r| == n && forall k :: 0 <= k < n ==> r[k] == ' '
  {
    if n == 0 then "" else Blanks(n - 1) + " "
  }

  /** `CHAR(n)` values that differ only in trailing blanks hash alike. */
  lemma BpcharIgnoresPadding(s: string, n: nat)
    ensures BpcharHashKey(s + Blanks(n)) == BpcharHashKey(s)
  {
    var t := s + Blanks(n);
    var a := BpcharHashLength(t);
    var b := BpcharHashLength(s);
    // Both lengths are the end of the last non-blank character of `s`.
    assert forall k :: 0 <= k < |s| ==> t[k] == s[k];
    assert a == b;
    assert t[..a] == s[..b];
  }

  /** The 32-bit word `pg_int4_devtype_hashfunc` hashes: the value's two's
      complement pattern. */
  function Int4HashWord(v: int): (w: u32)
    requires IsInt32(v)
    ensures Signed32(w) == v
  {
    if v >= 0 then v else v + TWO32
  }

  /** The word `pg_int8_devtype_hashfunc` hashes: the low half xor the high
      half, the high half complemented for negative values. */
  function Int8HashWord(v: int): (w: u32)
    requires IsInt64(v)
  {
    var lo := v % TWO32;
    var hi := (v / TWO32) % TWO32;
    var fold := if v >= 0 then hi else TWO32 - 1 - hi;
    XorBelow32(lo, fold);
    Xor(lo, fold)
  }

  lemma {:induction false} XorBelow(a: nat, b: nat, n: nat)
    requires a < Pow2(n) && b < Pow2(n)
    ensures Xor(a, b) < Pow2(n)
    decreases n
  {
    if n > 0 && (a != 0 || b != 0) {
      XorBelow(a / 2, b / 2, n - 1);
    }
  }

  function Pow2(n: nat): (r: nat)
    ensures r >= 1
  {
    if n == 0 then 1 else 2 * Pow2(n - 1)
  }

  lemma {:induction false} Pow2Add(n: nat, m: nat)
    ensures Pow2(n + m) == Pow2(n) * Pow2(m)
    decreases n
  {
    if n > 0 {
      Pow2Add(n - 1, m);
      MulAssoc(2, Pow2(n - 1), Pow2(m));
    }
  }

  lemma XorBelow32(a: nat, b: nat)
    requires a < TWO32 && b < TWO32
    ensures Xor(a, b) < TWO32
  {
    assert Pow2(4) == 16;
    Pow2Add(4, 4);
    assert Pow2(8) == 256;
    Pow2Add(8, 8);
    assert Pow2(16) == 65536;
    Pow2Add(16, 16);
    assert Pow2(32) == TWO32;
    XorBelow(a, b, 32);
  }

  /** An `int8` key holding an `int4` value hashes exactly as the `int4`
      key does, so cross-type hash joins of integers agree. */
  lemma Int8HashMatchesInt4(v: int)
    requires IsInt32(v)
    ensures Int8HashWord(v) == Int4HashWord(v)
  {
    if v >= 0 {
      assert v / TWO32 == 0;
    } else {
      assert v / TWO32 == -1;
    }
    XorZero(v % TWO32);
  }

  /** `USECS_PER_DAY`. */
  const USECS_PER_DAY: int := 86_400_000_000

  /** `Interval`: microseconds, days and months. */
  datatype Interval = Interval(time: int, day: int, month: int)

  predicate ValidInterval(i: Interval)
  {
    IsInt64(i.time) && IsInt32(i.day) && IsInt32(i.month)
  }

  /** The 64-bit pattern `pg_interval_devtype_hashfunc` hashes: whole days
      (a month counting as 30) xor the microseconds left over, both with C's
      truncating division. */
  function IntervalHashWord(i: Interval): nat
    requires ValidInterval(i)
  {
    var frac := CMod(i.time, USECS_PER_DAY);
    var days := CDiv(i.time, USECS_PER_DAY) + i.month * 30 + i.day;
    Xor(WrapU(days, 64), WrapU(frac, 64))
  }

  /** A month hashes like thirty days. */
  lemma IntervalMonthIsThirtyDays(t: int, d: int, m: int)
    requires ValidInterval(Interval(t, d, m + 1)) && ValidInterval(Interval(t, d + 30, m))
    ensures IntervalHashWord(Interval(t, d, m + 1)) == IntervalHashWord(Interval(t, d + 30, m))
  {
    assert (m + 1) * 30 + d == m * 30 + (d + 30);
  }

  /** For non-negative times, a day's worth of microseconds hashes like one
      day. */
  lemma IntervalDayIsUsecsPerDay(t: int, d: int, m: int)
    requires t >= 0
    requires ValidInterval(Interval(t + USECS_PER_DAY, d, m)) && ValidInterval(Interval(t, d + 1, m))
    ensures IntervalHashWord(Interval(t + USECS_PER_DAY, d, m)) == IntervalHashWord(Interval(t, d + 1, m))
  {
    assert (t + USECS_PER_DAY) / USECS_PER_DAY == t / USECS_PER_DAY + 1;
    assert (t + USECS_PER_DAY) % USECS_PER_DAY == t % USECS_PER_DAY;
  }

  // ------------------------------------------------------------------
  // Result widths of varlena expressions
  // ------------------------------------------------------------------

  /** One arm of `COALESCE`, `LEAST`/`GREATEST` or `CASE WHEN`: an unknown
      (negative) width makes the result unknown for good; otherwise the
      result is the widest arm. */
  function CombineWidth(maxlen: int, width: int): int
  {
    if width < 0 then -1
    else if maxlen >= 0 then Max(maxlen, width)
    else maxlen
  }

  function Max(a: int, b: int): int { if a >= b then a else b }

  /** The width after all arms, from the initial 0. */
  function CombineWidths(widths: seq<int>): (r: int)
    ensures r == -1 <==> exists k :: 0 <= k < |widths| && widths[k] < 0
    ensures r >= 0 ==> forall k :: 0 <= k < |widths| ==> widths[k] <= r
    ensures r >= 0 ==> r == 0 || exists k :: 0 <= k < |widths| && widths[k] == r
    ensures r >= -1
  {
    if widths == [] then 0
    else
      var prev := CombineWidths(widths[..|widths| - 1]);
      assert forall k :: 0 <= k < |widths| - 1 ==> widths[..|widths| - 1][k] == widths[k];
      CombineWidth(prev, widths[|widths| - 1])
  }

  /** Once an arm of unknown width has been seen, later arms do not matter. */
  lemma {:induction false} CombineWidthsSticky(ws: seq<int>, more: seq<int>)
    requires CombineWidths(ws) == -1
    ensures CombineWidths(ws + more) == -1
  {
    assert (ws + more)[..|ws|] == ws;
    var k :| 0 <= k < |ws| && ws[k] < 0;
    assert (ws + more)[k] == ws[k];
  }

  /** `VARHDRSZ`. */
  const VARHDRSZ: nat := 4

  datatype Estimate = Estimate(width: int, extraBufsz: int)

  /** `vlbuf_estimate_textcat`: the concatenation is as wide as its arguments
      together, and reserves that much varlena buffer; an argument of unknown
      width is an error. */
  method EstimateTextcat(widths: seq<int>, extraBufsz: int) returns (r: Result<Estimate>)
    ensures r.Err? <==> exists k :: 0 <= k < |widths| && widths[k] < 0
    ensures r.Ok? ==> r.value.width == Sum(widths) >= 0
    ensures r.Ok? ==> r.value.extraBufsz == extraBufsz + MaxAlign(Sum(widths) + VARHDRSZ)
  {
    var maxlen := 0;
    var i := 0;
    while i < |widths|
      invariant 0 <= i <= |widths|
      invariant forall k :: 0 <= k < i ==> widths[k] >= 0
      invariant maxlen == Sum(widths[..i]) && maxlen >= 0
    {
      if widths[i] < 0 {
        return Err("unable to estimate result size of textcat");
      }
      assert widths[..i + 1] == widths[..i] + [widths[i]];
      SumAppend(widths[..i], widths[i]);
      maxlen := maxlen + widths[i];
      i := i + 1;
    }
    assert widths[..i] == widths;
    return Ok(Estimate(maxlen, extraBufsz + MaxAlign(maxlen + VARHDRSZ)));
  }

  /** The third argument of `substring` as the planner sees it. */
  datatype LengthArg = NoLengthArg | NonConst | ConstNull | ConstInt(v: int)

  /** `vlbuf_estimate_substring`: a constant length bounds the result (a null
      or negative one gives 0); otherwise the result is as wide as the string. */
  function EstimateSubstring(len: LengthArg, strWidth: int): (r: int)
    requires len.ConstInt? ==> IsInt32(len.v)
    ensures len.ConstInt? ==> r >= 0 && r >= len.v && (r == len.v || r == 0)
    ensures len.ConstNull? ==> r == 0
    ensures (len.NoLengthArg? || len.NonConst?) ==> r == strWidth
  {
    match len
    case ConstNull => 0
    case ConstInt(v) => Max(v, 0)
    case _ => strWidth
  }

  // ------------------------------------------------------------------
  // Catalog matching in pgstrom_devfunc_construct
  // ------------------------------------------------------------------

  /** `"rettype proname(arg1,arg2,...)"`, the signature the catalog is keyed
      on. */
  function Signature(rettype: string, proname: string, args: seq<string>): string
  {
    rettype + " " + proname + "(" + JoinArgs(args) + ")"
  }

  function JoinArgs(args: seq<string>): string
  {
    if args == [] then "" else if |args| == 1 then args[0] else JoinArgs(args[..|args| - 1]) + "," + args[|args| - 1]
  }

  /** Length of the common prefix of `s` and `p`, as the matching loop walks it. */
  function CommonPrefix(s: string, p: string): (n: nat)
    ensures n <= |s| && n <= |p|
    ensures s[..n] == p[..n]
    ensures n < |s| && n < |p| ==> s[n] != p[n]
  {
    if s == [] || p == [] || s[0] != p[0] then 0
    else
      var n := CommonPrefix(s[1..], p[1..]);
      assert s[..n + 1] == [s[0]] + s[1..][..n];
      assert p[..n + 1] == [p[0]] + p[1..][..n];
      n + 1
  }

  /** The fuzzy test: the name after the signature's first blank is `proname`,
      directly followed by `(`. Strings here end where the C string's NUL is. */
  function FuzzyMatch(signature: string, proname: string): (b: bool)
    ensures b <==> NamedAfterBlank(signature, proname)
  {
    match IndexOf(signature, ' ')
    case None => false
    case Some(sp) =>
      var after := signature[sp + 1..];
      var n := CommonPrefix(after, proname);
      n == |proname| && n < |after| && after[n] == '('
  }

  /** The reference reading: after the first blank come `proname` and `(`. */
  predicate NamedAfterBlank(signature: string, proname: string)
  {
    match IndexOf(signature, ' ')
    case None => false
    case Some(sp) =>
      var after := signature[sp + 1..];
      |after| > |proname| && after[..|proname|] == proname && after[|proname|] == '('
  }

  /** The signature built for a function fuzzily matches every catalog
      signature with the same name, whatever its argument types, provided the
      result type name has no blank. */
  lemma SignatureMatchesName(rettype: string, proname: string, args: seq<string>)
    requires ' ' !in rettype
    ensures FuzzyMatch(Signature(rettype, proname, args), proname)
  {
    var sig := Signature(rettype, proname, args);
    var sp := IndexOf(sig, ' ');
    assert sig[|rettype|] == ' ';
    assert ' ' !in sig[..|rettype|] by {
      assert sig[..|rettype|] == rettype;
    }
    assert sp.value == |rettype|;
    var after := sig[|rettype| + 1..];
    assert after == proname + "(" + JoinArgs(args) + ")";
    assert after[..|proname|] == proname;
    assert after[|proname|] == '(';
  }

  /** One entry of `devfunc_common_catalog`. */
  datatype CatalogEntry = CatalogEntry(extension: Option<string>, signature: string)

  /** An entry is considered only when it belongs to the same extension (or
      both to none). */
  predicate Visible(e: CatalogEntry, ext: Option<string>)
  {
    e.extension == ext
  }

  /** The outcome of the catalog scan. An exact match also carries the fuzzy
      matches seen before it: when its template does not construct, the
      implicit-relabel fallback is still tried with them. */
  datatype Lookup = Exact(index: nat, fuzzy: Option<(nat, nat)>) | Fuzzy(head: nat, tail: nat) | NotFound

  predicate ExactAt(catalog: seq<CatalogEntry>, ext: Option<string>, sig: string, k: nat)
    requires k < |catalog|
  {
    Visible(catalog[k], ext) && catalog[k].signature == sig
  }

  predicate FuzzyAt(catalog: seq<CatalogEntry>, ext: Option<string>, proname: string, k: nat)
    requires k < |catalog|
  {
    Visible(catalog[k], ext) && FuzzyMatch(catalog[k].signature, proname)
  }

  /** No exact entry among the first `i`. */
  predicate NoExactBelow(catalog: seq<CatalogEntry>, ext: Option<string>, sig: string, i: nat)
    requires i <= |catalog|
  {
    forall k :: 0 <= k < i ==> !ExactAt(catalog, ext, sig, k)
  }

  /** Among the first `i` entries, `head` and `tail` are the first and last
      fuzzy matches (both -1 when there is none). */
  predicate FuzzyBounds(catalog: seq<CatalogEntry>, ext: Option<string>, proname: string, i: nat,
                        head: int, tail: int)
    requires i <= |catalog|
  {
    if head < 0 then tail < 0 && forall k :: 0 <= k < i ==> !FuzzyAt(catalog, ext, proname, k)
    else
      && head <= tail < i
      && FuzzyAt(catalog, ext, proname, head)
      && FuzzyAt(catalog, ext, proname, tail)
      && forall k :: 0 <= k < i && FuzzyAt(catalog, ext, proname, k) ==> head <= k <= tail
  }

  /** `FuzzyBounds` for an optional (head, tail) pair. */
  predicate FuzzyFound(catalog: seq<CatalogEntry>, ext: Option<string>, proname: string, i: nat,
                       f: Option<(nat, nat)>)
    requires i <= |catalog|
  {
    match f
    case None => FuzzyBounds(catalog, ext, proname, i, -1, -1)
    case Some(p) => FuzzyBounds(catalog, ext, proname, i, p.0, p.1)
  }

  lemma FuzzyBoundsStep(catalog: seq<CatalogEntry>, ext: Option<string>, proname: string, i: nat,
                        head: int, tail: int)
    requires i < |catalog|
    requires FuzzyBounds(catalog, ext, proname, i, head, tail)
    ensures var m := FuzzyAt(catalog, ext, proname, i);
      FuzzyBounds(catalog, ext, proname, i + 1, if m && head < 0 then i else head, if m then i else tail)
  {
  }

  lemma NoExactStep(catalog: seq<CatalogEntry>, ext: Option<string>, sig: string, i: nat)
    requires i < |catalog|
    requires NoExactBelow(catalog, ext, sig, i) && !ExactAt(catalog, ext, sig, i)
    ensures NoExactBelow(catalog, ext, sig, i + 1)
  {
  }

  /** The catalog scan: the first visible entry with the exact signature,
      together with the first and last visible fuzzy matches before it; if
      there is no exact entry, the first and last fuzzy matches overall. */
  method ScanCatalog(catalog: seq<CatalogEntry>, ext: Option<string>, sig: string, proname: string)
    returns (r: Lookup)
    ensures r.Exact? ==>
      r.index < |catalog| && ExactAt(catalog, ext, sig, r.index) && NoExactBelow(catalog, ext, sig, r.index)
    ensures r.Exact? ==> FuzzyFound(catalog, ext, proname, r.index, r.fuzzy)
    ensures !r.Exact? ==> NoExactBelow(catalog, ext, sig, |catalog|)
    ensures r.Fuzzy? ==> FuzzyBounds(catalog, ext, proname, |catalog|, r.head, r.tail)
    ensures r.NotFound? ==> forall k :: 0 <= k < |catalog| ==> !FuzzyAt(catalog, ext, proname, k)
  {
    var head := -1;
    var tail := -1;
    var i := 0;
    while i < |catalog|
      invariant 0 <= i <= |catalog|
      invariant NoExactBelow(catalog, ext, sig, i)
      invariant FuzzyBounds(catalog, ext, proname, i, head, tail)
    {
      if ExactAt(catalog, ext, sig, i) {
        return Exact(i, if head < 0 then None else Some((head, tail)));
      }
      NoExactStep(catalog, ext, sig, i);
      FuzzyBoundsStep(catalog, ext, proname, i, head, tail);
      if FuzzyAt(catalog, ext, proname, i) {
        if head < 0 {
          head := i;
        }
        tail := i;
      }
      i := i + 1;
    }
    if head >= 0 {
      return Fuzzy(head, tail);
    }
    return NotFound;
  }

  // ------------------------------------------------------------------
  // pgstrom_devtype_lookup_by_name: "name@extension"
  // ------------------------------------------------------------------

  /** Splits a type identifier at its first `@` into the type name and the
      extension name. */
  function SplitTypeIdent(ident: string): (r: (string, Option<string>))
    ensures '@' !in r.0
    ensures r.1.None? <==> '@' !in ident
  {
    match IndexOf(ident, '@')
    case None => (ident, None)
    case Some(i) => (ident[..i], Some(ident[i + 1..]))
  }

  function JoinTypeIdent(name: string, ext: Option<string>): string
  {
    match ext
    case None => name
    case Some(e) => name + "@" + e
  }

  /** Splitting and joining are inverse: every identifier is rebuilt from
      its parts, and parts whose name has no `@` are recovered (the extension
      may itself contain `@`). */
  lemma TypeIdentRoundTrip(ident: string, name: string, ext: Option<string>)
    ensures JoinTypeIdent(SplitTypeIdent(ident).0, SplitTypeIdent(ident).1) == ident
    ensures '@' !in name ==> SplitTypeIdent(JoinTypeIdent(name, ext)) == (name, ext)
  {
    var i := IndexOf(ident, '@');
    if i.Some? {
      assert ident == ident[..i.value] + "@" + ident[i.value + 1..];
    }
    if '@' !in name && ext.Some? {
      var s := name + "@" + ext.value;
      assert s[|name|] == '@';
      assert s[..|name|] == name;
      assert IndexOf(s, '@').value == |name|;
      assert s[|name| + 1..] == ext.value;
    }
  }
}
