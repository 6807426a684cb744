/** Column metadata of a data store (`kern_colmeta`): the cached byte offset of
    each attribute inside a heap tuple, and the extra metadata slots that array
    elements and composite sub-fields occupy after the top-level columns.

    Catalog lookups become data: a `TypeRef` is what the type cache returned
    for a type OID (`Missing` when the lookup failed, as for the zero type OID
    a dropped column carries). */
module ColumnMeta {
  import opened Common
  import KdsInsert

  /** An attribute of a row type (`Form_pg_attribute`). */
  datatype Attr = Attr(
    name: string,
    attnum: int,
    attbyval: bool,
    attalign: char,
    attlen: int,
    typ: TypeRef,
    typmod: int,
    dropped: bool)

  /** A `pg_type` row, flattened: `elem` is present when `typelem` is a valid
      OID, and `hasRelid` says whether `typrelid` is; for a type with a relation
      `attrs` and `hasOid` describe its row descriptor. */
  datatype TypeRef =
    | Missing
    | Found(typlen: int, typbyval: bool, typalign: char, typtype: char,
            elem: Option<TypeRef>, hasRelid: bool, hasOid: bool, attrs: seq<Attr>)

  datatype TypeKind = KindNull | KindBase | KindDomain | KindEnum | KindPseudo | KindRange
                    | KindArray | KindComposite

  datatype ColMeta = ColMeta(
    attbyval: bool,
    attalign: char,
    attlen: int,
    attnum: int,
    attcacheoff: int,
    typmod: int,
    kind: TypeKind,
    idxSubattrs: nat,
    numSubattrs: nat,
    name: string)

  // ------------------------------------------------------------------
  // attcacheoff propagation
  // ------------------------------------------------------------------

  /** The byte width `att_align_nominal` rounds to: `i` int, `c` char, `d`
      double; anything else is treated as `s` short. */
  function AlignWidth(attalign: char): (r: nat)
    ensures IsAlignment(r)
  {
    if attalign == 'i' then 4
    else if attalign == 'c' then 1
    else if attalign == 'd' then 8
    else 2
  }

  function AlignNominal(off: nat, attalign: char): (r: nat)
    ensures r % AlignWidth(attalign) == 0 && off <= r < off + AlignWidth(attalign)
  {
    var a := AlignWidth(attalign);
    AlignUpBounds(a, off);
    AlignUp(a, off)
  }

  /** The column's `attcacheoff` and the running offset after it (`None` when
      the caller passed no offset pointer). */
  datatype OffsetOut = OffsetOut(cacheoff: int, next: Option<int>)

  /** The offset part of `__init_kernel_column_metadata`. */
  function OffsetStep(attlen: int, attalign: char, off: Option<int>): (r: Result<OffsetOut>)
    ensures r.Err? <==> attlen == 0 || attlen < -1
    ensures r.Ok? && (off.None? || off.value < 0) ==> r.value == OffsetOut(-1, off)
    ensures r.Ok? && off.Some? && off.value >= 0 && attlen > 0 ==>
      var c := r.value.cacheoff;
      && off.value <= c < off.value + AlignWidth(attalign)
      && c % AlignWidth(attalign) == 0
      && r.value.next == Some(c + attlen)
    ensures r.Ok? && off.Some? && off.value >= 0 && attlen == -1 ==>
      && r.value.next == Some(-1)
      && (r.value.cacheoff == off.value <==> off.value % AlignWidth(attalign) == 0)
      && (r.value.cacheoff != off.value ==> r.value.cacheoff == -1)
  {
    if attlen == 0 || attlen < -1 then Err("attribute has unexpected length")
    else if off.None? || off.value < 0 then Ok(OffsetOut(-1, off))
    else if attlen > 0 then
      var c := AlignNominal(off.value, attalign);
      Ok(OffsetOut(c, Some(c + attlen)))
    else
      var aligned := AlignNominal(off.value, attalign);
      if off.value == aligned then Ok(OffsetOut(aligned, Some(-1)))
      else Ok(OffsetOut(-1, Some(-1)))
  }

  /** The `attcacheoff` values of a row of columns, threading the running
      offset from `start`; `None` when a column has an invalid length. */
  function Offsets(attrs: seq<Attr>, start: int): (r: Option<seq<int>>)
    ensures r.Some? ==> |r.value| == |attrs|
  {
    if attrs == [] then Some([])
    else match OffsetStep(attrs[0].attlen, attrs[0].attalign, Some(start))
      case Err(_) => None
      case Ok(o) =>
        match Offsets(attrs[1..], o.next.value)
        case None => None
        case Some(rest) => Some([o.cacheoff] + rest)
  }

  /** Every cached offset is -1 or a multiple of its column's alignment. */
  lemma {:induction false} OffsetsAligned(attrs: seq<Attr>, start: int, j: nat)
    requires Offsets(attrs, start).Some? && j < |attrs|
    ensures var c := Offsets(attrs, start).value[j];
      c == -1 || (c >= 0 && c % AlignWidth(attrs[j].attalign) == 0)
    decreases j
  {
    var o := OffsetStep(attrs[0].attlen, attrs[0].attalign, Some(start)).value;
    if j > 0 {
      OffsetsAligned(attrs[1..], o.next.value, j - 1);
    } else if start >= 0 && attrs[0].attlen == -1 && o.cacheoff == start {
      assert start % AlignWidth(attrs[0].attalign) == 0;
    }
  }

  /** Once the running offset is lost it stays lost: every later column has
      no cached offset. */
  lemma {:induction false} OffsetsStayUnknown(attrs: seq<Attr>, start: int, j: nat)
    requires start < 0
    requires Offsets(attrs, start).Some? && j < |attrs|
    ensures Offsets(attrs, start).value[j] == -1
    decreases j
  {
    if j > 0 {
      OffsetsStayUnknown(attrs[1..], start, j - 1);
    }
  }

  /** A variable-length column makes the offsets of all later columns unknown. */
  lemma VarlenaPoisonsLater(attrs: seq<Attr>, start: int, i: nat, j: nat)
    requires Offsets(attrs, start).Some?
    requires i < j < |attrs| && attrs[i].attlen == -1
    ensures Offsets(attrs, start).value[j] == -1
  {
    OffsetsSuffix(attrs, start, i);
    var s := OffsetsFrom(attrs, start, i);
    var o := OffsetStep(attrs[i].attlen, attrs[i].attalign, Some(s)).value;
    assert o.next.value < 0;
    assert attrs[i..][1..] == attrs[i + 1..];
    OffsetsStayUnknown(attrs[i + 1..], o.next.value, j - i - 1);
    OffsetsSuffix(attrs, start, i + 1);
  }

  /** The running offset before column `i`. */
  function OffsetsFrom(attrs: seq<Attr>, start: int, i: nat): int
    requires i <= |attrs|
    requires Offsets(attrs, start).Some?
    decreases i
  {
    if i == 0 then start
    else
      var o := OffsetStep(attrs[0].attlen, attrs[0].attalign, Some(start)).value;
      OffsetsFrom(attrs[1..], o.next.value, i - 1)
  }

  /** The offsets of a row are the offsets of its first `i` columns followed by
      those of the rest, started from the running offset at `i`. */
  lemma {:induction false} OffsetsSuffix(attrs: seq<Attr>, start: int, i: nat)
    requires i <= |attrs|
    requires Offsets(attrs, start).Some?
    ensures Offsets(attrs[i..], OffsetsFrom(attrs, start, i)).Some?
    ensures Offsets(attrs[i..], OffsetsFrom(attrs, start, i)).value == Offsets(attrs, start).value[i..]
    decreases i
  {
    if i > 0 {
      var o := OffsetStep(attrs[0].attlen, attrs[0].attalign, Some(start)).value;
      OffsetsSuffix(attrs[1..], o.next.value, i - 1);
      assert attrs[1..][i - 1..] == attrs[i..];
    }
  }

  /** Fixed-length columns from an aligned start are packed: each column sits
      at the first aligned offset after the end of the previous one. */
  lemma FixedColumnsPacked(attrs: seq<Attr>, start: int, j: nat)
    requires start >= 0
    requires Offsets(attrs, start).Some?
    requires j + 1 < |attrs|
    requires forall k :: 0 <= k <= j + 1 ==> attrs[k].attlen > 0
    ensures var offs := Offsets(attrs, start).value;
      offs[j] >= 0 && offs[j + 1] == AlignNominal(offs[j] + attrs[j].attlen, attrs[j + 1].attalign)
  {
    FixedPrefixKnown(attrs, start, j);
    FixedPrefixKnown(attrs, start, j + 1);
    OffsetAt(attrs, start, j);
    OffsetAt(attrs, start, j + 1);
    var s := OffsetsFrom(attrs, start, j + 1);
    assert OffsetStep(attrs[j + 1].attlen, attrs[j + 1].attalign, Some(s)).value.cacheoff
        == AlignNominal(s, attrs[j + 1].attalign);
  }

  /** Column `i`'s cached offset is the one `OffsetStep` gives it from the
      running offset before it. */
  lemma OffsetAt(attrs: seq<Attr>, start: int, i: nat)
    requires i < |attrs|
    requires Offsets(attrs, start).Some?
    ensures OffsetStep(attrs[i].attlen, attrs[i].attalign, Some(OffsetsFrom(attrs, start, i))).Ok?
    ensures Offsets(attrs, start).value[i] ==
      OffsetStep(attrs[i].attlen, attrs[i].attalign, Some(OffsetsFrom(attrs, start, i))).value.cacheoff
  {
    OffsetsSuffix(attrs, start, i);
    assert attrs[i..][0] == attrs[i];
    assert Offsets(attrs, start).value[i] == Offsets(attrs[i..], OffsetsFrom(attrs, start, i)).value[0];
  }

  /** Over a prefix of fixed-length columns the running offset stays known. */
  lemma {:induction false} FixedPrefixKnown(attrs: seq<Attr>, start: int, j: nat)
    requires start >= 0
    requires Offsets(attrs, start).Some?
    requires j < |attrs|
    requires forall k :: 0 <= k < j ==> attrs[k].attlen > 0
    ensures OffsetsFrom(attrs, start, j) >= 0
    ensures j > 0 ==> OffsetsFrom(attrs, start, j) == Offsets(attrs, start).value[j - 1] + attrs[j - 1].attlen
    decreases j
  {
    if j > 0 {
      var o := OffsetStep(attrs[0].attlen, attrs[0].attalign, Some(start)).value;
      FixedPrefixKnown(attrs[1..], o.next.value, j - 1);
    }
  }

  // ------------------------------------------------------------------
  // count_num_of_subfields
  // ------------------------------------------------------------------

  predicate IsArrayType(t: TypeRef)
  {
    t.Found? && t.elem.Some? && t.typlen == -1
  }

  /** `count_num_of_subfields`: metadata slots a column of this type needs
      beyond its own. */
  function CountSubfields(t: TypeRef): Result<nat>
    decreases t, 1
  {
    match t
    case Missing => Err("cache lookup failed for type")
    case Found(_, _, _, _, _, _, _, _) =>
      if IsArrayType(t) then
        match CountSubfields(t.elem.value)
        case Err(e) => Err(e)
        case Ok(n) => Ok(1 + n)
      else if t.typtype == 'c' && t.hasRelid then
        match CountAttrs(t, 0)
        case Err(e) => Err(e)
        case Ok(n) => Ok(|t.attrs| + n)
      else Ok(0)
  }

  /** Sum of `count_num_of_subfields` over the sub-attributes `j..`. */
  function CountAttrs(parent: TypeRef, j: nat): Result<nat>
    requires parent.Found? && j <= |parent.attrs|
    decreases parent, 0, |parent.attrs| - j
  {
    if j == |parent.attrs| then Ok(0)
    else match CountSubfields(parent.attrs[j].typ)
      case Err(e) => Err(e)
      case Ok(n) =>
        match CountAttrs(parent, j + 1)
        case Err(e) => Err(e)
        case Ok(m) => Ok(n + m)
  }

  // ------------------------------------------------------------------
  // __init_kernel_column_metadata
  // ------------------------------------------------------------------

  /** The part of the data store the metadata initialisation writes. */
  datatype InitState = InitState(cm: map<nat, ColMeta>, nr: nat, hasVarlena: bool)

  datatype Init = Init(st: InitState, off: Option<int>)

  /** The slot table grew by exactly `idx` and the freshly allocated slots, and
      left every other earlier slot alone. */
  ghost predicate Extends(st: InitState, st2: InitState, idx: nat)
  {
    && st.nr <= st2.nr
    && (forall k :: k in st2.cm <==> k in st.cm || k == idx || st.nr <= k < st2.nr)
    && (forall k :: k in st.cm && k != idx && k < st.nr ==> st2.cm[k] == st.cm[k])
  }

  /** A sub-attribute row starts at `MAXALIGN(offsetof(HeapTupleHeaderData,
      t_bits) [+ sizeof(Oid)])` for the formats that hold heap tuples. */
  function RowStartOffset(fmt: KdsInsert.KdsFormat, hasOid: bool): int
  {
    if fmt == KdsInsert.RowFormat || fmt == KdsInsert.HashFormat || fmt == KdsInsert.BlockFormat
    then MaxAlign(23 + (if hasOid then 4 else 0))
    else -1
  }

  function ScalarKind(typtype: char): Option<TypeKind>
  {
    if typtype == 'b' then Some(KindBase)
    else if typtype == 'd' then Some(KindDomain)
    else if typtype == 'e' then Some(KindEnum)
    else if typtype == 'p' then Some(KindPseudo)
    else if typtype == 'r' then Some(KindRange)
    else None
  }

  /** `__init_kernel_column_metadata(kds, idx, a, off)`: fills slot `idx`,
      allocates and fills the slots of array elements and composite
      sub-fields, and returns the updated running offset. */
  function InitColumn(st: InitState, idx: nat, a: Attr, off: Option<int>, fmt: KdsInsert.KdsFormat): (r: Result<Init>)
    requires idx < st.nr
    ensures r.Ok? ==> Extends(st, r.value.st, idx)
    ensures r.Ok? ==> OffsetStep(a.attlen, a.attalign, off).Ok?
    ensures r.Ok? ==> r.value.st.cm[idx].attcacheoff == OffsetStep(a.attlen, a.attalign, off).value.cacheoff
    ensures r.Ok? ==> r.value.off == OffsetStep(a.attlen, a.attalign, off).value.next
    decreases a.typ, 2
  {
    match OffsetStep(a.attlen, a.attalign, off)
    case Err(e) => Err(e)
    case Ok(o) =>
      var t := a.typ;
      if t.Missing? then
        Ok(Init(Claim(st, idx, a, SlotMeta(a, o.cacheoff), 0), o.next))
      else if IsArrayType(t) then
        match InitColumn(Claim(st, idx, a, ArrayMeta(a, o.cacheoff, st.nr), 1), st.nr, ElemAttr(a), None, fmt)
        case Err(e) => Err(e)
        case Ok(i) => Ok(Init(i.st, o.next))
      else if t.hasRelid then
        match InitAttrs(Claim(st, idx, a, CompositeMeta(a, o.cacheoff, st.nr), |t.attrs|), t, st.nr, 0,
                        Some(RowStartOffset(fmt, t.hasOid)), fmt)
        case Err(e) => Err(e)
        case Ok(st2) => Ok(Init(st2, o.next))
      else
        match ScalarKind(t.typtype)
        case None => Err("unexpected typtype")
        case Some(kind) => Ok(Init(Claim(st, idx, a, SlotMeta(a, o.cacheoff).(kind := kind), 0), o.next))
  }

  /** The slot of attribute `a`, before its kind is known. */
  function SlotMeta(a: Attr, cacheoff: int): ColMeta
  {
    ColMeta(a.attbyval, a.attalign, a.attlen, a.attnum, cacheoff, a.typmod, KindNull, 0, 0, a.name)
  }

  /** An array slot: its one element slot is the next free one. */
  function ArrayMeta(a: Attr, cacheoff: int, sub: nat): ColMeta
  {
    SlotMeta(a, cacheoff).(kind := KindArray, idxSubattrs := sub, numSubattrs := 1)
  }

  /** A composite slot: its sub-field slots start at the next free one. */
  function CompositeMeta(a: Attr, cacheoff: int, sub: nat): ColMeta
    requires a.typ.Found?
  {
    SlotMeta(a, cacheoff).(kind := KindComposite, idxSubattrs := sub, numSubattrs := |a.typ.attrs|)
  }

  /** The pseudo attribute of an array's elements: named after the array,
      typed with the element type, and carrying the array type's own
      `typlen`, `typbyval` and `typalign`, as the source copies them. */
  function ElemAttr(a: Attr): Attr
    requires IsArrayType(a.typ)
  {
    var t := a.typ;
    Attr("__" + a.name, 1, t.typbyval, t.typalign, t.typlen, t.elem.value, -1, false)
  }

  /** Writes slot `idx`, allocates `n` fresh slots after the current ones and
      records whether the column is variable-length. */
  function Claim(st: InitState, idx: nat, a: Attr, meta: ColMeta, n: nat): InitState
  {
    InitState(st.cm[idx := meta], st.nr + n, st.hasVarlena || a.attlen == -1)
  }

  /** The composite's sub-attributes `j..`, written to slots `base + j ..`. */
  function InitAttrs(st: InitState, parent: TypeRef, base: nat, j: nat, off: Option<int>,
                     fmt: KdsInsert.KdsFormat): (r: Result<InitState>)
    requires parent.Found? && j <= |parent.attrs|
    requires base + |parent.attrs| <= st.nr
    ensures r.Ok? ==> st.nr <= r.value.nr
    ensures r.Ok? ==> forall k :: k in r.value.cm <==>
      k in st.cm || base + j <= k < base + |parent.attrs| || st.nr <= k < r.value.nr
    ensures r.Ok? ==> forall k :: k in st.cm && !(base + j <= k < base + |parent.attrs|) && k < st.nr ==>
      r.value.cm[k] == st.cm[k]
    decreases parent, 1, |parent.attrs| - j
  {
    if j == |parent.attrs| then Ok(st)
    else match InitColumn(st, base + j, parent.attrs[j], off, fmt)
      case Err(e) => Err(e)
      case Ok(i) => InitAttrs(i.st, parent, base, j + 1, i.off, fmt)
  }

  // ------------------------------------------------------------------
  // init_kernel_data_store
  // ------------------------------------------------------------------

  /** A catalog as PostgreSQL keeps it: only composite types have a relation,
      and dropped columns carry the invalid type. */
  predicate ConsistentType(t: TypeRef)
    decreases t, 1
  {
    match t
    case Missing => true
    case Found(_, _, _, _, _, _, _, _) =>
      && (t.hasRelid ==> t.typtype == 'c')
      && (t.elem.Some? ==> ConsistentType(t.elem.value))
      && ConsistentAttrs(t, 0)
  }

  predicate ConsistentAttrs(parent: TypeRef, j: nat)
    requires parent.Found? && j <= |parent.attrs|
    decreases parent, 0, |parent.attrs| - j
  {
    j == |parent.attrs| || (ConsistentType(parent.attrs[j].typ) && ConsistentAttrs(parent, j + 1))
  }

  predicate ConsistentRow(attrs: seq<Attr>)
  {
    forall j :: 0 <= j < |attrs| ==> ConsistentType(attrs[j].typ) && (attrs[j].dropped ==> attrs[j].typ.Missing?)
  }

  /** The slot count `init_kernel_data_store` computes up front: one per
      column, the sub-fields of every live column, and the system-attribute
      slot of the column format. */
  function CountColmeta(attrs: seq<Attr>, fmt: KdsInsert.KdsFormat): Result<nat>
  {
    match CountLive(attrs)
    case Err(e) => Err(e)
    case Ok(n) => Ok(|attrs| + n + (if fmt == KdsInsert.ColumnFormat then 1 else 0))
  }

  function CountLive(attrs: seq<Attr>): Result<nat>
  {
    if attrs == [] then Ok(0)
    else
      var here := if attrs[0].dropped then Ok(0) else CountSubfields(attrs[0].typ);
      match here
      case Err(e) => Err(e)
      case Ok(n) =>
        match CountLive(attrs[1..])
        case Err(e) => Err(e)
        case Ok(m) => Ok(n + m)
  }

  /** The data-store header fields the metadata initialisation produces. */
  datatype KdsHead = KdsHead(colmeta: map<nat, ColMeta>, nrColmeta: nat, hasVarlena: bool, ncols: nat)

  /** `init_kernel_data_store` (metadata part). `sysattrLen` is
      `sizeof(GpuCacheSysattr)`, declared outside this file. */
  function InitDataStore(attrs: seq<Attr>, hasOid: bool, fmt: KdsInsert.KdsFormat, sysattrLen: int): (r: Result<KdsHead>)
    ensures r.Ok? ==> CountColmeta(attrs, fmt).Ok?
  {
    match CountColmeta(attrs, fmt)
    case Err(e) => Err(e)
    case Ok(_) =>
      var st := InitState(map[], |attrs|, false);
      match InitTop(st, attrs, 0, Some(RowStartOffset(fmt, hasOid)), fmt)
      case Err(e) => Err(e)
      case Ok(st2) =>
        if fmt == KdsInsert.ColumnFormat then
          var sys := ColMeta(true, 'i', sysattrLen, -1, -1, -1, KindBase, 0, 0, "__gcache_sysattr__");
          Ok(KdsHead(st2.cm[st2.nr := sys], st2.nr + 1, st2.hasVarlena, |attrs|))
        else Ok(KdsHead(st2.cm, st2.nr, st2.hasVarlena, |attrs|))
  }

  /** The top-level columns `j..`, each written to its own slot. */
  function InitTop(st: InitState, attrs: seq<Attr>, j: nat, off: Option<int>, fmt: KdsInsert.KdsFormat): (r: Result<InitState>)
    requires j <= |attrs| <= st.nr
    ensures r.Ok? ==> st.nr <= r.value.nr
    ensures r.Ok? ==> forall k :: k in r.value.cm <==> k in st.cm || j <= k < |attrs| || st.nr <= k < r.value.nr
    decreases |attrs| - j
  {
    if j == |attrs| then Ok(st)
    else match InitColumn(st, j, attrs[j], off, fmt)
      case Err(e) => Err(e)
      case Ok(i) => InitTop(i.st, attrs, j + 1, i.off, fmt)
  }

  /** Every metadata slot from 0 to `nr_colmeta` is written exactly by the
      initialisation and no slot beyond. */
  lemma InitDataStoreFillsSlots(attrs: seq<Attr>, hasOid: bool, fmt: KdsInsert.KdsFormat, sysattrLen: int)
    requires InitDataStore(attrs, hasOid, fmt, sysattrLen).Ok?
    ensures var h := InitDataStore(attrs, hasOid, fmt, sysattrLen).value;
      forall k :: k in h.colmeta <==> 0 <= k < h.nrColmeta
  {
  }

  // ------------------------------------------------------------------
  // Slot allocation agrees with the count (the assertion that closes
  // init_kernel_data_store)
  // ------------------------------------------------------------------

  lemma {:induction false} InitColumnAllocatesCount(st: InitState, idx: nat, a: Attr, off: Option<int>,
                                                     fmt: KdsInsert.KdsFormat)
    requires idx < st.nr
    requires ConsistentType(a.typ)
    requires InitColumn(st, idx, a, off, fmt).Ok?
    requires CountSubfields(a.typ).Ok?
    ensures InitColumn(st, idx, a, off, fmt).value.st.nr == st.nr + CountSubfields(a.typ).value
    decreases a.typ, 2
  {
    var t := a.typ;
    if IsArrayType(t) {
      ArrayColumnAllocatesCount(st, idx, a, off, fmt);
    } else if t.Found? && t.hasRelid {
      CompositeColumnAllocatesCount(st, idx, a, off, fmt);
    }
  }

  lemma {:induction false} ArrayColumnAllocatesCount(st: InitState, idx: nat, a: Attr, off: Option<int>,
                                                      fmt: KdsInsert.KdsFormat)
    requires idx < st.nr
    requires IsArrayType(a.typ) && ConsistentType(a.typ)
    requires InitColumn(st, idx, a, off, fmt).Ok?
    requires CountSubfields(a.typ).Ok?
    ensures InitColumn(st, idx, a, off, fmt).value.st.nr == st.nr + CountSubfields(a.typ).value
    decreases a.typ, 1
  {
    var o := OffsetStep(a.attlen, a.attalign, off).value;
    var st1 := Claim(st, idx, a, ArrayMeta(a, o.cacheoff, st.nr), 1);
    assert InitColumn(st, idx, a, off, fmt).value.st == InitColumn(st1, st.nr, ElemAttr(a), None, fmt).value.st;
    InitColumnAllocatesCount(st1, st.nr, ElemAttr(a), None, fmt);
  }

  lemma {:induction false} CompositeColumnAllocatesCount(st: InitState, idx: nat, a: Attr, off: Option<int>,
                                                          fmt: KdsInsert.KdsFormat)
    requires idx < st.nr
    requires !IsArrayType(a.typ) && a.typ.Found? && a.typ.hasRelid && ConsistentType(a.typ)
    requires InitColumn(st, idx, a, off, fmt).Ok?
    requires CountSubfields(a.typ).Ok?
    ensures InitColumn(st, idx, a, off, fmt).value.st.nr == st.nr + CountSubfields(a.typ).value
    decreases a.typ, 1
  {
    var o := OffsetStep(a.attlen, a.attalign, off).value;
    var t := a.typ;
    var st1 := Claim(st, idx, a, CompositeMeta(a, o.cacheoff, st.nr), |t.attrs|);
    var start := Some(RowStartOffset(fmt, t.hasOid));
    assert InitColumn(st, idx, a, off, fmt).value.st == InitAttrs(st1, t, st.nr, 0, start, fmt).value;
    InitAttrsAllocatesCount(st1, t, st.nr, 0, start, fmt);
  }

  lemma {:induction false} InitAttrsAllocatesCount(st: InitState, parent: TypeRef, base: nat, j: nat,
                                                    off: Option<int>, fmt: KdsInsert.KdsFormat)
    requires parent.Found? && j <= |parent.attrs|
    requires base + |parent.attrs| <= st.nr
    requires ConsistentAttrs(parent, j)
    requires InitAttrs(st, parent, base, j, off, fmt).Ok?
    requires CountAttrs(parent, j).Ok?
    ensures InitAttrs(st, parent, base, j, off, fmt).value.nr == st.nr + CountAttrs(parent, j).value
    decreases parent, 1, |parent.attrs| - j
  {
    if j < |parent.attrs| {
      var i := InitColumn(st, base + j, parent.attrs[j], off, fmt).value;
      InitColumnAllocatesCount(st, base + j, parent.attrs[j], off, fmt);
      InitAttrsAllocatesCount(i.st, parent, base, j + 1, i.off, fmt);
    }
  }

  lemma {:induction false} InitTopAllocatesCount(st: InitState, attrs: seq<Attr>, j: nat, off: Option<int>,
                                                  fmt: KdsInsert.KdsFormat)
    requires j <= |attrs| <= st.nr
    requires ConsistentRow(attrs)
    requires InitTop(st, attrs, j, off, fmt).Ok?
    requires CountLive(attrs[j..]).Ok?
    ensures InitTop(st, attrs, j, off, fmt).value.nr == st.nr + CountLive(attrs[j..]).value
    decreases |attrs| - j
  {
    if j < |attrs| {
      var i := InitColumn(st, j, attrs[j], off, fmt).value;
      assert attrs[j..][1..] == attrs[j + 1..];
      assert attrs[j..][0] == attrs[j];
      if !attrs[j].dropped {
        InitColumnAllocatesCount(st, j, attrs[j], off, fmt);
      }
      InitTopAllocatesCount(i.st, attrs, j + 1, i.off, fmt);
    }
  }

  /** `Assert(kds->nr_colmeta == nr_colmeta)` holds: the slots the
      initialisation allocates are exactly the slots counted up front. */
  lemma NrColmetaMatchesCount(attrs: seq<Attr>, hasOid: bool, fmt: KdsInsert.KdsFormat, sysattrLen: int)
    requires ConsistentRow(attrs)
    requires InitDataStore(attrs, hasOid, fmt, sysattrLen).Ok?
    ensures InitDataStore(attrs, hasOid, fmt, sysattrLen).value.nrColmeta == CountColmeta(attrs, fmt).value
  {
    var st := InitState(map[], |attrs|, false);
    assert attrs[0..] == attrs;
    InitTopAllocatesCount(st, attrs, 0, Some(RowStartOffset(fmt, hasOid)), fmt);
  }
}
