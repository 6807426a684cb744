/** Bump allocation in a row- or hash-format data store (`kern_data_store`).

    The store is one buffer of `length` bytes: a header, then the row index
    growing from the head (one `cl_uint` per item), then (hash format only) the
    hash-slot array, and finally the tuple payload growing backwards from the
    tail. `usage` counts the payload bytes in use. The packed-offset encoding of
    `usage` and of the row index is taken as the identity here. */
module KdsInsert {
  import opened Common

  datatype KdsFormat = RowFormat | HashFormat | BlockFormat | SlotFormat | ColumnFormat | ArrowFormat

  /** `ItemPointerData`: (block number, line-pointer offset). */
  datatype ItemPointer = ItemPointer(block: nat, offset: nat)

  /** The parts of a `HeapTuple` the insertion uses. */
  datatype HeapTuple = HeapTuple(tLen: u32, tSelf: ItemPointer, data: seq<byte>)

  /** The hash item header in front of a hash-format tuple. */
  datatype HashHeader = HashHeader(hash: u32, next: u32)

  /** One payload record: where it starts, how many bytes it spans, its row id,
      the copied tuple with `t_ctid` overwritten by `t_self`, and for the hash
      format its hash header. */
  datatype Item = Item(offset: nat, span: nat, rowid: nat, tuple: HeapTuple, ctid: ItemPointer,
                       header: Option<HashHeader>)

  datatype Kds = Kds(
    format: KdsFormat,
    length: nat,
    headLength: nat,
    nrooms: nat,
    usage: nat,
    rowIndex: seq<nat>,
    items: seq<Item>)
  {
    function nitems(): nat { |rowIndex| }
  }

  /** `offsetof(kern_tupitem, htup)`: `t_len` and `rowid` precede the header. */
  const TUPITEM_HTUP_OFFSET: nat := 8
  /** `offsetof(kern_hashitem, t)`: `hash` and `next` precede the tuple item. */
  const HASHITEM_T_OFFSET: nat := 8
  /** `offsetof(kern_hashitem, t.htup)`. */
  const HASHITEM_HTUP_OFFSET: nat := HASHITEM_T_OFFSET + TUPITEM_HTUP_OFFSET

  /** The `next` value a fresh hash item carries until the slots are built. */
  const HASH_NEXT_PLACEHOLDER: u32 := 0x7f7f_7f7f

  /** Outcome of an insertion: the updated store, `false` (no room, store
      unchanged), or `elog(ERROR)` for a store of the wrong format. */
  datatype InsertResult = Inserted(kds: Kds) | NoRoom | FormatError

  /** Bytes taken by the first `n` payload records. */
  function Usage(items: seq<Item>): nat
  {
    if items == [] then 0 else Usage(items[..|items| - 1]) + items[|items| - 1].span
  }

  /** Bytes of header, row index and hash slots a store with `nitems` items
      needs in front of the payload. `nslots` is the `__KDS_NSLOTS` sizing rule. */
  function FrontLength(k: Kds, nitems: nat, nslots: nat -> nat): nat
  {
    k.headLength + StromAlign(4 * nitems)
    + (if k.format == HashFormat then StromAlign(4 * nslots(nitems)) else 0)
  }

  /** Where the row index of a record points: the record itself for the row
      format, its embedded `kern_tupitem` for the hash format. */
  function IndexBias(f: KdsFormat): nat
  {
    if f == HashFormat then HASHITEM_T_OFFSET else 0
  }

  /** The well-formed store: one index entry per item, `usage` covering
      exactly the records, front plus payload within `length`, and the
      records stacked from the tail. */
  predicate Valid(k: Kds, nslots: nat -> nat)
  {
    && |k.items| == k.nitems() <= k.nrooms
    && k.usage == Usage(k.items)
    && FrontLength(k, k.nitems(), nslots) + StromAlign(k.usage) <= k.length
    && Stacked(k.items, k.rowIndex, k.length, IndexBias(k.format))
  }

  /** Row ids in order, every record directly below its predecessor from
      the tail, and each index entry pointing at its record. */
  predicate Stacked(items: seq<Item>, rowIndex: seq<nat>, length: nat, bias: nat)
  {
    && |rowIndex| == |items|
    && forall i :: 0 <= i < |items| ==>
         && items[i].rowid == i
         && items[i].offset + Usage(items[..i + 1]) == length
         && rowIndex[i] == items[i].offset + bias
  }

  /** Places a record of `span` bytes at the new tail position if the front
      area for one more index entry and the payload still fit. */
  function Place(k: Kds, nslots: nat -> nat, span: nat, tup: HeapTuple, header: Option<HashHeader>): (r: InsertResult)
    ensures !r.FormatError?
  {
    var currUsage := k.usage + span;
    if FrontLength(k, k.nitems() + 1, nslots) + StromAlign(currUsage) > k.length then NoRoom
    else
      var offset := k.length - currUsage;
      var item := Item(offset, span, k.nitems(), tup, tup.tSelf, header);
      Inserted(k.(usage := currUsage,
                  rowIndex := k.rowIndex + [offset + IndexBias(k.format)],
                  items := k.items + [item]))
  }

  /** `KDS_insert_tuple`. */
  function InsertTuple(k: Kds, nslots: nat -> nat, tup: HeapTuple): (r: InsertResult)
    ensures r.FormatError? <==> k.nitems() < k.nrooms && k.format != RowFormat
    ensures r.NoRoom? <==>
      k.nitems() >= k.nrooms
      || (k.format == RowFormat
          && k.headLength + StromAlign(4 * (k.nitems() + 1))
             + StromAlign(k.usage + MaxAlign(TUPITEM_HTUP_OFFSET + tup.tLen)) > k.length)
    ensures r.Inserted? ==> InsertedAsTail(k, r.kds, MaxAlign(TUPITEM_HTUP_OFFSET + tup.tLen), tup, None)
  {
    if k.nitems() >= k.nrooms then NoRoom
    else if k.format != RowFormat then FormatError
    else Place(k, nslots, MaxAlign(TUPITEM_HTUP_OFFSET + tup.tLen), tup, None)
  }

  /** `KDS_insert_hashitem`. */
  function InsertHashItem(k: Kds, nslots: nat -> nat, tup: HeapTuple, hash: u32): (r: InsertResult)
    ensures r.FormatError? <==> k.nitems() < k.nrooms && k.format != HashFormat
    ensures r.NoRoom? <==>
      k.nitems() >= k.nrooms
      || (k.format == HashFormat
          && k.headLength + StromAlign(4 * (k.nitems() + 1)) + StromAlign(4 * nslots(k.nitems() + 1))
             + StromAlign(k.usage + MaxAlign(HASHITEM_HTUP_OFFSET + tup.tLen)) > k.length)
    ensures r.Inserted? ==>
      InsertedAsTail(k, r.kds, MaxAlign(HASHITEM_HTUP_OFFSET + tup.tLen), tup,
                     Some(HashHeader(hash, HASH_NEXT_PLACEHOLDER)))
  {
    if k.nitems() >= k.nrooms then NoRoom
    else if k.format != HashFormat then FormatError
    else Place(k, nslots, MaxAlign(HASHITEM_HTUP_OFFSET + tup.tLen), tup,
               Some(HashHeader(hash, HASH_NEXT_PLACEHOLDER)))
  }

  /** The effect of a successful insertion: one more item, `usage` grown by the
      record's span, the record at `length - usage` with row id = the old item
      count, the index entry pointing at it, and nothing else changed. */
  predicate InsertedAsTail(k: Kds, k2: Kds, span: nat, tup: HeapTuple, header: Option<HashHeader>)
  {
    && k2.nitems() == k.nitems() + 1
    && k2.usage == k.usage + span
    && k2.length == k.length && k2.headLength == k.headLength
    && k2.nrooms == k.nrooms && k2.format == k.format
    && k2.rowIndex[..k.nitems()] == k.rowIndex
    && |k2.items| == |k.items| + 1
    && k2.items[..|k.items|] == k.items
    && var it := k2.items[|k.items|];
       && it.offset + k2.usage == k.length
       && it.span == span
       && it.rowid == k.nitems()
       && it.tuple == tup && it.ctid == tup.tSelf
       && it.header == header
       && k2.rowIndex[k.nitems()] == it.offset + IndexBias(k.format)
  }

  /** Successful insertions keep the store well-formed. */
  lemma InsertTuplePreservesValid(k: Kds, nslots: nat -> nat, tup: HeapTuple)
    requires Valid(k, nslots)
    requires InsertTuple(k, nslots, tup).Inserted?
    ensures Valid(InsertTuple(k, nslots, tup).kds, nslots)
  {
    PlacePreservesValid(k, nslots, MaxAlign(TUPITEM_HTUP_OFFSET + tup.tLen), tup, None);
  }

  lemma InsertHashItemPreservesValid(k: Kds, nslots: nat -> nat, tup: HeapTuple, hash: u32)
    requires Valid(k, nslots)
    requires InsertHashItem(k, nslots, tup, hash).Inserted?
    ensures Valid(InsertHashItem(k, nslots, tup, hash).kds, nslots)
  {
    PlacePreservesValid(k, nslots, MaxAlign(HASHITEM_HTUP_OFFSET + tup.tLen), tup,
                        Some(HashHeader(hash, HASH_NEXT_PLACEHOLDER)));
  }

  lemma PlacePreservesValid(k: Kds, nslots: nat -> nat, span: nat, tup: HeapTuple, header: Option<HashHeader>)
    requires Valid(k, nslots)
    requires k.nitems() < k.nrooms
    requires Place(k, nslots, span, tup, header).Inserted?
    ensures Valid(Place(k, nslots, span, tup, header).kds, nslots)
  {
    var item := Item(k.length - (k.usage + span), span, k.nitems(), tup, tup.tSelf, header);
    var k2 := k.(usage := k.usage + item.span, rowIndex := k.rowIndex + [item.offset + IndexBias(k.format)],
                 items := k.items + [item]);
    assert FrontLength(k, k.nitems() + 1, nslots) + StromAlign(k.usage + span) <= k.length;
    assert Place(k, nslots, span, tup, header).kds == k2;
    ValidAppend(k, k2, nslots, item);
  }

  /** Appending a record that fits directly below the stack keeps the store
      well-formed. */
  lemma ValidAppend(k: Kds, k2: Kds, nslots: nat -> nat, item: Item)
    requires k2 == k.(usage := k.usage + item.span,
                      rowIndex := k.rowIndex + [item.offset + IndexBias(k.format)],
                      items := k.items + [item])
    requires |k.items| == k.nitems() < k.nrooms
    requires k.usage == Usage(k.items)
    requires Stacked(k.items, k.rowIndex, k.length, IndexBias(k.format))
    requires item.rowid == k.nitems()
    requires item.offset + k.usage + item.span == k.length
    requires FrontLength(k, k.nitems() + 1, nslots) + StromAlign(k.usage + item.span) <= k.length
    ensures Valid(k2, nslots)
  {
    assert FrontLength(k2, k2.nitems(), nslots) == FrontLength(k, k.nitems() + 1, nslots);
    UsageAppend(k.items, item);
    StackedAppend(k.items, k.rowIndex, k.length, IndexBias(k.format), item);
    ValidIntro(k2, nslots);
  }

  /** The well-formedness conditions, one by one. */
  lemma ValidIntro(k: Kds, nslots: nat -> nat)
    requires |k.items| == k.nitems() <= k.nrooms
    requires k.usage == Usage(k.items)
    requires FrontLength(k, k.nitems(), nslots) + StromAlign(k.usage) <= k.length
    requires Stacked(k.items, k.rowIndex, k.length, IndexBias(k.format))
    ensures Valid(k, nslots)
  {
  }

  lemma UsageAppend(items: seq<Item>, item: Item)
    ensures Usage(items + [item]) == Usage(items) + item.span
  {
    assert (items + [item])[..|items|] == items;
  }

  /** A record placed directly below the stack extends it. */
  lemma StackedAppend(items: seq<Item>, rowIndex: seq<nat>, length: nat, bias: nat, item: Item)
    requires Stacked(items, rowIndex, length, bias)
    requires item.rowid == |items|
    requires item.offset + Usage(items) + item.span == length
    ensures Stacked(items + [item], rowIndex + [item.offset + bias], length, bias)
  {
    var items2 := items + [item];
    var index2 := rowIndex + [item.offset + bias];
    UsageAppend(items, item);
    assert items2[..|items| + 1] == items2;
    assert Usage(items2) == Usage(items) + item.span;
    forall i | 0 <= i < |items2|
      ensures items2[i].rowid == i
      ensures items2[i].offset + Usage(items2[..i + 1]) == length
      ensures index2[i] == items2[i].offset + bias
    {
      if i < |items| {
        assert items2[i] == items[i] && index2[i] == rowIndex[i];
        assert items2[..i + 1] == items[..i + 1];
      } else {
        assert items2[i] == item && index2[i] == item.offset + bias;
      }
    }
  }

  lemma {:induction false} UsagePrefixMonotone(items: seq<Item>, i: nat, j: nat)
    requires i <= j <= |items|
    ensures Usage(items[..i]) <= Usage(items[..j])
    decreases j - i
  {
    if i < j {
      UsagePrefixMonotone(items, i, j - 1);
      assert items[..j][..j - 1] == items[..j - 1];
    }
  }

  /** In a well-formed store, payload records never overlap one another and
      all lie between the front area and the end of the buffer. */
  lemma ItemsDisjoint(k: Kds, nslots: nat -> nat, i: nat, j: nat)
    requires Valid(k, nslots)
    requires i < j < |k.items|
    ensures k.items[j].offset + k.items[j].span <= k.items[i].offset
    ensures FrontLength(k, k.nitems(), nslots) <= k.items[j].offset
    ensures k.items[i].offset + k.items[i].span <= k.length
  {
    var items := k.items;
    assert Stacked(items, k.rowIndex, k.length, IndexBias(k.format));
    assert items[i].offset + Usage(items[..i + 1]) == k.length;
    assert items[j].offset + Usage(items[..j + 1]) == k.length;
    assert items[..|items|] == items;
    assert StromAlign(k.usage) >= k.usage;
    StackedRecords(items, k.length, i, j);
  }

  /** Records stacked from the tail: a later one ends where the earlier ones
      begin, and the last one starts above everything the records use. */
  lemma StackedRecords(items: seq<Item>, length: nat, i: nat, j: nat)
    requires i < j < |items|
    requires items[i].offset + Usage(items[..i + 1]) == length
    requires items[j].offset + Usage(items[..j + 1]) == length
    ensures items[j].offset + items[j].span <= items[i].offset
    ensures items[i].offset + items[i].span <= length
    ensures length - Usage(items[..|items|]) <= items[j].offset
  {
    UsageLast(items, i);
    UsageLast(items, j);
    UsagePrefixMonotone(items, i + 1, j);
    UsagePrefixMonotone(items, j + 1, |items|);
  }

  lemma UsageLast(items: seq<Item>, i: nat)
    requires i < |items|
    ensures Usage(items[..i + 1]) == Usage(items[..i]) + items[i].span
  {
    assert items[..i + 1][..i] == items[..i];
  }
}
