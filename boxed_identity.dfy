/** processRow compares an entry's value with the cell by reference (`==` on two boxed
    numbers), not with equals. Boxes are shared only for the small values that
    Long.valueOf and Integer.valueOf cache, so outside that range two equal numbers are
    two different objects and the comparison fails. This module models that comparison
    as written; Cli.DecodeCell models the value comparison it stands for. */
module BoxedIdentity {
  import opened Wrappers
  import opened JavaLang
  import opened Entries
  import opened Client
  import opened Cli

  /** The range whose boxes valueOf hands out from its cache, one object per value. */
  const BOX_CACHE_LOW: int := -128
  const BOX_CACHE_HIGH: int := 127

  predicate Cached(x: int64)
  {
    BOX_CACHE_LOW <= x as int <= BOX_CACHE_HIGH
  }

  /** `e.getValue() == value` on boxes obtained independently: the same object exactly
      when the numbers are equal and come from the cache. */
  predicate SameBox(entryValue: int64, value: Cell)
  {
    value.LongCell? && value.long == entryValue && Cached(entryValue)
  }

  /** The key of the first entry whose value is the same object as the cell. */
  function FirstIdenticalKey(es: seq<Entry<int64>>, value: Cell): (r: Option<string>)
    ensures r.Some? <==> exists i :: 0 <= i < |es| && SameBox(es[i].value, value)
    ensures r.Some? ==> exists i :: 0 <= i < |es| && es[i].key == r.value && SameBox(es[i].value, value)
                                    && forall j :: 0 <= j < i ==> !SameBox(es[j].value, value)
    decreases |es|
  {
    if es == [] then None
    else if SameBox(es[0].value, value) then Some(es[0].key)
    else FirstIdenticalKey(es[1..], value)
  }

  /** The per-cell step of processRow with the comparison by reference. */
  function DecodeCellAsWritten(value: Cell, column: Column): (r: Result<Cell, Throwable>)
    ensures EnumEntriesOf(column).None? ==> r == Success(value)
    ensures EnumEntriesOf(column).Some? ==>
      var es := EnumEntriesOf(column).value;
      && (r.Success? <==> exists i :: 0 <= i < |es| && SameBox(es[i].value, value))
      && (r.Failure? ==> r.error == NoSuchElementException("No value present"))
  {
    match EnumEntriesOf(column)
    case None => Success(value)
    case Some(entries) =>
      match FirstIdenticalKey(entries, value)
      case Some(key) => Success(TextCell(column.typeName + "." + key))
      case None => Failure(NoSuchElementException("No value present"))
  }

  /** For a cached value the reference comparison finds the same key as the value comparison. */
  lemma {:induction false} IdenticalKeyWhenCached(es: seq<Entry<int64>>, value: Cell)
    requires value.LongCell? ==> Cached(value.long)
    ensures FirstIdenticalKey(es, value) == KeyOfCell(es, value)
    decreases |es|
  {
    if es != [] {
      IdenticalKeyWhenCached(es[1..], value);
    }
  }

  /** Outside the cache no entry is the same object as the cell. */
  lemma {:induction false} NoIdenticalKeyOutsideCache(es: seq<Entry<int64>>, value: Cell)
    requires value.LongCell? && !Cached(value.long)
    ensures FirstIdenticalKey(es, value).None?
    decreases |es|
  {
    if es != [] {
      NoIdenticalKeyOutsideCache(es[1..], value);
    }
  }

  /** The code as written agrees with the value comparison on cached values. */
  lemma AsWrittenAgreesWhenCached(value: Cell, column: Column)
    requires value.LongCell? ==> Cached(value.long)
    ensures DecodeCellAsWritten(value, column) == DecodeCell(value, column)
  {
    if EnumEntriesOf(column).Some? {
      IdenticalKeyWhenCached(EnumEntriesOf(column).value, value);
    }
  }

  /** ... and fails every enum cell outside the cache, whatever the entries hold. */
  lemma AsWrittenFailsOutsideCache(value: Cell, column: Column)
    requires EnumEntriesOf(column).Some? && value.LongCell? && !Cached(value.long)
    ensures DecodeCellAsWritten(value, column) == Failure(NoSuchElementException("No value present"))
  {
    NoIdenticalKeyOutsideCache(EnumEntriesOf(column).value, value);
  }

  /** An enum Size with LARGE = 1000: the value 1000 should print as Size.LARGE, but the
      reference comparison finds no key and the row fails. */
  lemma LargeValueCounterexample()
    ensures var size := Column("size", "Size", None, Some(TypeMetadata(None, Some([Entry("LARGE", 1000)]))));
      && DecodeCell(LongCell(1000), size) == Success(TextCell("Size.LARGE"))
      && DecodeCellAsWritten(LongCell(1000), size) == Failure(NoSuchElementException("No value present"))
  {
    var es: EntryMap<int64> := [Entry("LARGE", 1000)];
    var size := Column("size", "Size", None, Some(TypeMetadata(None, Some(es))));
    assert EnumEntriesOf(size) == Some(es);
    assert FirstKeyOf(es, 1000) == Some("LARGE");
    assert "Size" + "." + "LARGE" == "Size.LARGE";
    AsWrittenFailsOutsideCache(LongCell(1000), size);
  }
}
