/** NumericEnumType: a long-backed enum type whose definitions are read from a JSON file. */
module NumericEnumTypes {
  import opened Wrappers
  import opened JavaLang
  import opened Entries

  /** The enum type: its name (which is also its type signature) and its entries,
      stored exactly as the constructor received them. */
  datatype NumericEnumType = NumericEnumType(name: string, entries: EntryMap<int64>)

  /** The base of the type signature, which error messages name. */
  function Base(t: NumericEnumType): string
  {
    t.name
  }

  /** The display name, which the generated SQL names. */
  function DisplayName(t: NumericEnumType): string
  {
    t.name
  }

  /** The constructor: the name becomes the type signature and the entries are kept as
      given, neither copied nor checked. */
  function NewNumericEnumType(name: string, entries: EntryMap<int64>): (t: NumericEnumType)
    ensures Base(t) == name && DisplayName(t) == name
    ensures t.entries == entries
  {
    NumericEnumType(name, entries)
  }

  /** The enum data file after parsing: enum name to that enum's entries, or the
      message of the IOException that reading or parsing it threw. */
  type EnumData = Result<EntryMap<EntryMap<int64>>, string>

  /** `enums` holds one enum per top-level name of `data`, in the data's order. */
  ghost predicate BuiltFrom(enums: seq<NumericEnumType>, data: EntryMap<EntryMap<int64>>)
  {
    |enums| == |data| && forall i :: 0 <= i < |data| ==> enums[i] == NumericEnumType(data[i].key, data[i].value)
  }

  /** getEnums: one NumericEnumType per enum name of the parsed file; a read
      failure becomes an Error and no list is returned. */
  method GetEnums(read: EnumData) returns (r: Result<seq<NumericEnumType>, Throwable>)
    ensures read.Failure? ==> r == Failure(FatalError(read.error))
    ensures read.Success? ==> r.Success? && BuiltFrom(r.value, read.value)
  {
    if read.Failure? {
      return Failure(FatalError(read.error));
    }
    var enumData := read.value;
    var builder: seq<NumericEnumType> := [];
    for i := 0 to |enumData|
      invariant |builder| == i
      invariant forall j :: 0 <= j < i ==> builder[j] == NumericEnumType(enumData[j].key, enumData[j].value)
    {
      var enumName := enumData[i].key;
      GetAt(enumData, i);
      var entries := Get(enumData, enumName).value;
      builder := builder + [NewNumericEnumType(enumName, entries)];
    }
    return Success(builder);
  }

  /** Enums built from the data are found by name: each name of the data names
      exactly one of them, whose entries are that name's entries. */
  lemma BuiltFromByName(enums: seq<NumericEnumType>, data: EntryMap<EntryMap<int64>>, name: string)
    requires BuiltFrom(enums, data)
    ensures IsKey(data, name) <==> exists i :: 0 <= i < |enums| && enums[i].name == name
    ensures forall i :: 0 <= i < |enums| && enums[i].name == name ==> Get(data, name) == Some(enums[i].entries)
    ensures forall i, j :: 0 <= i < j < |enums| ==> enums[i].name != enums[j].name
  {
    forall i | 0 <= i < |enums| && enums[i].name == name
      ensures Get(data, name) == Some(enums[i].entries)
    {
      GetAt(data, i);
    }
    if IsKey(data, name) {
      var i :| 0 <= i < |data| && data[i].key == name;
      assert enums[i].name == name;
    }
  }

  /** getObjectValue: null for a null position, otherwise the long stored there. */
  function GetObjectValue(t: NumericEnumType, block: seq<Option<int64>>, position: int): (r: Option<int64>)
    requires 0 <= position < |block|
    ensures r.None? <==> block[position].None?
    ensures r.Some? ==> r.value == block[position].value
  {
    if block[position].None? then None else Some(block[position].value)
  }

  /** Values of a numeric enum type cannot be compared. */
  function IsComparable(t: NumericEnumType): (r: bool)
    ensures !r
  {
    false
  }

  /** Values of a numeric enum type cannot be ordered. */
  function IsOrderable(t: NumericEnumType): (r: bool)
    ensures !r
  {
    false
  }
}
