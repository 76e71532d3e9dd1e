/** EnumOperators: the casts registered for an enum type and the lookups they call. */
module EnumOperators {
  import opened Wrappers
  import opened JavaLang
  import opened Text
  import opened Entries

  /** An integer-backed enum type: its signature base and its key-to-long entries. */
  datatype IntegerEnumType = IntegerEnumType(base: string, entries: EntryMap<int64>)

  /** A string-backed enum type: its signature base and its key-to-string entries. */
  datatype StringEnumType = StringEnumType(base: string, entries: EntryMap<string>)

  /** The EnumType kinds a cast can be generated for; any other kind is known only
      by its class's simple name. */
  datatype EnumType =
    | IntegerEnum(integerEnum: IntegerEnumType)
    | StringEnum(stringEnum: StringEnumType)
    | OtherEnum(simpleName: string, otherBase: string)

  function Signature(t: EnumType): string
  {
    match t
    case IntegerEnum(e) => e.base
    case StringEnum(e) => e.base
    case OtherEnum(_, b) => b
  }

  /** The SQL types a cast to an enum can start from. */
  datatype SqlType = Tinyint | Smallint | Integer | Bigint | Varchar

  /** A registered cast: from which type, to which enum type, through which lookup method. */
  datatype CastFunction = CastFunction(fromType: SqlType, returnType: string, methodName: string)

  const STRING_ENUM_KEY_LOOKUP_METHOD := "stringEnumKeyLookup"
  const STRING_ENUM_VALUE_LOOKUP_METHOD := "stringEnumValueLookup"
  const INTEGER_ENUM_KEY_LOOKUP_METHOD := "integerEnumKeyLookup"
  const INTEGER_ENUM_VALUE_LOOKUP_METHOD := "integerEnumValueLookup"

  /** The integer types, in the order their casts are registered. */
  const IntegerTypes: seq<SqlType> := [Tinyint, Smallint, Integer, Bigint]

  /** makeCastFunction, without the signature and method-handle machinery. */
  function MakeCastFunction(fromType: SqlType, enumType: EnumType, methodName: string): (r: CastFunction)
    ensures r.fromType == fromType && r.returnType == Signature(enumType) && r.methodName == methodName
  {
    CastFunction(fromType, Signature(enumType), methodName)
  }

  /** makeEnumCastFunctions: the casts an enum type gets, by enum kind. */
  method MakeEnumCastFunctions(enumType: EnumType) returns (r: Result<seq<CastFunction>, Throwable>)
    ensures enumType.IntegerEnum? ==> r == Success([
      CastFunction(Tinyint, Signature(enumType), INTEGER_ENUM_VALUE_LOOKUP_METHOD),
      CastFunction(Smallint, Signature(enumType), INTEGER_ENUM_VALUE_LOOKUP_METHOD),
      CastFunction(Integer, Signature(enumType), INTEGER_ENUM_VALUE_LOOKUP_METHOD),
      CastFunction(Bigint, Signature(enumType), INTEGER_ENUM_VALUE_LOOKUP_METHOD),
      CastFunction(Varchar, Signature(enumType), INTEGER_ENUM_KEY_LOOKUP_METHOD)])
    ensures enumType.StringEnum? ==> r == Success([
      CastFunction(Varchar, Signature(enumType), STRING_ENUM_KEY_LOOKUP_METHOD),
      CastFunction(Varchar, Signature(enumType), STRING_ENUM_VALUE_LOOKUP_METHOD)])
    ensures enumType.OtherEnum? ==>
      r == Failure(PrestoException(GenericInternalError, "Unexpected enum type: " + enumType.simpleName))
    ensures enumType.IntegerEnum? ==>
      forall i, j :: 0 <= i < j < |r.value| ==> r.value[i].fromType != r.value[j].fromType
  {
    if enumType.IntegerEnum? {
      var casts: seq<CastFunction> := [];
      for i := 0 to |IntegerTypes|
        invariant casts == seq(i, j requires 0 <= j < i =>
          MakeCastFunction(IntegerTypes[j], enumType, INTEGER_ENUM_VALUE_LOOKUP_METHOD))
      {
        casts := casts + [MakeCastFunction(IntegerTypes[i], enumType, INTEGER_ENUM_VALUE_LOOKUP_METHOD)];
      }
      casts := casts + [MakeCastFunction(Varchar, enumType, INTEGER_ENUM_KEY_LOOKUP_METHOD)];
      var sig := Signature(enumType);
      assert casts == [
        CastFunction(Tinyint, sig, INTEGER_ENUM_VALUE_LOOKUP_METHOD),
        CastFunction(Smallint, sig, INTEGER_ENUM_VALUE_LOOKUP_METHOD),
        CastFunction(Integer, sig, INTEGER_ENUM_VALUE_LOOKUP_METHOD),
        CastFunction(Bigint, sig, INTEGER_ENUM_VALUE_LOOKUP_METHOD),
        CastFunction(Varchar, sig, INTEGER_ENUM_KEY_LOOKUP_METHOD)];
      return Success(casts);
    } else if enumType.StringEnum? {
      return Success([
        MakeCastFunction(Varchar, enumType, STRING_ENUM_KEY_LOOKUP_METHOD),
        MakeCastFunction(Varchar, enumType, STRING_ENUM_VALUE_LOOKUP_METHOD)]);
    } else {
      return Failure(PrestoException(GenericInternalError, "Unexpected enum type: " + enumType.simpleName));
    }
  }

  /** stringEnumKeyLookup: the string value of key `value`. */
  function StringEnumKeyLookup(value: string, enumType: StringEnumType): (r: Result<string, Throwable>)
    ensures r.Success? <==> IsKey(enumType.entries, value)
    ensures r.Success? ==> MapsTo(enumType.entries, value, r.value)
    ensures r.Failure? ==>
      r.error == PrestoException(InvalidCastArgument, NoKeyMessage(value, enumType.base))
  {
    match Get(enumType.entries, value)
    case Some(enumValue) => Success(enumValue)
    case None => Failure(PrestoException(InvalidCastArgument, NoKeyMessage(value, enumType.base)))
  }

  /** stringEnumValueLookup: a copy of `value` when it is one of the enum's values. */
  function StringEnumValueLookup(value: string, enumType: StringEnumType): (r: Result<string, Throwable>)
    ensures r.Success? <==> IsValue(enumType.entries, value)
    ensures r.Success? ==> r.value == value
    ensures r.Failure? ==>
      r.error == PrestoException(InvalidCastArgument, NoValueMessage(value, enumType.base))
  {
    if !ContainsValue(enumType.entries, value) then
      Failure(PrestoException(InvalidCastArgument, NoValueMessage(value, enumType.base)))
    else
      Success(value)
  }

  /** integerEnumKeyLookup: the long value of key `value`. */
  function IntegerEnumKeyLookup(value: string, enumType: IntegerEnumType): (r: Result<int64, Throwable>)
    ensures r.Success? <==> IsKey(enumType.entries, value)
    ensures r.Success? ==> MapsTo(enumType.entries, value, r.value)
    ensures r.Failure? ==>
      r.error == PrestoException(InvalidCastArgument, NoKeyMessage(value, enumType.base))
  {
    match Get(enumType.entries, value)
    case Some(enumValue) => Success(enumValue)
    case None => Failure(PrestoException(InvalidCastArgument, NoKeyMessage(value, enumType.base)))
  }

  /** integerEnumValueLookup: `value` unchanged when it is one of the enum's values. */
  function IntegerEnumValueLookup(value: int64, enumType: IntegerEnumType): (r: Result<int64, Throwable>)
    ensures r.Success? <==> IsValue(enumType.entries, value)
    ensures r.Success? ==> r.value == value
    ensures r.Failure? ==>
      r.error == PrestoException(InvalidCastArgument, NoValueMessage(LongToString(value as int), enumType.base))
  {
    if !ContainsValue(enumType.entries, value) then
      Failure(PrestoException(InvalidCastArgument, NoValueMessage(LongToString(value as int), enumType.base)))
    else
      Success(value)
  }

  /** Casting a key to its value and validating that value gives the value back. */
  lemma IntegerLookupRoundTrip(enumType: IntegerEnumType, key: string)
    requires IsKey(enumType.entries, key)
    ensures IntegerEnumKeyLookup(key, enumType).Success?
    ensures IntegerEnumValueLookup(IntegerEnumKeyLookup(key, enumType).value, enumType)
            == IntegerEnumKeyLookup(key, enumType)
  {
    var v := IntegerEnumKeyLookup(key, enumType).value;
    var i :| 0 <= i < |enumType.entries| && enumType.entries[i].key == key && enumType.entries[i].value == v;
    assert IsValue(enumType.entries, v);
  }

  /** The same round trip for a string-backed enum. */
  lemma StringLookupRoundTrip(enumType: StringEnumType, key: string)
    requires IsKey(enumType.entries, key)
    ensures StringEnumKeyLookup(key, enumType).Success?
    ensures StringEnumValueLookup(StringEnumKeyLookup(key, enumType).value, enumType)
            == StringEnumKeyLookup(key, enumType)
  {
    var v := StringEnumKeyLookup(key, enumType).value;
    var i :| 0 <= i < |enumType.entries| && enumType.entries[i].key == key && enumType.entries[i].value == v;
    assert IsValue(enumType.entries, v);
  }

  /** Validating a value twice is validating it once. */
  lemma IntegerValueLookupIdempotent(enumType: IntegerEnumType, value: int64)
    ensures IntegerEnumValueLookup(value, enumType).Success? ==>
      IntegerEnumValueLookup(IntegerEnumValueLookup(value, enumType).value, enumType)
      == IntegerEnumValueLookup(value, enumType)
  {
  }

  /** Validating a string value twice is validating it once. */
  lemma StringValueLookupIdempotent(enumType: StringEnumType, value: string)
    ensures StringEnumValueLookup(value, enumType).Success? ==>
      StringEnumValueLookup(StringEnumValueLookup(value, enumType).value, enumType)
      == StringEnumValueLookup(value, enumType)
  {
  }
}
