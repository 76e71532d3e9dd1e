/** Column: the immutable description of one result column sent to the client. */
module Client {
  import opened Wrappers
  import opened JavaLang
  import opened Entries

  /** A type signature; `text` is its toString(). */
  datatype TypeSignature = TypeSignature(text: string)

  /** The client's serializable copy of a type signature. */
  datatype ClientTypeSignature = ClientTypeSignature(signature: TypeSignature)

  /** A column's type metadata as the output handler reads it: the type kind and,
      for an enum column, the enum's entries (key to long value). */
  datatype TypeMetadata = TypeMetadata(typeKind: Option<string>, enumEntries: Option<EntryMap<int64>>)

  /** A server-side type: its signature and its metadata, if any. */
  datatype PrestoType = PrestoType(signature: TypeSignature, metadata: Option<TypeMetadata>)

  /** The record; its fields are the getters getName, getType, getTypeSignature and
      getTypeMetadata. None stands for a null signature or metadata. */
  datatype Column = Column(
    name: string,
    typeName: string,
    typeSignature: Option<ClientTypeSignature>,
    typeMetadata: Option<TypeMetadata>)

  /** The JSON constructor: name and type must not be null; signature and metadata may be. */
  function NewColumn(name: Option<string>, typeName: Option<string>,
                     typeSignature: Option<ClientTypeSignature>,
                     typeMetadata: Option<TypeMetadata>): (r: Result<Column, Throwable>)
    ensures r.Success? <==> name.Some? && typeName.Some?
    ensures name.None? ==> r == Failure(NullPointerException("name is null"))
    ensures name.Some? && typeName.None? ==> r == Failure(NullPointerException("type is null"))
    ensures r.Success? ==>
      && r.value.name == name.value
      && r.value.typeName == typeName.value
      && r.value.typeSignature == typeSignature
      && r.value.typeMetadata == typeMetadata
  {
    if name.None? then Failure(NullPointerException("name is null"))
    else if typeName.None? then Failure(NullPointerException("type is null"))
    else Success(Column(name.value, typeName.value, typeSignature, typeMetadata))
  }

  /** Column(name, signature): the type is the signature's text and there is no metadata.
      The signature's text is taken before the name is checked, so a null signature
      fails first. */
  function ColumnOfSignature(name: Option<string>, signature: Option<TypeSignature>): (r: Result<Column, Throwable>)
    ensures r.Success? <==> name.Some? && signature.Some?
    ensures signature.None? ==> r == Failure(NullDereference)
    ensures signature.Some? && name.None? ==> r == Failure(NullPointerException("name is null"))
    ensures r.Success? ==>
      && r.value.name == name.value
      && r.value.typeName == signature.value.text
      && r.value.typeSignature == Some(ClientTypeSignature(signature.value))
      && r.value.typeMetadata.None?
  {
    match signature
    case None => Failure(NullDereference)
    case Some(sig) => NewColumn(name, Some(sig.text), Some(ClientTypeSignature(sig)), None)
  }

  /** Column(name, type): the type's signature text, signature and metadata. The type is
      asked for its signature before the name is checked, so a null type fails first. */
  function ColumnOfType(name: Option<string>, t: Option<PrestoType>): (r: Result<Column, Throwable>)
    ensures r.Success? <==> name.Some? && t.Some?
    ensures t.None? ==> r == Failure(NullDereference)
    ensures t.Some? && name.None? ==> r == Failure(NullPointerException("name is null"))
    ensures r.Success? ==>
      && r.value.name == name.value
      && r.value.typeName == t.value.signature.text
      && r.value.typeSignature == Some(ClientTypeSignature(t.value.signature))
      && r.value.typeMetadata == t.value.metadata
  {
    match t
    case None => Failure(NullDereference)
    case Some(ty) => NewColumn(name, Some(ty.signature.text), Some(ClientTypeSignature(ty.signature)), ty.metadata)
  }
}
