/** `OpenAIREFacetingMapper`: the table between the framework's facet names and the
    backend's field names, filled once by thirteen `put` calls in a fixed order. */
module FacetingMapper {
  import opened Wrappers

  /** The framework's facets the table mentions. */
  datatype OmtdFacet =
    | PublicationType
    | PublicationYear
    | RightsStmtName
    | Rights
    | DocumentLang
    | DocumentType
    | Publisher
    | Keyword

  const InstanceTypeName: string := "instancetypename"
  const ResultDateOfAcceptance: string := "resultdateofacceptance"
  const ResultRights: string := "resultrights"
  const ResultLangId: string := "resultlanguageid"
  const MimeType: string := "mimetype"

  /** A key or value of the table. The text of a facet name (`OMTDFacetEnum.value()`) is
      not part of this model: facet names are distinct constants of their own, different
      from each other and from every backend field name. */
  datatype Name = FacetName(facet: OmtdFacet) | Field(field: string)

  predicate IsBackendField(s: string) {
    s == InstanceTypeName || s == ResultDateOfAcceptance || s == ResultRights || s == ResultLangId || s == MimeType
  }

  /** The table the constructor builds (`getOmtdOpenAIREMap` returns it): six facets to
      their backend fields, publisher and keyword to themselves, then the five backend
      fields back to facets; a later `put` replaces an earlier one. */
  function FacetMap(): map<Name, Name> {
    map[]
      [FacetName(PublicationType) := Field(InstanceTypeName)]
      [FacetName(PublicationYear) := Field(ResultDateOfAcceptance)]
      [FacetName(RightsStmtName) := Field(ResultRights)]
      [FacetName(Rights) := Field(ResultRights)]
      [FacetName(DocumentLang) := Field(ResultLangId)]
      [FacetName(DocumentType) := Field(MimeType)]
      [FacetName(Publisher) := FacetName(Publisher)]
      [FacetName(Keyword) := FacetName(Keyword)]
      [Field(InstanceTypeName) := FacetName(PublicationType)]
      [Field(ResultDateOfAcceptance) := FacetName(PublicationYear)]
      [Field(ResultRights) := FacetName(Rights)]
      [Field(ResultLangId) := FacetName(DocumentLang)]
      [Field(MimeType) := FacetName(DocumentType)]
  }

  /** The backend field a facet is searched under; publisher and keyword have no field of
      their own and stand for themselves. */
  function Forward(f: OmtdFacet): Name {
    match f
    case PublicationType => Field(InstanceTypeName)
    case PublicationYear => Field(ResultDateOfAcceptance)
    case RightsStmtName => Field(ResultRights)
    case Rights => Field(ResultRights)
    case DocumentLang => Field(ResultLangId)
    case DocumentType => Field(MimeType)
    case Publisher => FacetName(Publisher)
    case Keyword => FacetName(Keyword)
  }

  /** The facet a backend field is reported as, for the five fields the table knows. */
  function Reverse(s: string): (r: Option<OmtdFacet>)
    ensures r.Some? <==> IsBackendField(s)
  {
    if s == InstanceTypeName then Some(PublicationType)
    else if s == ResultDateOfAcceptance then Some(PublicationYear)
    else if s == ResultRights then Some(Rights)
    else if s == ResultLangId then Some(DocumentLang)
    else if s == MimeType then Some(DocumentType)
    else None
  }

  /** Every facet is a key and maps to its field. */
  lemma ForwardEntries(f: OmtdFacet)
    ensures FacetName(f) in FacetMap()
    ensures FacetMap()[FacetName(f)] == Forward(f)
  {
  }

  /** Exactly the five backend fields are keys, and each maps back to its facet; the
      rights field, shared by two facets, reports the later one. */
  lemma ReverseEntries(s: string)
    ensures Field(s) in FacetMap() <==> IsBackendField(s)
    ensures IsBackendField(s) ==> FacetMap()[Field(s)] == FacetName(Reverse(s).value)
  {
  }

  /** Looking a facet up and the result up again gives the facet back for every facet but
      the rights-statement name, which comes back as rights. */
  lemma RoundTrip(f: OmtdFacet)
    ensures Forward(f) in FacetMap()
    ensures FacetMap()[FacetMap()[FacetName(f)]] == (if f == RightsStmtName then FacetName(Rights) else FacetName(f))
  {
    ForwardEntries(f);
    match Forward(f)
    case Field(s) => ReverseEntries(s);
    case FacetName(g) => ForwardEntries(g);
  }

  /** The table has thirteen keys: the eight facet names and the five backend fields. */
  lemma KeyCount()
    ensures |FacetMap().Keys| == 13
  {
    assert FacetMap().Keys == FacetKeys() + FieldKeys();
    FacetKeysCount();
    FieldKeysCount();
    assert FacetKeys() !! FieldKeys();
  }

  function FacetKeys(): set<Name> {
    {FacetName(PublicationType), FacetName(PublicationYear), FacetName(RightsStmtName),
     FacetName(Rights), FacetName(DocumentLang), FacetName(DocumentType),
     FacetName(Publisher), FacetName(Keyword)}
  }

  function FieldKeys(): set<Name> {
    {Field(InstanceTypeName), Field(ResultDateOfAcceptance), Field(ResultRights),
     Field(ResultLangId), Field(MimeType)}
  }

  lemma FacetKeysCount()
    ensures |FacetKeys()| == 8
  {
  }

  lemma FieldKeysCount()
    ensures |FieldKeys()| == 5
  {
  }
}
