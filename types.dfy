/** Error results of the content storage engine: NotFound for empty loads,
    NotImplemented for the relation operations. */
module Results {

  datatype Option<T> = None | Some(value: T)

  datatype Error =
    | NotFound(what: string)
    | NotImplemented

  datatype Result<T> = Ok(value: T) | Err(error: Error)
}

/** The entities of versioned, multi-language content, as value types. */
module ContentTypes {

  import opened Results

  /** Lifecycle status of one version. */
  datatype Status = Draft | Published | Archived

  /** One field row of a version: a value for one field definition in one
      language, stamped with the number of the version that owns it. */
  datatype Field = Field(
    fieldDefinitionId: nat,
    languageCode: string,
    value: string,
    versionNo: nat)

  /** Identity and aggregate metadata of a content item (the content row). */
  datatype ContentInfo = ContentInfo(
    id: nat,
    contentTypeId: nat,
    sectionId: nat,
    currentVersionNo: nat,
    isPublished: bool,
    ownerId: nat,
    modificationDate: int,
    publicationDate: int,
    alwaysAvailable: bool,
    remoteId: string,
    mainLanguageCode: string)

  /** What the version table stores for one (contentId, versionNo). */
  datatype VersionRow = VersionRow(
    status: Status,
    creatorId: nat,
    creationDate: int,
    modificationDate: int,
    initialLanguageCode: string,
    languageCodes: set<string>)

  /** A version as handed out: its row, its keys and its names per language. */
  datatype VersionInfo = VersionInfo(
    contentId: nat,
    versionNo: nat,
    status: Status,
    creatorId: nat,
    creationDate: int,
    modificationDate: int,
    initialLanguageCode: string,
    languageCodes: set<string>,
    names: map<string, string>)

  /** A fully loaded content: metadata, one version and that version's fields. */
  datatype Content = Content(info: ContentInfo, version: VersionInfo, fields: seq<Field>)

  /** Operation code of a node assignment: a pending creation, or one that
      publishing has already carried out. */
  datatype OpCode = OpCreate | OpCreateNop

  /** A pending placement of (contentId, versionNo) under a parent location. */
  datatype NodeAssignment = NodeAssignment(contentId: nat, versionNo: nat, parentId: nat, opCode: OpCode)

  /** A materialised node of the location tree. */
  datatype Location = Location(contentId: nat, parentId: nat)

  /** Where a new content should be placed. */
  datatype LocationCreate = LocationCreate(parentId: nat)

  datatype RelationType = Common | Embed | Link | FieldRelation

  /** A directed link from a version of one content to another content. */
  datatype Relation = Relation(
    id: nat,
    sourceContentId: nat,
    sourceVersionNo: nat,
    destinationContentId: nat,
    kind: RelationType)

  /** The input of a content creation. */
  datatype CreateStruct = CreateStruct(
    name: map<string, string>,
    typeId: nat,
    sectionId: nat,
    ownerId: nat,
    alwaysAvailable: bool,
    remoteId: string,
    initialLanguageCode: string,
    published: int,
    modified: int,
    fields: seq<Field>,
    locations: seq<LocationCreate>)

  /** A partial update of the content row: only the present entries are written. */
  datatype MetadataUpdate = MetadataUpdate(
    ownerId: Option<nat>,
    publicationDate: Option<int>,
    modificationDate: Option<int>,
    mainLanguageCode: Option<string>,
    alwaysAvailable: Option<bool>,
    remoteId: Option<string>)

  /** An update of one version: its row data, the fields to rewrite and the
      names to set. */
  datatype UpdateStruct = UpdateStruct(
    name: map<string, string>,
    creatorId: nat,
    modificationDate: int,
    initialLanguageCode: string,
    fields: seq<Field>)

  /** The pair a version, its fields and its names are keyed by. */
  type VersionKey = (nat, nat)

  /** The version row and names of (c, v), joined into a VersionInfo. */
  function InfoFromRow(c: nat, v: nat, row: VersionRow, names: map<string, string>): (vi: VersionInfo)
    ensures vi.contentId == c && vi.versionNo == v && vi.names == names
    ensures RowFromInfo(vi) == row
    ensures forall w: VersionInfo :: w.contentId == c && w.versionNo == v && w.names == names && RowFromInfo(w) == row ==> w == vi
  {
    VersionInfo(c, v, row.status, row.creatorId, row.creationDate, row.modificationDate,
                row.initialLanguageCode, row.languageCodes, names)
  }

  /** What insertVersion stores of a VersionInfo. */
  function RowFromInfo(vi: VersionInfo): VersionRow
  {
    VersionRow(vi.status, vi.creatorId, vi.creationDate, vi.modificationDate,
               vi.initialLanguageCode, vi.languageCodes)
  }
}
