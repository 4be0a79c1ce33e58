/** The mapper: deterministic transformations between creation structs and
    content entities, with no access to the tables. */
module Mapper {

  import opened ContentTypes

  /** The languages the given fields are written in. */
  function LanguageCodes(fields: seq<Field>): (r: set<string>)
    ensures forall l :: l in r <==> exists i :: 0 <= i < |fields| && fields[i].languageCode == l
  {
    set i | 0 <= i < |fields| :: fields[i].languageCode
  }

  /** The content row a creation struct describes, for version `versionNo`;
      its id is not assigned yet (0) and it is not published. */
  function CreateContentInfoFromCreateStruct(s: CreateStruct, versionNo: nat): ContentInfo
  {
    ContentInfo(0, s.typeId, s.sectionId, versionNo, false, s.ownerId, s.modified, s.published,
                s.alwaysAvailable, s.remoteId, s.initialLanguageCode)
  }

  /** A new DRAFT version of the content `info`: numbered `versionNo`,
      created by the content's owner at `now`, in the languages of `fields`. */
  function CreateVersionInfoForContent(
    info: ContentInfo, versionNo: nat, fields: seq<Field>, initialLanguageCode: string,
    names: map<string, string>, now: int): (r: VersionInfo)
    ensures forall l :: l in r.languageCodes <==> exists i :: 0 <= i < |fields| && fields[i].languageCode == l
  {
    VersionInfo(info.id, versionNo, Draft, info.ownerId, now, now, initialLanguageCode,
                LanguageCodes(fields), names)
  }

  /** The creation struct that reproduces a loaded content under a new id:
      same metadata, names and fields, no locations, dated `now`, with the
      fresh remote id `remoteId`. */
  function CreateCreateStructFromContent(c: Content, now: int, remoteId: string): CreateStruct
  {
    CreateStruct(c.version.names, c.info.contentTypeId, c.info.sectionId, c.info.ownerId,
                 c.info.alwaysAvailable, remoteId, c.version.initialLanguageCode, now, now,
                 c.fields, [])
  }

  /** The content row created from the create struct of a loaded content
      keeps that content's type, section, owner and availability, takes the
      version's initial language as its main language, the fresh remote id
      and the date `now`, and is not published yet. */
  lemma CopyStructKeepsMetadata(c: Content, now: int, remoteId: string, versionNo: nat)
    ensures
      var info := CreateContentInfoFromCreateStruct(CreateCreateStructFromContent(c, now, remoteId), versionNo);
      && info.contentTypeId == c.info.contentTypeId && info.sectionId == c.info.sectionId
      && info.ownerId == c.info.ownerId && info.alwaysAvailable == c.info.alwaysAvailable
      && info.mainLanguageCode == c.version.initialLanguageCode && info.remoteId == remoteId
      && info.publicationDate == now && info.modificationDate == now
      && info.currentVersionNo == versionNo && !info.isPublished
  {
  }
}
