/** The table operations of the content and location gateways and of the field
    handler, as functions over in-memory tables. A table is a map keyed by
    contentId or by (contentId, versionNo), or a sequence of rows. */
module Gateway {

  import opened Results
  import opened ContentTypes

  type VersionTable = map<VersionKey, VersionRow>
  type FieldTable = map<VersionKey, seq<Field>>
  type NameTable = map<VersionKey, map<string, string>>

  /** The field rows stored for (c, v), in insertion order. */
  function FieldsOf(t: FieldTable, c: nat, v: nat): seq<Field>
  {
    if (c, v) in t then t[(c, v)] else []
  }

  /** The name rows stored for (c, v), by language. */
  function NamesOf(t: NameTable, c: nat, v: nat): map<string, string>
  {
    if (c, v) in t then t[(c, v)] else map[]
  }

  /** Two tables agree on every key whose contentId is not c. */
  ghost predicate SameOutsideContent<T>(a: map<VersionKey, T>, b: map<VersionKey, T>, c: nat)
  {
    forall k: VersionKey :: k.0 != c ==> (k in a <==> k in b) && (k in a ==> a[k] == b[k])
  }

  /** Two tables agree on every key except `key`. */
  ghost predicate SameOutsideKey<T>(a: map<VersionKey, T>, b: map<VersionKey, T>, key: VersionKey)
  {
    forall k: VersionKey :: k != key ==> (k in a <==> k in b) && (k in a ==> a[k] == b[k])
  }

  /** createNewFields: the new field rows are appended to those of (c, v). */
  function InsertFields(t: FieldTable, c: nat, v: nat, fs: seq<Field>): (r: FieldTable)
    ensures FieldsOf(r, c, v) == FieldsOf(t, c, v) + fs
    ensures SameOutsideKey(t, r, (c, v))
  {
    t[(c, v) := FieldsOf(t, c, v) + fs]
  }

  /** setName: the name row of (c, v) in `language` becomes `name`. */
  function SetName(t: NameTable, c: nat, v: nat, language: string, name: string): (r: NameTable)
    ensures NamesOf(r, c, v) == NamesOf(t, c, v)[language := name]
    ensures SameOutsideKey(t, r, (c, v))
  {
    t[(c, v) := NamesOf(t, c, v)[language := name]]
  }

  /** The deletes scoped to one version (deleteFields, deleteVersions and
      deleteNames with a versionNo): only the rows of exactly (c, v) go. */
  function RemoveVersion<T>(t: map<VersionKey, T>, c: nat, v: nat): (r: map<VersionKey, T>)
    ensures (c, v) !in r
    ensures SameOutsideKey(t, r, (c, v))
  {
    t - {(c, v)}
  }

  /** The deletes scoped to one content (without a versionNo): every row of
      c goes, and no row of another content. */
  function RemoveContent<T>(t: map<VersionKey, T>, c: nat): (r: map<VersionKey, T>)
    ensures forall k :: k in r ==> k.0 != c
    ensures SameOutsideContent(t, r, c)
  {
    map k | k in t && k.0 != c :: t[k]
  }

  /** deleteRelations: the relations whose source is c (in version v when
      one is given) are removed, and no other. */
  function DeleteRelations(rels: set<Relation>, c: nat, v: Option<nat>): (r: set<Relation>)
    ensures forall rel :: rel in r <==>
      rel in rels && !(rel.sourceContentId == c && (v.None? || rel.sourceVersionNo == v.value))
  {
    set rel | rel in rels && !(rel.sourceContentId == c && (v.None? || rel.sourceVersionNo == v.value))
  }

  /** True when the node assignment belongs to (c, v). */
  predicate AssignedTo(a: NodeAssignment, c: nat, v: nat)
  {
    a.contentId == c && a.versionNo == v
  }

  /** True when the node assignment is a pending creation for (c, v). */
  predicate IsPending(a: NodeAssignment, c: nat, v: nat)
  {
    AssignedTo(a, c, v) && a.opCode == OpCreate
  }

  /** deleteNodeAssignment: the assignments of (c, v) are removed; every
      other one is kept, in order. */
  function RemoveAssignments(nas: seq<NodeAssignment>, c: nat, v: nat): (r: seq<NodeAssignment>)
    ensures forall a :: a in r <==> a in nas && !AssignedTo(a, c, v)
    ensures |r| <= |nas|
    ensures (forall i :: 0 <= i < |nas| ==> !AssignedTo(nas[i], c, v)) ==> r == nas
  {
    if nas == [] then []
    else if AssignedTo(nas[0], c, v) then RemoveAssignments(nas[1..], c, v)
    else [nas[0]] + RemoveAssignments(nas[1..], c, v)
  }

  /** The pending creations for (c, v), in order. */
  function Pending(nas: seq<NodeAssignment>, c: nat, v: nat): (r: seq<NodeAssignment>)
    ensures forall a :: a in r <==> a in nas && IsPending(a, c, v)
    ensures |r| <= |nas|
  {
    if nas == [] then []
    else if IsPending(nas[0], c, v) then [nas[0]] + Pending(nas[1..], c, v)
    else Pending(nas[1..], c, v)
  }

  /** deleteNodeAssignment keeps every other assignment as often as it
      occurred. */
  lemma {:induction false} RemoveAssignmentsCount(nas: seq<NodeAssignment>, c: nat, v: nat)
    ensures forall a :: multiset(RemoveAssignments(nas, c, v))[a] == if AssignedTo(a, c, v) then 0 else multiset(nas)[a]
  {
    if nas != [] {
      RemoveAssignmentsCount(nas[1..], c, v);
      assert nas == [nas[0]] + nas[1..];
    }
  }

  /** Each pending creation of (c, v) is listed as often as it occurs. */
  lemma {:induction false} PendingCount(nas: seq<NodeAssignment>, c: nat, v: nat)
    ensures forall a :: multiset(Pending(nas, c, v))[a] == if IsPending(a, c, v) then multiset(nas)[a] else 0
  {
    if nas != [] {
      PendingCount(nas[1..], c, v);
      assert nas == [nas[0]] + nas[1..];
    }
  }

  /** The node assignment after publishing has executed it. */
  function Executed(a: NodeAssignment, c: nat, v: nat): NodeAssignment
  {
    if IsPending(a, c, v) then a.(opCode := OpCreateNop) else a
  }

  /** createLocationsFromNodeAssignments: every pending creation of (c, v)
      becomes one new location under its parent, and its op code is set to
      CREATE_NOP, so that none stays pending; every other assignment is
      kept as it was. Gives the new assignment table and the new locations. */
  function Materialize(nas: seq<NodeAssignment>, c: nat, v: nat): (r: (seq<NodeAssignment>, seq<Location>))
    ensures |r.0| == |nas|
    ensures forall i :: 0 <= i < |nas| ==> r.0[i] == Executed(nas[i], c, v)
    ensures forall i :: 0 <= i < |nas| ==> !IsPending(r.0[i], c, v)
    ensures |r.1| == |Pending(nas, c, v)|
    ensures forall j :: 0 <= j < |r.1| ==> r.1[j] == Location(c, Pending(nas, c, v)[j].parentId)
  {
    if nas == [] then ([], [])
    else
      var rest := Materialize(nas[1..], c, v);
      if IsPending(nas[0], c, v) then
        ([nas[0].(opCode := OpCreateNop)] + rest.0, [Location(c, nas[0].parentId)] + rest.1)
      else
        ([nas[0]] + rest.0, rest.1)
  }

  /** No pending creation is left to materialise a second time: publishing
      the same version again creates no location and changes no assignment. */
  lemma MaterializeAgain(nas: seq<NodeAssignment>, c: nat, v: nat)
    ensures Materialize(Materialize(nas, c, v).0, c, v) == (Materialize(nas, c, v).0, [])
  {
    var once := Materialize(nas, c, v).0;
    var twice := Materialize(once, c, v);
    assert twice.0 == once by {
      forall i | 0 <= i < |once| ensures twice.0[i] == once[i] {
        assert !IsPending(once[i], c, v);
      }
    }
    if |Pending(once, c, v)| > 0 {
      assert Pending(once, c, v)[0] in Pending(once, c, v);
    }
  }

  /** A metadata update with no entry present. */
  predicate NoEntries(m: MetadataUpdate)
  {
    && m.ownerId.None? && m.publicationDate.None? && m.modificationDate.None?
    && m.mainLanguageCode.None? && m.alwaysAvailable.None? && m.remoteId.None?
  }

  /** updateContent: the present entries of the update are written into
      the content row, the absent ones leave it as it was. The identity,
      type, section, current version and published flag are never part of
      a metadata update. */
  function ApplyMetadata(info: ContentInfo, m: MetadataUpdate): (r: ContentInfo)
    ensures r.id == info.id && r.currentVersionNo == info.currentVersionNo
    ensures r.contentTypeId == info.contentTypeId && r.sectionId == info.sectionId
    ensures r.isPublished == info.isPublished
    ensures m.ownerId.Some? ==> r.ownerId == m.ownerId.value
    ensures m.publicationDate.Some? ==> r.publicationDate == m.publicationDate.value
    ensures m.modificationDate.Some? ==> r.modificationDate == m.modificationDate.value
    ensures m.mainLanguageCode.Some? ==> r.mainLanguageCode == m.mainLanguageCode.value
    ensures m.alwaysAvailable.Some? ==> r.alwaysAvailable == m.alwaysAvailable.value
    ensures m.remoteId.Some? ==> r.remoteId == m.remoteId.value
    ensures NoEntries(m) ==> r == info
  {
    info.(
      ownerId := if m.ownerId.Some? then m.ownerId.value else info.ownerId,
      publicationDate := if m.publicationDate.Some? then m.publicationDate.value else info.publicationDate,
      modificationDate := if m.modificationDate.Some? then m.modificationDate.value else info.modificationDate,
      mainLanguageCode := if m.mainLanguageCode.Some? then m.mainLanguageCode.value else info.mainLanguageCode,
      alwaysAvailable := if m.alwaysAvailable.Some? then m.alwaysAvailable.value else info.alwaysAvailable,
      remoteId := if m.remoteId.Some? then m.remoteId.value else info.remoteId)
  }

  /** Applying the same metadata update twice is applying it once. */
  lemma ApplyMetadataIdempotent(info: ContentInfo, m: MetadataUpdate)
    ensures ApplyMetadata(ApplyMetadata(info, m), m) == ApplyMetadata(info, m)
  {
  }

  /** The entry of a later update where it has one, else of the earlier. */
  function Later<T>(earlier: Option<T>, later: Option<T>): Option<T>
  {
    if later.Some? then later else earlier
  }

  /** Two metadata updates merged into one, the second winning. */
  function Override(m1: MetadataUpdate, m2: MetadataUpdate): MetadataUpdate
  {
    MetadataUpdate(
      Later(m1.ownerId, m2.ownerId), Later(m1.publicationDate, m2.publicationDate),
      Later(m1.modificationDate, m2.modificationDate), Later(m1.mainLanguageCode, m2.mainLanguageCode),
      Later(m1.alwaysAvailable, m2.alwaysAvailable), Later(m1.remoteId, m2.remoteId))
  }

  /** Two metadata updates in a row are the single update in which the
      entries of the second override those of the first. */
  lemma ApplyMetadataTwice(info: ContentInfo, m1: MetadataUpdate, m2: MetadataUpdate)
    ensures ApplyMetadata(ApplyMetadata(info, m1), m2) == ApplyMetadata(info, Override(m1, m2))
  {
  }

  /** Two field rows occupy the same slot: same field definition, same language. */
  predicate SameSlot(f: Field, g: Field)
  {
    f.fieldDefinitionId == g.fieldDefinitionId && f.languageCode == g.languageCode
  }

  /** True when some stored row occupies the slot of `u`. */
  predicate HasSlot(fs: seq<Field>, u: Field)
  {
    exists i :: 0 <= i < |fs| && SameSlot(fs[i], u)
  }

  /** One field of an update: it overwrites the rows in its slot, or is
      added when its slot holds none. */
  function UpsertField(fs: seq<Field>, u: Field): (r: seq<Field>)
    ensures |r| == |fs| + (if HasSlot(fs, u) then 0 else 1)
    ensures forall i :: 0 <= i < |fs| ==> r[i] == (if SameSlot(fs[i], u) then u else fs[i])
    ensures !HasSlot(fs, u) ==> r[|fs|] == u
  {
    var replaced := seq(|fs|, i requires 0 <= i < |fs| => if SameSlot(fs[i], u) then u else fs[i]);
    if HasSlot(fs, u) then replaced else replaced + [u]
  }

  /** updateFields: the fields of an update, written one after the other. */
  function UpdateFields(fs: seq<Field>, updates: seq<Field>): (r: seq<Field>)
    ensures |fs| <= |r| <= |fs| + |updates|
    ensures updates == [] ==> r == fs
    decreases |updates|
  {
    if updates == [] then fs
    else UpdateFields(UpsertField(fs, updates[0]), updates[1..])
  }

  /** True when no field of the update is in the slot of `f`. */
  predicate Untouched(f: Field, updates: seq<Field>)
  {
    forall j :: 0 <= j < |updates| ==> !SameSlot(f, updates[j])
  }

  /** updateFields keeps every stored row no update touches, at its place,
      and never drops a row. */
  lemma {:induction false} UpdateFieldsKeepsUntouched(fs: seq<Field>, updates: seq<Field>)
    ensures |UpdateFields(fs, updates)| >= |fs|
    ensures forall i :: 0 <= i < |fs| && Untouched(fs[i], updates) ==> UpdateFields(fs, updates)[i] == fs[i]
    decreases |updates|
  {
    if updates != [] {
      var fs' := UpsertField(fs, updates[0]);
      UpdateFieldsKeepsUntouched(fs', updates[1..]);
      forall i | 0 <= i < |fs| && Untouched(fs[i], updates)
        ensures UpdateFields(fs, updates)[i] == fs[i]
      {
        assert !SameSlot(fs[i], updates[0]);
        assert fs'[i] == fs[i];
        forall j | 0 <= j < |updates[1..]| ensures !SameSlot(fs'[i], updates[1..][j]) {
          assert updates[1..][j] == updates[j + 1];
        }
      }
    }
  }

  /** After updateFields, the slot of every field of the update holds a row,
      and the rows in that slot carry the value of the last update for it. */
  lemma {:induction false} UpdateFieldsWritesLast(fs: seq<Field>, updates: seq<Field>, j: nat)
    requires j < |updates|
    requires forall k :: j < k < |updates| ==> !SameSlot(updates[k], updates[j])
    ensures HasSlot(UpdateFields(fs, updates), updates[j])
    ensures forall i :: 0 <= i < |UpdateFields(fs, updates)| && SameSlot(UpdateFields(fs, updates)[i], updates[j])
              ==> UpdateFields(fs, updates)[i] == updates[j]
    decreases |updates|
  {
    var fs' := UpsertField(fs, updates[0]);
    if j == 0 {
      // the first update is the last one for its slot: it holds in fs', and no later update touches it
      var u := updates[0];
      var rest := updates[1..];
      assert forall i :: 0 <= i < |fs'| && SameSlot(fs'[i], u) ==> fs'[i] == u by {
        forall i | 0 <= i < |fs'| && SameSlot(fs'[i], u) ensures fs'[i] == u {
        }
      }
      assert HasSlot(fs', u) by {
        if HasSlot(fs, u) {
          var i :| 0 <= i < |fs| && SameSlot(fs[i], u);
          assert fs'[i] == u;
        } else {
          assert fs'[|fs|] == u;
        }
      }
      forall i | 0 <= i < |fs'| && SameSlot(fs'[i], u) ensures Untouched(fs'[i], rest) {
        forall k | 0 <= k < |rest| ensures !SameSlot(fs'[i], rest[k]) {
          assert rest[k] == updates[k + 1];
        }
      }
      UpdateFieldsKeepsUntouched(fs', rest);
      var i0 :| 0 <= i0 < |fs'| && SameSlot(fs'[i0], u);
      assert UpdateFields(fs, updates)[i0] == u;
      forall i | 0 <= i < |UpdateFields(fs, updates)| && SameSlot(UpdateFields(fs, updates)[i], u)
        ensures UpdateFields(fs, updates)[i] == u
      {
        UpdateFieldsSlotOrigin(fs', rest, u, i);
      }
    } else {
      assert updates[1..][j - 1] == updates[j];
      forall k | j - 1 < k < |updates[1..]| ensures !SameSlot(updates[1..][k], updates[1..][j - 1]) {
        assert updates[1..][k] == updates[k + 1];
      }
      UpdateFieldsWritesLast(fs', updates[1..], j - 1);
    }
  }

  /** A row of updateFields' result in the slot of `u`, where no update
      touches that slot, is one of the rows already stored there, or is
      beyond them: so when every stored row of the slot is `u`, the result
      row is `u` too. */
  lemma {:induction false} UpdateFieldsSlotOrigin(fs: seq<Field>, updates: seq<Field>, u: Field, i: nat)
    requires forall k :: 0 <= k < |updates| ==> !SameSlot(updates[k], u)
    requires forall i' :: 0 <= i' < |fs| && SameSlot(fs[i'], u) ==> fs[i'] == u
    requires i < |UpdateFields(fs, updates)| && SameSlot(UpdateFields(fs, updates)[i], u)
    ensures UpdateFields(fs, updates)[i] == u
    decreases |updates|
  {
    if updates != [] {
      var w := updates[0];
      var fs' := UpsertField(fs, w);
      forall i' | 0 <= i' < |fs'| && SameSlot(fs'[i'], u) ensures fs'[i'] == u {
      }
      forall k | 0 <= k < |updates[1..]| ensures !SameSlot(updates[1..][k], u) {
        assert updates[1..][k] == updates[k + 1];
      }
      UpdateFieldsSlotOrigin(fs', updates[1..], u, i);
    }
  }

  /** updateFields of the field handler: the fields of the update are
      written over those stored for (c, v); with no field to write, the
      table is left as it is. */
  function UpdateFieldRows(t: FieldTable, c: nat, v: nat, updates: seq<Field>): (r: FieldTable)
    ensures FieldsOf(r, c, v) == UpdateFields(FieldsOf(t, c, v), updates)
    ensures SameOutsideKey(t, r, (c, v))
    ensures (c, v) in r <==> (c, v) in t || updates != []
  {
    if updates == [] then t else t[(c, v) := UpdateFields(FieldsOf(t, c, v), updates)]
  }

  /** updateVersion: the version row of (c, v), when there is one, takes
      the creator, the modification date and the initial language of the
      update; its status and its languages stay. */
  function UpdateVersionRow(t: VersionTable, c: nat, v: nat, u: UpdateStruct): (r: VersionTable)
    ensures r.Keys == t.Keys
    ensures SameOutsideKey(t, r, (c, v))
    ensures (c, v) in t ==>
      && r[(c, v)].creatorId == u.creatorId && r[(c, v)].modificationDate == u.modificationDate
      && r[(c, v)].initialLanguageCode == u.initialLanguageCode
      && r[(c, v)].status == t[(c, v)].status && r[(c, v)].creationDate == t[(c, v)].creationDate
      && r[(c, v)].languageCodes == t[(c, v)].languageCodes
  {
    if (c, v) in t then
      t[(c, v) := t[(c, v)].(creatorId := u.creatorId, modificationDate := u.modificationDate,
                              initialLanguageCode := u.initialLanguageCode)]
    else t
  }

  /** The fields of the listed languages, in order; all of them when no
      language filter is given. */
  function FilterLanguages(fs: seq<Field>, translations: Option<seq<string>>): (r: seq<Field>)
    ensures translations.None? ==> r == fs
    ensures forall f :: f in r <==> f in fs && (translations.None? || f.languageCode in translations.value)
    ensures |r| <= |fs|
  {
    if translations.None? || fs == [] then fs
    else if fs[0].languageCode in translations.value then [fs[0]] + FilterLanguages(fs[1..], translations)
    else FilterLanguages(fs[1..], translations)
  }

  /** The language filter keeps each field of a listed language as often
      as it occurs, and no other. */
  lemma {:induction false} FilterLanguagesCount(fs: seq<Field>, translations: Option<seq<string>>)
    ensures forall f ::
      multiset(FilterLanguages(fs, translations))[f] ==
      if translations.None? || f.languageCode in translations.value then multiset(fs)[f] else 0
  {
    if translations.Some? && fs != [] {
      FilterLanguagesCount(fs[1..], translations);
      assert fs == [fs[0]] + fs[1..];
    }
  }
}
