/** The legacy content handler: the lifecycle of versioned, multi-language
    content over the tables of the legacy storage, kept in memory. */
module LegacyContentHandler {

  import opened Results
  import opened ContentTypes
  import opened Gateway
  import Mapper

  /** A version row as copied into another content: same data, dated `date`. */
  function CopiedRow(row: VersionRow, date: int): VersionRow
  {
    row.(creationDate := date, modificationDate := date)
  }

  /** Two tables agree on every key that is not a key of content `dst`
      other than (dst, keep). */
  ghost predicate SameOutsideCopy<T>(a: map<VersionKey, T>, b: map<VersionKey, T>, dst: nat, keep: nat)
  {
    forall k: VersionKey :: (k.0 != dst || k.1 == keep) ==> (k in a <==> k in b) && (k in a ==> a[k] == b[k])
  }

  /** The positions of the locations of content c among locs[from..], ascending. */
  function LocationIdsFrom(locs: seq<Location>, c: nat, from: nat): (r: seq<nat>)
    requires from <= |locs|
    ensures forall id :: id in r <==> from <= id < |locs| && locs[id].contentId == c
    ensures forall i, j :: 0 <= i < j < |r| ==> r[i] < r[j]
    ensures forall i :: 0 <= i < |r| ==> from <= r[i]
    decreases |locs| - from
  {
    if from == |locs| then []
    else if locs[from].contentId == c then [from] + LocationIdsFrom(locs, c, from + 1)
    else LocationIdsFrom(locs, c, from + 1)
  }

  /** Every content row is stored under its own id, below n. */
  ghost predicate ContentsBelow(contents: map<nat, ContentInfo>, n: nat)
  {
    forall id :: id in contents ==> id < n && contents[id].id == id
  }

  /** Every key of the table has a content id below n. */
  ghost predicate KeysBelow<T>(t: map<VersionKey, T>, n: nat)
  {
    forall k :: k in t ==> k.0 < n
  }

  ghost predicate RelationsBelow(rels: set<Relation>, n: nat)
  {
    forall rel :: rel in rels ==> rel.sourceContentId < n
  }

  ghost predicate AssignmentsBelow(nas: seq<NodeAssignment>, n: nat)
  {
    forall i :: 0 <= i < |nas| ==> nas[i].contentId < n
  }

  ghost predicate LocationsBelow(locs: seq<Location>, n: nat)
  {
    forall i :: 0 <= i < |locs| ==> locs[i].contentId < n
  }

  /** Inserting a row for a content id below n + 1, after raising the bound. */
  lemma KeysBelowInsert<T>(t: map<VersionKey, T>, n: nat, k: VersionKey, x: T)
    requires KeysBelow(t, n) && k.0 <= n
    ensures KeysBelow(t[k := x], n + 1)
  {
  }

  /** Inserting the fields of a key that has none is storing them. */
  lemma InsertFreshFields(t: FieldTable, c: nat, v: nat, fs: seq<Field>)
    requires (c, v) !in t
    ensures InsertFields(t, c, v, fs) == t[(c, v) := fs]
  {
    assert [] + fs == fs;
  }

  /** Storing a content row under its own id n, after raising the bound. */
  lemma ContentsBelowInsert(contents: map<nat, ContentInfo>, n: nat, info: ContentInfo)
    requires ContentsBelow(contents, n) && info.id == n
    ensures ContentsBelow(contents[n := info], n + 1)
  {
  }

  /** Overriding one key of a union is overriding it in the right operand. */
  lemma UnionUpdate<K, V>(a: map<K, V>, d: map<K, V>, k: K, x: V)
    ensures (a + d)[k := x] == a + d[k := x]
  {
  }

  /** Materialising keeps every content id below n: the locations it
      appends are stamped with the id of a pending assignment. */
  lemma MaterializeBelow(nas: seq<NodeAssignment>, locs: seq<Location>, c: nat, v: nat, n: nat)
    requires AssignmentsBelow(nas, n) && LocationsBelow(locs, n)
    ensures AssignmentsBelow(Materialize(nas, c, v).0, n)
    ensures LocationsBelow(locs + Materialize(nas, c, v).1, n)
  {
    var m := Materialize(nas, c, v);
    var pending := Pending(nas, c, v);
    if |pending| > 0 {
      assert pending[0] in pending;
    }
    forall i | 0 <= i < |locs + m.1| ensures (locs + m.1)[i].contentId < n {
      if i >= |locs| {
        assert (locs + m.1)[i] == m.1[i - |locs|];
      }
    }
  }

  /** Removing node assignments keeps every content id below n. */
  lemma RemoveAssignmentsBelow(nas: seq<NodeAssignment>, c: nat, v: nat, n: nat)
    requires AssignmentsBelow(nas, n)
    ensures AssignmentsBelow(RemoveAssignments(nas, c, v), n)
  {
    var r := RemoveAssignments(nas, c, v);
    forall i | 0 <= i < |r| ensures r[i].contentId < n {
      assert r[i] in r;
    }
  }

  /** Storing a row under a content id below n keeps the keys below n. */
  lemma KeysBelowPut<T>(t: map<VersionKey, T>, n: nat, k: VersionKey, x: T)
    requires KeysBelow(t, n) && k.0 < n
    ensures KeysBelow(t[k := x], n)
  {
  }

  /** The versions of d other than cur are exactly the numbers of vs[..i]. */
  ghost predicate CopiedKeys(v: VersionTable, d: nat, cur: nat, vs: seq<VersionInfo>, i: nat)
  {
    forall w :: w != cur ==> ((d, w) in v <==> exists j :: 0 <= j < i && j < |vs| && vs[j].versionNo == w)
  }

  /** Every field or name row of d other than (d, cur) has its version row. */
  ghost predicate CopiedOwned(v: VersionTable, f: FieldTable, n: NameTable, d: nat, cur: nat)
  {
    forall w :: w != cur && ((d, w) in f || (d, w) in n) ==> (d, w) in v
  }

  /** Every version of d other than cur is a copy of the version of c with
      the same number, dated `date`, with the same fields and names. */
  ghost predicate CopiedRows(
    v0: VersionTable, f0: FieldTable, n0: NameTable, v: VersionTable, f: FieldTable, n: NameTable,
    c: nat, d: nat, cur: nat, date: int)
  {
    forall w :: w != cur && (d, w) in v ==>
      && (c, w) in v0 && v[(d, w)] == CopiedRow(v0[(c, w)], date)
      && FieldsOf(f, d, w) == FieldsOf(f0, c, w) && NamesOf(n, d, w) == NamesOf(n0, c, w)
  }

  /** After the first i rounds of copy's version loop, from the tables
      v0, f0, n0 to v, f, n: the versions of d other than cur are exactly
      the listed ones among vs[..i], each a copy of the version of c with
      the same number, dated `date`, with its fields and names; the rows of
      every other content and of (d, cur) are as they were. */
  ghost predicate CopiedUpTo(
    v0: VersionTable, f0: FieldTable, n0: NameTable, v: VersionTable, f: FieldTable, n: NameTable,
    c: nat, d: nat, cur: nat, vs: seq<VersionInfo>, i: nat, date: int)
  {
    && i <= |vs|
    && CopiedKeys(v, d, cur, vs, i)
    && CopiedOwned(v, f, n, d, cur)
    && CopiedRows(v0, f0, n0, v, f, n, c, d, cur, date)
    && SameOutsideCopy(v0, v, d, cur) && SameOutsideCopy(f0, f, d, cur) && SameOutsideCopy(n0, n, d, cur)
  }

  /** Before the loop nothing is copied. */
  lemma CopiedNone(v: VersionTable, f: FieldTable, n: NameTable, c: nat, d: nat, cur: nat, vs: seq<VersionInfo>, date: int)
    requires forall w :: (d, w) in v || (d, w) in f || (d, w) in n ==> w == cur
    ensures CopiedUpTo(v, f, n, v, f, n, c, d, cur, vs, 0, date)
  {
  }

  /** The version a round copies is not stored under d yet, and its source
      version is still there. */
  lemma CopiedPending(
    v0: VersionTable, f0: FieldTable, n0: NameTable, v: VersionTable, f: FieldTable, n: NameTable,
    c: nat, d: nat, cur: nat, vs: seq<VersionInfo>, i: nat, date: int)
    requires CopiedUpTo(v0, f0, n0, v, f, n, c, d, cur, vs, i, date)
    requires c != d && i < |vs| && vs[i].versionNo != cur && (c, vs[i].versionNo) in v0
    requires forall i, j :: 0 <= i < j < |vs| ==> vs[i].versionNo < vs[j].versionNo
    ensures (c, vs[i].versionNo) in v
    ensures (d, vs[i].versionNo) !in v && (d, vs[i].versionNo) !in f && (d, vs[i].versionNo) !in n
  {
  }

  /** A round that stores version w of d keeps the copied rows. */
  lemma CopiedRowsStep(
    v0: VersionTable, f0: FieldTable, n0: NameTable, v: VersionTable, f: FieldTable, n: NameTable,
    v': VersionTable, f': FieldTable, n': NameTable, c: nat, d: nat, cur: nat, w: nat, date: int)
    requires CopiedRows(v0, f0, n0, v, f, n, c, d, cur, date)
    requires SameOutsideCopy(v0, v, d, cur) && SameOutsideCopy(f0, f, d, cur) && SameOutsideCopy(n0, n, d, cur)
    requires c != d && w != cur
    requires (c, w) in v && v' == v[(d, w) := CopiedRow(v[(c, w)], date)]
    requires FieldsOf(f', d, w) == FieldsOf(f, c, w) && SameOutsideKey(f, f', (d, w))
    requires NamesOf(n', d, w) == NamesOf(n, c, w) && SameOutsideKey(n, n', (d, w))
    ensures CopiedRows(v0, f0, n0, v', f', n', c, d, cur, date)
  {
    forall x | x != cur && (d, x) in v'
      ensures (c, x) in v0 && v'[(d, x)] == CopiedRow(v0[(c, x)], date)
      ensures FieldsOf(f', d, x) == FieldsOf(f0, c, x) && NamesOf(n', d, x) == NamesOf(n0, c, x)
    {
      assert (c, x) in v0 <==> (c, x) in v;
      if x != w {
        assert (d, x) in v;
        assert FieldsOf(f', d, x) == FieldsOf(f, d, x);
        assert NamesOf(n', d, x) == NamesOf(n, d, x);
      } else {
        assert FieldsOf(f, c, x) == FieldsOf(f0, c, x);
        assert NamesOf(n, c, x) == NamesOf(n0, c, x);
      }
    }
  }

  /** One round of the loop keeps the description, for one more listed
      version. */
  lemma CopiedStep(
    v0: VersionTable, f0: FieldTable, n0: NameTable, v: VersionTable, f: FieldTable, n: NameTable,
    v': VersionTable, f': FieldTable, n': NameTable,
    c: nat, d: nat, cur: nat, vs: seq<VersionInfo>, i: nat, date: int)
    requires CopiedUpTo(v0, f0, n0, v, f, n, c, d, cur, vs, i, date)
    requires c != d && i < |vs|
    requires vs[i].versionNo == cur ==> v' == v && f' == f && n' == n
    requires vs[i].versionNo != cur ==>
      var w := vs[i].versionNo;
      && (c, w) in v && v' == v[(d, w) := CopiedRow(v[(c, w)], date)]
      && FieldsOf(f', d, w) == FieldsOf(f, c, w) && SameOutsideKey(f, f', (d, w))
      && NamesOf(n', d, w) == NamesOf(n, c, w) && SameOutsideKey(n, n', (d, w))
    ensures CopiedUpTo(v0, f0, n0, v', f', n', c, d, cur, vs, i + 1, date)
  {
    var w := vs[i].versionNo;
    if w != cur {
      assert CopiedKeys(v', d, cur, vs, i + 1) by {
        forall x | x != cur ensures (d, x) in v' <==> exists j :: 0 <= j < i + 1 && j < |vs| && vs[j].versionNo == x {
          if (d, x) in v' && x != w {
            assert (d, x) in v;
          }
        }
      }
      CopiedRowsStep(v0, f0, n0, v, f, n, v', f', n', c, d, cur, w, date);
    } else {
      assert CopiedKeys(v', d, cur, vs, i + 1) by {
        forall x | x != cur ensures (d, x) in v' <==> exists j :: 0 <= j < i + 1 && j < |vs| && vs[j].versionNo == x {
          if exists j :: 0 <= j < i + 1 && j < |vs| && vs[j].versionNo == x {
            var j :| 0 <= j < i + 1 && j < |vs| && vs[j].versionNo == x;
            assert j < i;
          }
        }
      }
    }
  }

  /** A change at (d, keep) followed by changes to the other keys of d
      leaves every other content as it was. */
  lemma OutsideCopyComposes<T>(a: map<VersionKey, T>, b: map<VersionKey, T>, e: map<VersionKey, T>, d: nat, keep: nat)
    requires SameOutsideKey(a, b, (d, keep)) && SameOutsideCopy(b, e, d, keep)
    ensures SameOutsideContent(a, e, d)
  {
  }

  /** The content copy creates first, under the id d, from the content row
      `src` and the version cur of it (row `row`, names `ns`, fields `fs`):
      the same type, section, owner and availability, the fresh remote id,
      not published, dated `now`; a DRAFT created by the owner at `now`,
      numbered cur, in the version's initial language, with its names and
      its fields. */
  ghost predicate FirstCopy(
    content: Content, d: nat, cur: nat, src: ContentInfo, row: VersionRow,
    ns: map<string, string>, fs: seq<Field>, now: int, remoteId: string)
  {
    && content.info.id == d && content.version.contentId == d
    && content.info.currentVersionNo == cur && content.version.versionNo == cur
    && content.info.contentTypeId == src.contentTypeId && content.info.sectionId == src.sectionId
    && content.info.ownerId == src.ownerId && content.info.alwaysAvailable == src.alwaysAvailable
    && content.info.remoteId == remoteId && !content.info.isPublished
    && content.info.publicationDate == now && content.info.modificationDate == now
    && content.info.mainLanguageCode == row.initialLanguageCode
    && content.version.status == Draft && content.version.creatorId == src.ownerId
    && content.version.creationDate == now && content.version.modificationDate == now
    && content.version.initialLanguageCode == row.initialLanguageCode
    && content.version.names == ns && content.fields == fs
  }

  class Handler {
    /** Content rows, by contentId. */
    var contents: map<nat, ContentInfo>
    /** Version rows, by (contentId, versionNo). */
    var versions: VersionTable
    /** Field rows, by (contentId, versionNo). */
    var fields: FieldTable
    /** Name rows, by (contentId, versionNo) and language. */
    var names: NameTable
    /** Relation rows. */
    var relations: set<Relation>
    /** Node assignment rows, in insertion order. */
    var nodeAssignments: seq<NodeAssignment>
    /** The materialised location tree; a location's id is its position. */
    var locations: seq<Location>
    /** The id the next inserted content row receives. */
    var nextContentId: nat
    /** The location ids whose subtrees were handed to the location handler
        for removal, in order. */
    var removedSubtrees: seq<nat>

    /** Every content id in any table has already been handed out, and a
        content row is stored under its own id. */
    ghost predicate Valid()
      reads this
    {
      && ContentsBelow(contents, nextContentId)
      && KeysBelow(versions, nextContentId) && KeysBelow(fields, nextContentId) && KeysBelow(names, nextContentId)
      && RelationsBelow(relations, nextContentId)
      && AssignmentsBelow(nodeAssignments, nextContentId)
      && LocationsBelow(locations, nextContentId)
    }

    /** No field or name row without its version row. */
    ghost predicate NoOrphanRows()
      reads this
    {
      (forall k :: k in fields ==> k in versions) && (forall k :: k in names ==> k in versions)
    }

    constructor ()
      ensures Valid() && NoOrphanRows()
      ensures contents == map[] && versions == map[] && fields == map[] && names == map[]
      ensures relations == {} && nodeAssignments == [] && locations == [] && removedSubtrees == []
    {
      contents, versions, fields, names := map[], map[], map[], map[];
      relations, nodeAssignments, locations := {}, [], [];
      nextContentId := 1;
      removedSubtrees := [];
    }

    /** The stored version (c, v), with its names. */
    function VersionInfoOf(c: nat, v: nat): (vi: VersionInfo)
      reads this
      requires (c, v) in versions
      ensures vi.contentId == c && vi.versionNo == v
      ensures RowFromInfo(vi) == versions[(c, v)] && vi.names == NamesOf(names, c, v)
    {
      InfoFromRow(c, v, versions[(c, v)], NamesOf(names, c, v))
    }

    /** The content gateway finds rows for (id, v) under the language filter:
        the content row and the version row exist, and when languages are
        listed, some field of the version is in one of them. */
    function HasRows(id: nat, v: nat, translations: Option<seq<string>>): (found: bool)
      reads this
      ensures found ==> LoadContentInfo(id).Ok? && LoadVersionInfo(id, v).Ok?
      ensures translations.None? ==> (found <==> LoadContentInfo(id).Ok? && LoadVersionInfo(id, v).Ok?)
    {
      && id in contents
      && (id, v) in versions
      && (translations.None? ||
          exists i :: 0 <= i < |FieldsOf(fields, id, v)| && FieldsOf(fields, id, v)[i].languageCode in translations.value)
    }

    /** Attaching externally stored field data: no external storage is
        modelled, so the content is returned as it is. */
    function LoadExternalFieldData(c: Content): (r: Content)
      ensures r == c
    {
      c
    }

    /** load: NotFound exactly when the gateway finds no rows; otherwise
        the content row, the version and its fields in the listed languages. */
    function Load(id: nat, v: nat, translations: Option<seq<string>>): (r: Result<Content>)
      reads this
      ensures r.Err? <==> !HasRows(id, v, translations)
      ensures r.Err? ==> r.error.NotFound?
      ensures r.Ok? ==> r.value.info == contents[id] && r.value.version == VersionInfoOf(id, v)
      ensures r.Ok? ==> forall f :: f in r.value.fields <==>
        f in FieldsOf(fields, id, v) && (translations.None? || f.languageCode in translations.value)
      ensures r.Ok? && translations.None? ==> r.value.fields == FieldsOf(fields, id, v)
    {
      if !HasRows(id, v, translations) then Err(NotFound("content"))
      else
        var c := Content(contents[id], VersionInfoOf(id, v), FilterLanguages(FieldsOf(fields, id, v), translations));
        Ok(LoadExternalFieldData(c))
    }

    /** loadContentInfo: the content row of c, or NotFound. */
    function LoadContentInfo(c: nat): (r: Result<ContentInfo>)
      reads this
      ensures r.Ok? <==> c in contents
      ensures r.Err? ==> r.error.NotFound?
      ensures r.Ok? ==> r.value == contents[c]
      ensures r.Ok? && Valid() ==> r.value.id == c
    {
      if c in contents then Ok(contents[c]) else Err(NotFound("contentInfo"))
    }

    /** loadVersionInfo: the version (c, v) with its names, or NotFound. */
    function LoadVersionInfo(c: nat, v: nat): (r: Result<VersionInfo>)
      reads this
      ensures r.Ok? <==> (c, v) in versions
      ensures r.Err? ==> r.error.NotFound?
      ensures r.Ok? ==> r.value.contentId == c && r.value.versionNo == v
      ensures r.Ok? ==> RowFromInfo(r.value) == versions[(c, v)] && r.value.names == NamesOf(names, c, v)
    {
      if (c, v) in versions then Ok(VersionInfoOf(c, v)) else Err(NotFound("versionInfo"))
    }

    /** loadDraftsForUser: the DRAFT versions created by `userId`, of any content. */
    function LoadDraftsForUser(userId: nat): (r: set<VersionInfo>)
      reads this
      ensures forall vi :: vi in r ==>
        && (vi.contentId, vi.versionNo) in versions && vi.status == Draft
        && vi.creatorId == userId && vi == VersionInfoOf(vi.contentId, vi.versionNo)
      ensures forall k :: k in versions && versions[k].status == Draft && versions[k].creatorId == userId
                ==> VersionInfoOf(k.0, k.1) in r
    {
      set k | k in versions && versions[k].status == Draft && versions[k].creatorId == userId :: VersionInfoOf(k.0, k.1)
    }

    /** getLastVersionNumber: the largest version number of c, 0 when c has
        no version. */
    method GetLastVersionNumber(c: nat) returns (last: nat)
      ensures forall w :: (c, w) in versions ==> w <= last
      ensures last == 0 || (c, last) in versions
    {
      var todo := set k | k in versions && k.0 == c :: k.1;
      last := 0;
      while todo != {}
        invariant forall w :: (c, w) in versions && w !in todo ==> w <= last
        invariant last == 0 || (c, last) in versions
        invariant forall w :: w in todo ==> (c, w) in versions
        decreases todo
      {
        var w :| w in todo;
        if w > last {
          last := w;
        }
        todo := todo - {w};
      }
    }

    /** listVersions: every version of c, once each, by ascending number. */
    method ListVersions(c: nat) returns (r: seq<VersionInfo>)
      ensures forall i :: 0 <= i < |r| ==> (c, r[i].versionNo) in versions && r[i] == VersionInfoOf(c, r[i].versionNo)
      ensures forall w :: (c, w) in versions ==> exists i :: 0 <= i < |r| && r[i].versionNo == w
      ensures forall i, j :: 0 <= i < j < |r| ==> r[i].versionNo < r[j].versionNo
    {
      var last := GetLastVersionNumber(c);
      r := [];
      var w := 0;
      while w <= last
        invariant w <= last + 1
        invariant forall i :: 0 <= i < |r| ==> (c, r[i].versionNo) in versions && r[i] == VersionInfoOf(c, r[i].versionNo)
        invariant forall x :: x < w && (c, x) in versions ==> exists i :: 0 <= i < |r| && r[i].versionNo == x
        invariant forall i, j :: 0 <= i < j < |r| ==> r[i].versionNo < r[j].versionNo
        invariant forall i :: 0 <= i < |r| ==> r[i].versionNo < w
      {
        if (c, w) in versions {
          ghost var prev := r;
          r := r + [VersionInfoOf(c, w)];
          assert forall i :: 0 <= i < |prev| ==> r[i] == prev[i];
          assert r[|r| - 1].versionNo == w;
        }
        w := w + 1;
      }
    }

    /** The setName loop: every name of `ns` is written for (c, v), over
        the names (c, v) already had. */
    method WriteNames(c: nat, v: nat, ns: map<string, string>)
      modifies this`names
      ensures NamesOf(names, c, v) == NamesOf(old(names), c, v) + ns
      ensures SameOutsideKey(old(names), names, (c, v))
      ensures (c, v) in names <==> (c, v) in old(names) || ns != map[]
    {
      var todo := ns.Keys;
      ghost var done: map<string, string> := map[];
      while todo != {}
        invariant todo <= ns.Keys && done.Keys == ns.Keys - todo
        invariant forall l :: l in done ==> done[l] == ns[l]
        invariant NamesOf(names, c, v) == NamesOf(old(names), c, v) + done
        invariant SameOutsideKey(old(names), names, (c, v))
        invariant (c, v) in names <==> (c, v) in old(names) || todo != ns.Keys
        decreases todo
      {
        var l :| l in todo;
        UnionUpdate(NamesOf(old(names), c, v), done, l, ns[l]);
        names := SetName(names, c, v, l, ns[l]);
        done := done[l := ns[l]];
        todo := todo - {l};
      }
      assert done == ns;
      assert ns == map[] <==> ns.Keys == {};
    }

    /** The node assignment loop of create: one CREATE assignment per
        location, stamped with (c, v), appended in order. */
    method CreateNodeAssignments(locs: seq<LocationCreate>, c: nat, v: nat)
      modifies this`nodeAssignments
      ensures |nodeAssignments| == |old(nodeAssignments)| + |locs|
      ensures nodeAssignments[..|old(nodeAssignments)|] == old(nodeAssignments)
      ensures forall i :: 0 <= i < |locs| ==>
        nodeAssignments[|old(nodeAssignments)| + i] == NodeAssignment(c, v, locs[i].parentId, OpCreate)
    {
      var i := 0;
      while i < |locs|
        invariant i <= |locs|
        invariant |nodeAssignments| == |old(nodeAssignments)| + i
        invariant nodeAssignments[..|old(nodeAssignments)|] == old(nodeAssignments)
        invariant forall j :: 0 <= j < i ==>
          nodeAssignments[|old(nodeAssignments)| + j] == NodeAssignment(c, v, locs[j].parentId, OpCreate)
      {
        nodeAssignments := nodeAssignments + [NodeAssignment(c, v, locs[i].parentId, OpCreate)];
        i := i + 1;
      }
    }

    /** create: a new content, numbered `versionNo` (1 unless copy passes
        another), with the struct's fields and names, dated at the struct's
        modification date, with one CREATE node assignment per location. */
    method Create(s: CreateStruct, versionNo: nat := 1) returns (r: Content)
      requires Valid()
      modifies this
      ensures Valid() && (old(NoOrphanRows()) ==> NoOrphanRows())
      ensures r.info.id == old(nextContentId) && r.info.id !in old(contents)
      ensures nextContentId == old(nextContentId) + 1
      ensures r.info == Mapper.CreateContentInfoFromCreateStruct(s, versionNo).(id := r.info.id)
      ensures r.version.contentId == r.info.id && r.version.versionNo == versionNo && r.version.status == Draft
      ensures r.version.creationDate == s.modified && r.version.modificationDate == s.modified
      ensures r.version.creatorId == s.ownerId && r.version.initialLanguageCode == s.initialLanguageCode
      ensures r.version.names == s.name && r.fields == s.fields
      ensures contents == old(contents)[r.info.id := r.info]
      ensures versions == old(versions)[(r.info.id, versionNo) := RowFromInfo(r.version)]
      ensures FieldsOf(fields, r.info.id, versionNo) == s.fields && SameOutsideKey(old(fields), fields, (r.info.id, versionNo))
      ensures NamesOf(names, r.info.id, versionNo) == s.name && SameOutsideKey(old(names), names, (r.info.id, versionNo))
      ensures |nodeAssignments| == |old(nodeAssignments)| + |s.locations|
      ensures nodeAssignments[..|old(nodeAssignments)|] == old(nodeAssignments)
      ensures forall i :: 0 <= i < |s.locations| ==>
        nodeAssignments[|old(nodeAssignments)| + i] == NodeAssignment(r.info.id, versionNo, s.locations[i].parentId, OpCreate)
      ensures relations == old(relations) && locations == old(locations) && removedSubtrees == old(removedSubtrees)
      ensures Load(r.info.id, versionNo, None) == Ok(r)
    {
      r := InsertContentRows(s, versionNo);
      CreateAssignmentsAndNames(s, r.info.id, versionNo);
      LoadOfStored(r.info.id, versionNo, r);
    }

    /** The last steps of create: the node assignments and the names of the
        new version (id, versionNo). */
    method CreateAssignmentsAndNames(s: CreateStruct, id: nat, versionNo: nat)
      requires id < nextContentId && (id, versionNo) in versions
      requires AssignmentsBelow(nodeAssignments, nextContentId) && KeysBelow(names, nextContentId)
      modifies this`nodeAssignments, this`names
      ensures AssignmentsBelow(nodeAssignments, nextContentId) && KeysBelow(names, nextContentId)
      ensures NamesOf(names, id, versionNo) == NamesOf(old(names), id, versionNo) + s.name
      ensures SameOutsideKey(old(names), names, (id, versionNo))
      ensures |nodeAssignments| == |old(nodeAssignments)| + |s.locations|
      ensures nodeAssignments[..|old(nodeAssignments)|] == old(nodeAssignments)
      ensures forall i :: 0 <= i < |s.locations| ==>
        nodeAssignments[|old(nodeAssignments)| + i] == NodeAssignment(id, versionNo, s.locations[i].parentId, OpCreate)
    {
      CreateNodeAssignments(s.locations, id, versionNo);
      WriteNames(id, versionNo, s.name);
      AppendedAssignmentsValid(old(nodeAssignments), s.locations, id, versionNo);
      assert KeysBelow(names, nextContentId) by {
        forall k | k in names ensures k.0 < nextContentId { if k != (id, versionNo) { assert k in old(names); } }
      }
    }

    /** The first steps of create: the content row under a fresh id, the
        version row dated at the struct's modification date, and the fields. */
    method InsertContentRows(s: CreateStruct, versionNo: nat) returns (r: Content)
      requires ContentsBelow(contents, nextContentId)
      requires KeysBelow(versions, nextContentId) && KeysBelow(fields, nextContentId)
      modifies this`contents, this`nextContentId, this`versions, this`fields
      ensures ContentsBelow(contents, nextContentId)
      ensures KeysBelow(versions, nextContentId) && KeysBelow(fields, nextContentId)
      ensures r.info.id == old(nextContentId) && nextContentId == old(nextContentId) + 1
      ensures r.info == Mapper.CreateContentInfoFromCreateStruct(s, versionNo).(id := r.info.id)
      ensures r.version == Mapper.CreateVersionInfoForContent(r.info, versionNo, s.fields, r.info.mainLanguageCode, s.name, s.modified)
      ensures r.fields == s.fields
      ensures contents == old(contents)[r.info.id := r.info]
      ensures versions == old(versions)[(r.info.id, versionNo) := RowFromInfo(r.version)]
      ensures fields == old(fields)[(r.info.id, versionNo) := s.fields]
    {
      var info := InsertContentObject(s, versionNo);
      var id := info.id;
      var vi := Mapper.CreateVersionInfoForContent(info, versionNo, s.fields, info.mainLanguageCode, s.name, s.modified);
      InsertVersion(vi);
      r := Content(info, vi, s.fields);
      CreateNewFields(r);
      ContentsBelowInsert(old(contents), id, info);
      KeysBelowInsert(old(versions), id, (id, versionNo), RowFromInfo(vi));
      KeysBelowInsert(old(fields), id, (id, versionNo), s.fields);
      InsertFreshFields(old(fields), id, versionNo, s.fields);
    }

    /** insertContentObject: the content row, under the next free id. */
    method InsertContentObject(s: CreateStruct, versionNo: nat) returns (info: ContentInfo)
      modifies this`contents, this`nextContentId
      ensures info == Mapper.CreateContentInfoFromCreateStruct(s, versionNo).(id := old(nextContentId))
      ensures contents == old(contents)[info.id := info] && nextContentId == old(nextContentId) + 1
    {
      info := Mapper.CreateContentInfoFromCreateStruct(s, versionNo).(id := nextContentId);
      contents := contents[info.id := info];
      nextContentId := nextContentId + 1;
    }

    /** insertVersion: the version row of (vi.contentId, vi.versionNo). */
    method InsertVersion(vi: VersionInfo)
      modifies this`versions
      ensures versions == old(versions)[(vi.contentId, vi.versionNo) := RowFromInfo(vi)]
    {
      versions := versions[(vi.contentId, vi.versionNo) := RowFromInfo(vi)];
    }

    /** createNewFields: the content's fields are stored for its id and version. */
    method CreateNewFields(content: Content)
      modifies this`fields
      ensures fields == InsertFields(old(fields), content.info.id, content.version.versionNo, content.fields)
    {
      fields := InsertFields(fields, content.info.id, content.version.versionNo, content.fields);
    }

    /** The assignments create appends keep every content id below the
        next free one, when the id they are stamped with is below it. */
    lemma AppendedAssignmentsValid(before: seq<NodeAssignment>, locs: seq<LocationCreate>, c: nat, v: nat)
      requires AssignmentsBelow(before, nextContentId)
      requires c < nextContentId
      requires |nodeAssignments| == |before| + |locs| && nodeAssignments[..|before|] == before
      requires forall i :: 0 <= i < |locs| ==> nodeAssignments[|before| + i] == NodeAssignment(c, v, locs[i].parentId, OpCreate)
      ensures AssignmentsBelow(nodeAssignments, nextContentId)
    {
      forall i | 0 <= i < |nodeAssignments| ensures nodeAssignments[i].contentId < nextContentId {
        if i < |before| {
          assert nodeAssignments[i] == nodeAssignments[..|before|][i];
        } else {
          var j := i - |before|;
          assert nodeAssignments[|before| + j] == NodeAssignment(c, v, locs[j].parentId, OpCreate);
        }
      }
    }

    /** A content whose rows are all stored loads back as itself. */
    lemma LoadOfStored(c: nat, v: nat, content: Content)
      requires c in contents && contents[c] == content.info
      requires (c, v) in versions && versions[(c, v)] == RowFromInfo(content.version)
      requires content.version.contentId == c && content.version.versionNo == v
      requires NamesOf(names, c, v) == content.version.names && FieldsOf(fields, c, v) == content.fields
      ensures Load(c, v, None) == Ok(content)
    {
    }

    /** setStatus: the status of version (c, v) is written unconditionally;
        the result says whether that version row exists. Setting PUBLISHED
        also marks the content row published, with v as its current
        version. Nothing here archives the other versions of c. */
    method SetStatus(c: nat, status: Status, v: nat) returns (ok: bool)
      requires Valid()
      modifies this`versions, this`contents
      ensures Valid() && (old(NoOrphanRows()) ==> NoOrphanRows())
      ensures ok == ((c, v) in old(versions))
      ensures ok ==> versions == old(versions)[(c, v) := old(versions)[(c, v)].(status := status)]
      ensures !ok ==> versions == old(versions)
      ensures contents == if status == Published && c in old(contents)
                          then old(contents)[c := old(contents)[c].(isPublished := true, currentVersionNo := v)]
                          else old(contents)
    {
      ok := (c, v) in versions;
      if ok {
        versions := versions[(c, v) := versions[(c, v)].(status := status)];
      }
      if status == Published && c in contents {
        contents := contents[c := contents[c].(isPublished := true, currentVersionNo := v)];
      }
    }

    /** updateContent of the content gateway: the metadata update is written
        into the content row of c, when there is one. */
    method UpdateContentRow(c: nat, m: MetadataUpdate)
      requires Valid()
      modifies this`contents
      ensures Valid()
      ensures contents == if c in old(contents) then old(contents)[c := ApplyMetadata(old(contents)[c], m)] else old(contents)
    {
      if c in contents {
        contents := contents[c := ApplyMetadata(contents[c], m)];
      }
    }

    /** createLocationsFromNodeAssignments: the pending creations of (c, v)
        become locations, appended to the tree, and are marked executed. */
    method CreateLocationsFromNodeAssignments(c: nat, v: nat)
      modifies this`nodeAssignments, this`locations
      ensures nodeAssignments == Materialize(old(nodeAssignments), c, v).0
      ensures locations == old(locations) + Materialize(old(nodeAssignments), c, v).1
      requires Valid()
      ensures Valid()
    {
      var m := Materialize(nodeAssignments, c, v);
      MaterializeBelow(nodeAssignments, locations, c, v, nextContentId);
      nodeAssignments, locations := m.0, locations + m.1;
    }

    /** publish: the metadata update is applied, the node assignments of
        (c, v) are materialised into locations, the version is set to
        PUBLISHED, which makes it the current version, and the content is
        loaded back. */
    method Publish(c: nat, v: nat, m: MetadataUpdate) returns (r: Result<Content>)
      requires Valid()
      modifies this
      ensures Valid() && (old(NoOrphanRows()) ==> NoOrphanRows())
      ensures r == Load(c, v, None)
      ensures r.Ok? <==> c in old(contents) && (c, v) in old(versions)
      ensures (c, v) in old(versions) ==> versions == old(versions)[(c, v) := old(versions)[(c, v)].(status := Published)]
      ensures (c, v) !in old(versions) ==> versions == old(versions)
      ensures r.Ok? ==> r.value.version.status == Published && r.value.info.isPublished && r.value.info.currentVersionNo == v
      ensures c in old(contents) ==>
        contents == old(contents)[c := ApplyMetadata(old(contents)[c], m).(isPublished := true, currentVersionNo := v)]
      ensures c !in old(contents) ==> contents == old(contents)
      ensures c in old(contents) ==> CopySourceVersion(c, None) == v
      ensures nodeAssignments == Materialize(old(nodeAssignments), c, v).0
      ensures locations == old(locations) + Materialize(old(nodeAssignments), c, v).1
      ensures fields == old(fields) && names == old(names) && relations == old(relations)
      ensures nextContentId == old(nextContentId) && removedSubtrees == old(removedSubtrees)
    {
      UpdateContentRow(c, m);
      CreateLocationsFromNodeAssignments(c, v);
      var _ := SetStatus(c, Published, v);
      r := Load(c, v, None);
    }

    /** The cloning loop of draft creation: the same fields, in the same
        order, each with its version number set to `versionNo`. */
    method CloneFields(fs: seq<Field>, versionNo: nat) returns (r: seq<Field>)
      ensures |r| == |fs|
      ensures forall i :: 0 <= i < |fs| ==> r[i] == fs[i].(versionNo := versionNo)
    {
      r := [];
      var i := 0;
      while i < |fs|
        invariant i <= |fs| && |r| == i
        invariant forall j :: 0 <= j < i ==> r[j] == fs[j].(versionNo := versionNo)
      {
        r := r + [fs[i].(versionNo := versionNo)];
        i := i + 1;
      }
    }

    /** createDraftFromVersion: a new DRAFT version of c, numbered one above
        the last version number of c, with the fields of version src cloned
        under the new number and the names of src; src itself is untouched.
        NotFound when src cannot be loaded. */
    method CreateDraftFromVersion(c: nat, src: nat, now: int) returns (r: Result<Content>)
      requires Valid()
      modifies this
      ensures Valid() && (old(NoOrphanRows()) ==> NoOrphanRows())
      ensures r.Err? <==> !old(HasRows(c, src, None))
      ensures r.Err? ==> r.error.NotFound? && unchanged(this)
      ensures r.Ok? ==> (c, src) in old(versions) && c in old(contents)
      ensures r.Ok? ==>
        var d := r.value;
        var n := d.version.versionNo;
        && (forall w :: (c, w) in old(versions) ==> w < n)
        && (n == 1 || (c, n - 1) in old(versions))
        && d.info == old(contents)[c]
        && d.version.contentId == c && d.version.status == Draft
        && d.version.creationDate == now && d.version.modificationDate == now
        && d.version.creatorId == old(contents)[c].ownerId
        && d.version.initialLanguageCode == old(versions)[(c, src)].initialLanguageCode
        && d.version.names == old(NamesOf(names, c, src))
        && |d.fields| == |old(FieldsOf(fields, c, src))|
        && (forall i :: 0 <= i < |d.fields| ==> d.fields[i] == old(FieldsOf(fields, c, src))[i].(versionNo := n))
        && versions == old(versions)[(c, n) := RowFromInfo(d.version)]
        && FieldsOf(fields, c, n) == old(FieldsOf(fields, c, n)) + d.fields
        && SameOutsideKey(old(fields), fields, (c, n))
        && NamesOf(names, c, n) == old(NamesOf(names, c, n)) + d.version.names
        && SameOutsideKey(old(names), names, (c, n))
        && (old(NoOrphanRows()) ==> Load(c, n, None) == Ok(d))
      ensures contents == old(contents) && relations == old(relations) && nodeAssignments == old(nodeAssignments)
      ensures locations == old(locations) && nextContentId == old(nextContentId) && removedSubtrees == old(removedSubtrees)
    {
      var loaded := Load(c, src, None);
      if loaded.Err? {
        return Err(loaded.error);
      }
      var content := loaded.value;
      var last := GetLastVersionNumber(c);
      var vi := Mapper.CreateVersionInfoForContent(content.info, last + 1, content.fields,
                                                   content.version.initialLanguageCode, content.version.names, now);
      var cloned := CloneFields(content.fields, vi.versionNo);
      var draft := Content(content.info, vi, cloned);
      StoreDraft(c, last + 1, draft);
      r := Ok(draft);
    }

    /** The writes of draft creation: the version row of the new version
        (c, n), its cloned fields and its names. */
    method StoreDraft(c: nat, n: nat, draft: Content)
      requires Valid()
      requires c in contents && (c, n) !in versions
      requires draft.info == contents[c] && draft.version.contentId == c && draft.version.versionNo == n
      modifies this`versions, this`fields, this`names
      ensures Valid() && (old(NoOrphanRows()) ==> NoOrphanRows())
      ensures versions == old(versions)[(c, n) := RowFromInfo(draft.version)]
      ensures FieldsOf(fields, c, n) == old(FieldsOf(fields, c, n)) + draft.fields
      ensures SameOutsideKey(old(fields), fields, (c, n))
      ensures NamesOf(names, c, n) == old(NamesOf(names, c, n)) + draft.version.names
      ensures SameOutsideKey(old(names), names, (c, n))
      ensures old(NoOrphanRows()) ==> Load(c, n, None) == Ok(draft)
    {
      StoreVersion(c, n, draft.version, draft.fields);
      if old(NoOrphanRows()) {
        assert (c, n) !in old(fields) && (c, n) !in old(names);
        assert [] + draft.fields == draft.fields;
        assert map[] + draft.version.names == draft.version.names;
        LoadOfStored(c, n, draft);
      }
    }

    /** The writes that add a version (c, n) to an existing content, as
        draft creation and copy do them: insertVersion, createNewFields and
        the setName loop. */
    method StoreVersion(c: nat, n: nat, vi: VersionInfo, fs: seq<Field>)
      requires Valid()
      requires c in contents && (c, n) !in versions
      requires vi.contentId == c && vi.versionNo == n
      modifies this`versions, this`fields, this`names
      ensures Valid() && (old(NoOrphanRows()) ==> NoOrphanRows())
      ensures versions == old(versions)[(c, n) := RowFromInfo(vi)]
      ensures FieldsOf(fields, c, n) == old(FieldsOf(fields, c, n)) + fs
      ensures SameOutsideKey(old(fields), fields, (c, n))
      ensures NamesOf(names, c, n) == old(NamesOf(names, c, n)) + vi.names
      ensures SameOutsideKey(old(names), names, (c, n))
    {
      InsertVersion(vi);
      CreateNewFields(Content(contents[c], vi, fs));
      WriteNames(c, n, vi.names);
      DraftValid(c, n);
    }

    /** The rows draft creation adds keep the invariant. */
    lemma DraftValid(c: nat, n: nat)
      requires c < nextContentId
      requires ContentsBelow(contents, nextContentId) && RelationsBelow(relations, nextContentId)
      requires AssignmentsBelow(nodeAssignments, nextContentId) && LocationsBelow(locations, nextContentId)
      requires forall k :: k in versions ==> k.0 < nextContentId || k == (c, n)
      requires forall k :: k in fields ==> k.0 < nextContentId || k == (c, n)
      requires forall k :: k in names ==> k.0 < nextContentId || k == (c, n)
      ensures Valid()
    {
    }

    /** updateMetadata: the metadata update is written into the content row
        of c, which is then loaded back: NotFound when c has no row. */
    method UpdateMetadata(c: nat, m: MetadataUpdate) returns (r: Result<ContentInfo>)
      requires Valid()
      modifies this`contents
      ensures Valid()
      ensures c in old(contents) ==> contents == old(contents)[c := ApplyMetadata(old(contents)[c], m)]
      ensures c !in old(contents) ==> contents == old(contents)
      ensures r == LoadContentInfo(c)
      ensures r.Ok? <==> c in old(contents)
      ensures r.Ok? ==> r.value == ApplyMetadata(old(contents)[c], m)
    {
      UpdateContentRow(c, m);
      r := LoadContentInfo(c);
    }

    /** updateVersion of the content gateway, over the version table. */
    method UpdateVersion(c: nat, v: nat, u: UpdateStruct)
      requires Valid()
      modifies this`versions
      ensures Valid() && (old(NoOrphanRows()) ==> NoOrphanRows())
      ensures versions == UpdateVersionRow(old(versions), c, v, u)
    {
      versions := UpdateVersionRow(versions, c, v, u);
    }

    /** updateFields of the field handler, over the field table. */
    method UpdateFieldsOf(c: nat, v: nat, updates: seq<Field>)
      modifies this`fields
      ensures fields == UpdateFieldRows(old(fields), c, v, updates)
    {
      fields := UpdateFieldRows(fields, c, v, updates);
    }

    /** updateContent: the version row of (c, v) takes the update's creator,
        date and initial language, the update's fields are written over the
        stored ones, its names are set, and the version is loaded back. Its
        status and number stay. Rows are written whether or not the version
        exists, so the invariants are kept only when c has been handed out,
        and the no-orphan property only when the version row exists. */
    method UpdateContent(c: nat, v: nat, u: UpdateStruct) returns (r: Result<Content>)
      requires Valid()
      modifies this`versions, this`fields, this`names
      ensures c < nextContentId ==> Valid()
      ensures old(NoOrphanRows()) && (c, v) in old(versions) ==> NoOrphanRows()
      ensures versions == UpdateVersionRow(old(versions), c, v, u)
      ensures FieldsOf(fields, c, v) == UpdateFields(old(FieldsOf(fields, c, v)), u.fields)
      ensures SameOutsideKey(old(fields), fields, (c, v))
      ensures NamesOf(names, c, v) == old(NamesOf(names, c, v)) + u.name
      ensures SameOutsideKey(old(names), names, (c, v))
      ensures r == Load(c, v, None)
      ensures r.Ok? <==> c in contents && (c, v) in old(versions)
      ensures r.Ok? ==>
        && r.value.version.versionNo == v && r.value.version.status == old(versions)[(c, v)].status
        && r.value.version.creatorId == u.creatorId && r.value.version.modificationDate == u.modificationDate
        && r.value.fields == UpdateFields(old(FieldsOf(fields, c, v)), u.fields)
        && r.value.version.names == old(NamesOf(names, c, v)) + u.name
    {
      UpdateVersion(c, v, u);
      UpdateFieldsOf(c, v, u.fields);
      WriteNames(c, v, u.name);
      if c < nextContentId {
        assert KeysBelow(fields, nextContentId) && KeysBelow(names, nextContentId);
      }
      r := Load(c, v, None);
    }

    /** getAllLocationIds: the ids of the locations of content c, ascending. */
    function GetAllLocationIds(c: nat): (r: seq<nat>)
      reads this
      ensures forall id: nat :: id in r <==> id < |locations| && locations[id].contentId == c
      ensures forall i, j :: 0 <= i < j < |r| ==> r[i] < r[j]
    {
      LocationIdsFrom(locations, c, 0)
    }

    /** deleteContent: the subtree of every location of c is handed to the
        location handler, in ascending order of location id; here that is
        recorded, the subtree removal itself is not modelled. */
    method DeleteContent(c: nat)
      modifies this`removedSubtrees
      ensures removedSubtrees == old(removedSubtrees) + GetAllLocationIds(c)
    {
      var ids := GetAllLocationIds(c);
      var i := 0;
      while i < |ids|
        invariant i <= |ids|
        invariant removedSubtrees == old(removedSubtrees) + ids[..i]
      {
        removedSubtrees := removedSubtrees + [ids[i]];
        i := i + 1;
        assert ids[..i] == ids[..i - 1] + [ids[i - 1]];
      }
      assert ids[..i] == ids;
    }

    /** removeRawContent: the fields, relations, versions, names and the
        content row of c are deleted, and no row of another content; node
        assignments and locations are left as they are. */
    method RemoveRawContent(c: nat)
      requires Valid()
      modifies this`fields, this`relations, this`versions, this`names, this`contents
      ensures Valid() && (old(NoOrphanRows()) ==> NoOrphanRows())
      ensures forall k :: k in fields ==> k.0 != c
      ensures forall k :: k in versions ==> k.0 != c
      ensures forall k :: k in names ==> k.0 != c
      ensures SameOutsideContent(old(fields), fields, c)
      ensures SameOutsideContent(old(versions), versions, c)
      ensures SameOutsideContent(old(names), names, c)
      ensures relations == DeleteRelations(old(relations), c, None)
      ensures contents == old(contents) - {c}
      ensures LoadContentInfo(c).Err?
    {
      fields := RemoveContent(fields, c);
      relations := DeleteRelations(relations, c, None);
      versions := RemoveContent(versions, c);
      names := RemoveContent(names, c);
      contents := contents - {c};
    }

    /** deleteVersion: the node assignments, fields, relations, version row
        and names of exactly (c, v) are deleted; every other version of c
        and every other content keep their rows. */
    method DeleteVersion(c: nat, v: nat)
      requires Valid()
      modifies this`nodeAssignments, this`fields, this`relations, this`versions, this`names
      ensures Valid() && (old(NoOrphanRows()) ==> NoOrphanRows())
      ensures nodeAssignments == RemoveAssignments(old(nodeAssignments), c, v)
      ensures (c, v) !in fields && SameOutsideKey(old(fields), fields, (c, v))
      ensures relations == DeleteRelations(old(relations), c, Some(v))
      ensures (c, v) !in versions && SameOutsideKey(old(versions), versions, (c, v))
      ensures (c, v) !in names && SameOutsideKey(old(names), names, (c, v))
      ensures LoadVersionInfo(c, v).Err? && Load(c, v, None).Err?
    {
      RemoveAssignmentsBelow(nodeAssignments, c, v, nextContentId);
      nodeAssignments := RemoveAssignments(nodeAssignments, c, v);
      fields := RemoveVersion(fields, c, v);
      relations := DeleteRelations(relations, c, Some(v));
      versions := RemoveVersion(versions, c, v);
      names := RemoveVersion(names, c, v);
    }

    /** addRelation is not implemented: it always fails. */
    method AddRelation(sourceContentId: nat, sourceVersionNo: nat, destinationContentId: nat, kind: RelationType)
      returns (r: Result<Relation>)
      ensures r == Err(NotImplemented)
    {
      r := Err(NotImplemented);
    }

    /** removeRelation is not implemented: it always fails. */
    method RemoveRelation(relationId: nat) returns (r: Result<()>)
      ensures r == Err(NotImplemented)
    {
      r := Err(NotImplemented);
    }

    /** loadRelations is not implemented: it always fails. */
    method LoadRelations(sourceContentId: nat, sourceVersionNo: Option<nat>, kind: Option<RelationType>)
      returns (r: Result<seq<Relation>>)
      ensures r == Err(NotImplemented)
    {
      r := Err(NotImplemented);
    }

    /** loadReverseRelations is not implemented: it always fails. */
    method LoadReverseRelations(destinationContentId: nat, kind: Option<RelationType>)
      returns (r: Result<seq<Relation>>)
      ensures r == Err(NotImplemented)
    {
      r := Err(NotImplemented);
    }

    /** The version copy starts from: the given one, or else the current
        version of c, as loadContentInfo gives it. */
    function CopySourceVersion(c: nat, versionNo: Option<nat>): (w: nat)
      reads this
      requires versionNo.Some? || c in contents
      ensures versionNo.Some? ==> w == versionNo.value
      ensures versionNo.None? ==> LoadContentInfo(c).Ok? && w == LoadContentInfo(c).value.currentVersionNo
    {
      if versionNo.Some? then versionNo.value else contents[c].currentVersionNo
    }

    /** copy finds what it starts from: the content row of c and the
        version it copies first. */
    function CanCopy(c: nat, versionNo: Option<nat>): (ok: bool)
      reads this
      ensures ok <==> LoadContentInfo(c).Ok? && Load(c, CopySourceVersion(c, versionNo), None).Ok?
    {
      c in contents && (c, CopySourceVersion(c, versionNo)) in versions
    }

    /** One round of the version loop of copy: version w of c is loaded and
        stored again as version w of d, dated `date`, with its fields and
        names. */
    method CopyVersion(c: nat, d: nat, w: nat, date: int)
      requires Valid()
      requires c != d && c in contents && d in contents && (c, w) in versions
      requires (d, w) !in versions && (d, w) !in fields && (d, w) !in names
      modifies this`versions, this`fields, this`names
      ensures Valid() && (old(NoOrphanRows()) ==> NoOrphanRows())
      ensures versions == old(versions)[(d, w) := CopiedRow(old(versions)[(c, w)], date)]
      ensures FieldsOf(fields, d, w) == old(FieldsOf(fields, c, w)) && SameOutsideKey(old(fields), fields, (d, w))
      ensures NamesOf(names, d, w) == old(NamesOf(names, c, w)) && SameOutsideKey(old(names), names, (d, w))
    {
      var loaded := Load(c, w, None);
      var content := loaded.value;
      var vi := content.version.(contentId := d, modificationDate := date, creationDate := date);
      var copied := Content(content.info.(id := d), vi, content.fields);
      StoreVersion(d, w, vi, copied.fields);
      assert [] + content.fields == content.fields;
      assert map[] + vi.names == vi.names;
    }

    /** The version loop of copy: every listed version of c other than
        `cur` is stored again under d with the same number, dated `date`;
        no row of another content and no row of (d, cur) is touched. */
    method CopyOtherVersions(c: nat, d: nat, cur: nat, vs: seq<VersionInfo>, date: int)
      requires Valid()
      requires c != d && c in contents && d in contents
      requires forall i :: 0 <= i < |vs| ==> (c, vs[i].versionNo) in versions
      requires forall i, j :: 0 <= i < j < |vs| ==> vs[i].versionNo < vs[j].versionNo
      requires forall w :: (d, w) in versions || (d, w) in fields || (d, w) in names ==> w == cur
      modifies this`versions, this`fields, this`names
      ensures Valid() && (old(NoOrphanRows()) ==> NoOrphanRows())
      ensures CopiedUpTo(old(versions), old(fields), old(names), versions, fields, names, c, d, cur, vs, |vs|, date)
    {
      CopiedNone(versions, fields, names, c, d, cur, vs, date);
      var i := 0;
      while i < |vs|
        invariant i <= |vs|
        invariant Valid() && (old(NoOrphanRows()) ==> NoOrphanRows())
        invariant CopiedUpTo(old(versions), old(fields), old(names), versions, fields, names, c, d, cur, vs, i, date)
      {
        var w := vs[i].versionNo;
        ghost var v1, f1, n1 := versions, fields, names;
        if w != cur {
          CopiedPending(old(versions), old(fields), old(names), versions, fields, names, c, d, cur, vs, i, date);
          CopyVersion(c, d, w, date);
        }
        CopiedStep(old(versions), old(fields), old(names), v1, f1, n1, versions, fields, names, c, d, cur, vs, i, date);
        i := i + 1;
      }
    }

    /** copy: a new content, under a fresh id, holding the version of c
        that copy starts from (the given one, or else the current one) with
        its number kept, and, when no version was given, every other version
        of c with its number kept too; the new content's dates, and those of
        its copied versions, are `now`, and it gets the fresh remote id
        `remoteId`. The source and every other content are left as they
        were. NotFound when the content row or that version is missing. */
    method Copy(c: nat, versionNo: Option<nat>, now: int, remoteId: string) returns (r: Result<Content>)
      requires Valid()
      modifies this
      ensures Valid() && (old(NoOrphanRows()) ==> NoOrphanRows())
      ensures r.Err? <==> !old(CanCopy(c, versionNo))
      ensures r.Err? ==> r.error.NotFound? && unchanged(this)
      ensures r.Ok? ==>
        var d, cur := r.value.info.id, old(CopySourceVersion(c, versionNo));
        && d == old(nextContentId) && nextContentId == d + 1 && d != c
        && contents == old(contents)[d := r.value.info]
        && FirstCopy(r.value, d, cur, old(contents)[c], old(versions)[(c, cur)],
                     old(NamesOf(names, c, cur)), old(FieldsOf(fields, c, cur)), now, remoteId)
        && Load(d, cur, None) == r
      ensures r.Ok? ==>
        var d, cur := r.value.info.id, old(CopySourceVersion(c, versionNo));
        && (forall w :: (d, w) in versions <==> w == cur || (versionNo.None? && (c, w) in old(versions)))
        && (forall w :: w != cur && (d, w) in versions ==>
              && versions[(d, w)] == CopiedRow(old(versions)[(c, w)], now)
              && FieldsOf(fields, d, w) == old(FieldsOf(fields, c, w))
              && NamesOf(names, d, w) == old(NamesOf(names, c, w)))
        && (forall w :: (d, w) in fields || (d, w) in names ==> (d, w) in versions)
        && SameOutsideContent(old(versions), versions, d)
        && SameOutsideContent(old(fields), fields, d)
        && SameOutsideContent(old(names), names, d)
      ensures relations == old(relations) && nodeAssignments == old(nodeAssignments)
      ensures locations == old(locations) && removedSubtrees == old(removedSubtrees)
    {
      var cur: nat;
      if versionNo.Some? {
        cur := versionNo.value;
      } else {
        var info := LoadContentInfo(c);
        if info.Err? {
          return Err(info.error);
        }
        cur := info.value.currentVersionNo;
      }
      var loaded := Load(c, cur, None);
      if loaded.Err? {
        return Err(loaded.error);
      }
      var content := CopyFirstVersion(c, cur, loaded.value, now, remoteId);
      ghost var v1, f1, n1 := versions, fields, names;
      if versionNo.None? {
        CopyRest(c, content.info.id, cur, now);
      }
      OutsideCopyComposes(old(versions), v1, versions, content.info.id, cur);
      OutsideCopyComposes(old(fields), f1, fields, content.info.id, cur);
      OutsideCopyComposes(old(names), n1, names, content.info.id, cur);
      r := Ok(content);
    }

    /** The first part of copy: the version cur of c, loaded as `src`, is
        turned into a create struct and created under a fresh id, keeping
        its number. */
    method CopyFirstVersion(c: nat, cur: nat, src: Content, now: int, remoteId: string) returns (content: Content)
      requires Valid()
      requires Load(c, cur, None) == Ok(src)
      modifies this
      ensures Valid() && (old(NoOrphanRows()) ==> NoOrphanRows())
      ensures
        var d := content.info.id;
        && d == old(nextContentId) && nextContentId == d + 1 && d != c
        && contents == old(contents)[d := content.info]
        && FirstCopy(content, d, cur, old(contents)[c], old(versions)[(c, cur)],
                     old(NamesOf(names, c, cur)), old(FieldsOf(fields, c, cur)), now, remoteId)
        && Load(d, cur, None) == Ok(content)
      ensures
        var d := content.info.id;
        && versions == old(versions)[(d, cur) := RowFromInfo(content.version)]
        && SameOutsideKey(old(fields), fields, (d, cur)) && SameOutsideKey(old(names), names, (d, cur))
        && (forall w :: (d, w) in versions || (d, w) in fields || (d, w) in names ==> w == cur)
      ensures relations == old(relations) && nodeAssignments == old(nodeAssignments)
      ensures locations == old(locations) && removedSubtrees == old(removedSubtrees)
    {
      var cs := Mapper.CreateCreateStructFromContent(src, now, remoteId);
      content := Create(cs, cur);
      assert nodeAssignments == nodeAssignments[..|old(nodeAssignments)|];
    }

    /** The version loop of copy over the listed versions of c, after the
        first one has been stored as (d, cur). */
    method CopyRest(c: nat, d: nat, cur: nat, date: int)
      requires Valid()
      requires c != d && c in contents && d in contents
      requires forall w :: (d, w) in versions || (d, w) in fields || (d, w) in names ==> w == cur
      modifies this`versions, this`fields, this`names
      ensures Valid() && (old(NoOrphanRows()) ==> NoOrphanRows())
      ensures forall w :: w != cur ==> ((d, w) in versions <==> (c, w) in old(versions))
      ensures forall w :: w != cur && (d, w) in versions ==>
        && (c, w) in old(versions) && versions[(d, w)] == CopiedRow(old(versions)[(c, w)], date)
        && FieldsOf(fields, d, w) == old(FieldsOf(fields, c, w))
        && NamesOf(names, d, w) == old(NamesOf(names, c, w))
      ensures forall w :: w != cur && ((d, w) in fields || (d, w) in names) ==> (d, w) in versions
      ensures SameOutsideCopy(old(versions), versions, d, cur)
      ensures SameOutsideCopy(old(fields), fields, d, cur)
      ensures SameOutsideCopy(old(names), names, d, cur)
      ensures Load(d, cur, None) == old(Load(d, cur, None))
    {
      var vs := ListVersions(c);
      CopyOtherVersions(c, d, cur, vs, date);
      forall w | w != cur ensures (d, w) in versions <==> (c, w) in old(versions) {
        assert (d, w) in versions <==> exists i :: 0 <= i < |vs| && i < |vs| && vs[i].versionNo == w;
      }
    }
  }
}
