/**
 The check run on a locally built storage-service write before it is pushed:
 the new manifest (a version and the full list of typed storage ids), the
 records being inserted and the raw ids being deleted are compared with the
 previous manifest. The outcome is `Pass` or `Failure(kind)`, one kind per
 error class of the source. The checks run in the source's order and the
 first one that fails decides the outcome.
 */
module StorageSyncValidations {
  import opened Wrappers
  import opened Addresses

  type Bytes = seq<bv8>

  // Identifier types of the storage protocol (`ManifestRecord.Identifier.Type`).
  const UNKNOWN_TYPE: int := 0
  const CONTACT_TYPE: int := 1
  const GROUPV1_TYPE: int := 2
  const GROUPV2_TYPE: int := 3
  const ACCOUNT_TYPE: int := 4
  const STORY_DISTRIBUTION_LIST_TYPE: int := 5

  /** A storage id: a type tag and the raw key bytes. Two ids are equal when
      both the type and the raw bytes are. */
  datatype StorageId = StorageId(typ: int, raw: Bytes)

  datatype Manifest = Manifest(version: int, storageIds: seq<StorageId>)

  /** What an inserted record holds. A record with none of the known kinds is
      unknown. */
  datatype Payload =
    | ContactPayload(aci: Option<Uuid>, pni: Option<Uuid>, number: Option<string>, username: Option<string>)
    | AccountPayload(profileKey: Option<Bytes>)
    | GroupV1Payload
    | GroupV2Payload
    | StoryDistributionListPayload
    | UnknownPayload

  datatype StorageRecord = StorageRecord(id: StorageId, payload: Payload)

  datatype WriteOperationResult = WriteOperationResult(
    manifest: Manifest,
    inserts: seq<StorageRecord>,
    deletes: seq<Bytes>)

  /** One constructor per error class thrown by the validator. */
  datatype ValidationError =
    | DuplicateStorageId
    | DuplicateRawIdAcrossTypes
    | DuplicateContactId
    | DuplicateGroupV1Id
    | DuplicateGroupV2Id
    | DuplicateDistributionListId
    | DuplicateInsertInWrite
    | InsertNotPresentInFullIdSet
    | DeletePresentInFullIdSet
    | UnknownInsert
    | MultipleAccount
    | MissingAccount
    | SelfAddedAsContact
    | IncorrectManifestVersion
    | MoreInsertsThanExpected
    | LessInsertsThanExpected
    | InsertMismatch
    | MoreDeletesThanExpected
    | LessDeletesThanExpected
    | DeleteMismatch

  datatype Outcome = Pass | Failure(kind: ValidationError)

  // ---------------------------------------------------------------------------
  // Collections

  function ToSet<T>(s: seq<T>): set<T> {
    set x | x in s
  }

  predicate Distinct<T(==)>(s: seq<T>) {
    forall i, j :: 0 <= i < j < |s| ==> s[i] != s[j]
  }

  /** `list.size() != new HashSet<>(list).size()`. */
  predicate HasDuplicates<T(==)>(s: seq<T>) {
    |s| != |ToSet(s)|
  }

  /** The raw bytes of a set of storage ids. */
  function RawIds(ids: set<StorageId>): set<Bytes> {
    set id | id in ids :: id.raw
  }

  /** `getStorageIdsByType().get(t)`: the ids of type `t`, in manifest order. */
  function IdsOfType(ids: seq<StorageId>, t: int): (r: seq<StorageId>)
    ensures forall x :: x in r <==> x in ids && x.typ == t
    ensures |r| <= |ids|
  {
    if ids == [] then []
    else (if ids[0].typ == t then [ids[0]] else []) + IdsOfType(ids[1..], t)
  }

  /** How many ids of type `t` the list holds (the `accountCount +=` loop). */
  function CountOfType(ids: seq<StorageId>, t: int): nat {
    if ids == [] then 0
    else CountOfType(ids[..|ids| - 1], t) + (if ids[|ids| - 1].typ == t then 1 else 0)
  }

  // ---------------------------------------------------------------------------
  // The structural check of a manifest and its inserts

  /** The address built from an inserted contact record. */
  function ContactAddress(p: Payload): RecipientAddress
    requires p.ContactPayload?
  {
    RecipientAddress(p.aci, p.pni, p.number, p.username)
  }

  /** The checks made on one insert, in order: it is in the manifest, it is
      not unknown, and it is not the local user added as a contact. */
  function InsertError(r: StorageRecord, allSet: set<StorageId>, self: RecipientAddress): Option<ValidationError> {
    if r.id !in allSet then Some(InsertNotPresentInFullIdSet)
    else if r.payload.UnknownPayload? then Some(UnknownInsert)
    else if r.payload.ContactPayload? && Matches(self, ContactAddress(r.payload)) then Some(SelfAddedAsContact)
    else None
  }

  /** The inserts checked in list order; the first failing insert decides. */
  function InsertsCheck(inserts: seq<StorageRecord>, allSet: set<StorageId>, self: RecipientAddress): Outcome {
    if inserts == [] then Pass
    else match InsertError(inserts[0], allSet, self)
      case Some(e) => Failure(e)
      case None => InsertsCheck(inserts[1..], allSet, self)
  }

  /** Reached only when two ids share raw bytes: the per-type duplicate checks,
      then the cross-type error. */
  function TypedDuplicateCheck(ids: seq<StorageId>): Outcome {
    if HasDuplicates(IdsOfType(ids, CONTACT_TYPE)) then Failure(DuplicateContactId)
    else if HasDuplicates(IdsOfType(ids, GROUPV1_TYPE)) then Failure(DuplicateGroupV1Id)
    else if HasDuplicates(IdsOfType(ids, GROUPV2_TYPE)) then Failure(DuplicateGroupV2Id)
    else if HasDuplicates(IdsOfType(ids, STORY_DISTRIBUTION_LIST_TYPE)) then Failure(DuplicateDistributionListId)
    else Failure(DuplicateRawIdAcrossTypes)
  }

  /** Specification of `validateManifestAndInserts`. */
  function ManifestAndInsertsCheck(m: Manifest, inserts: seq<StorageRecord>, self: RecipientAddress): Outcome {
    var accountCount := CountOfType(m.storageIds, ACCOUNT_TYPE);
    if accountCount > 1 then Failure(MultipleAccount)
    else if accountCount == 0 then Failure(MissingAccount)
    else
      var allSet := ToSet(m.storageIds);
      var insertSet := set r | r in inserts :: r.id;
      var rawIdSet := RawIds(allSet);
      if |allSet| != |m.storageIds| then Failure(DuplicateStorageId)
      else if |rawIdSet| != |allSet| then TypedDuplicateCheck(m.storageIds)
      else if |inserts| > |insertSet| then Failure(DuplicateInsertInWrite)
      else InsertsCheck(inserts, allSet, self)
  }

  // ---------------------------------------------------------------------------
  // Deletes, version and diff

  /** Every declared delete must be absent from the new manifest's raw ids
      (the source skips the scan when there are no deletes). */
  function DeletesCheck(m: Manifest, deletes: seq<Bytes>): Outcome {
    if |deletes| == 0 then Pass
    else if exists d :: d in deletes && d in RawIds(ToSet(m.storageIds)) then Failure(DeletePresentInFullIdSet)
    else Pass
  }

  /** The raw ids in the new manifest and not in the previous one. */
  function ManifestInserts(previous: Manifest, next: Manifest): set<Bytes> {
    RawIds(ToSet(next.storageIds)) - RawIds(ToSet(previous.storageIds))
  }

  /** The raw ids in the previous manifest and not in the new one. */
  function ManifestDeletes(previous: Manifest, next: Manifest): set<Bytes> {
    RawIds(ToSet(previous.storageIds)) - RawIds(ToSet(next.storageIds))
  }

  function DeclaredInserts(result: WriteOperationResult): set<Bytes> {
    set r | r in result.inserts :: r.id.raw
  }

  function DeclaredDeletes(result: WriteOperationResult): set<Bytes> {
    ToSet(result.deletes)
  }

  /** The diff part: sizes first, then containment, inserts before deletes. */
  function DiffCheck(previous: Manifest, result: WriteOperationResult): Outcome {
    var manifestInserts := ManifestInserts(previous, result.manifest);
    var manifestDeletes := ManifestDeletes(previous, result.manifest);
    var declaredInserts := DeclaredInserts(result);
    var declaredDeletes := DeclaredDeletes(result);
    if |declaredInserts| > |manifestInserts| then Failure(MoreInsertsThanExpected)
    else if |declaredInserts| < |manifestInserts| then Failure(LessInsertsThanExpected)
    else if !(manifestInserts <= declaredInserts) then Failure(InsertMismatch)
    else if |declaredDeletes| > |manifestDeletes| then Failure(MoreDeletesThanExpected)
    else if |declaredDeletes| < |manifestDeletes| then Failure(LessDeletesThanExpected)
    else if !(manifestDeletes <= declaredDeletes) then Failure(DeleteMismatch)
    else Pass
  }

  /** Specification of `validate`. */
  function WriteCheck(result: WriteOperationResult, previous: Manifest, forcePushPending: bool, self: RecipientAddress): Outcome {
    var structural := ManifestAndInsertsCheck(result.manifest, result.inserts, self);
    var deletes := DeletesCheck(result.manifest, result.deletes);
    if structural.Failure? then structural
    else if deletes.Failure? then deletes
    else if previous.version == 0 then Pass
    else if result.manifest.version != previous.version + 1 then Failure(IncorrectManifestVersion)
    else if forcePushPending then Pass
    else DiffCheck(previous, result)
  }

  // ---------------------------------------------------------------------------
  // The validator as the source runs it

  method ValidateManifestAndInserts(manifest: Manifest, inserts: seq<StorageRecord>, self: RecipientAddress)
    returns (o: Outcome)
    ensures o == ManifestAndInsertsCheck(manifest, inserts, self)
  {
    var ids := manifest.storageIds;
    var accountCount := 0;
    for i := 0 to |ids|
      invariant accountCount == CountOfType(ids[..i], ACCOUNT_TYPE)
    {
      assert ids[..i + 1][..i] == ids[..i];
      accountCount := accountCount + if ids[i].typ == ACCOUNT_TYPE then 1 else 0;
    }
    assert ids[..|ids|] == ids;

    if accountCount > 1 {
      return Failure(MultipleAccount);
    }
    if accountCount == 0 {
      return Failure(MissingAccount);
    }

    var allSet := ToSet(ids);
    var insertSet := set r | r in inserts :: r.id;
    var rawIdSet := RawIds(allSet);

    if |allSet| != |ids| {
      return Failure(DuplicateStorageId);
    }
    if |rawIdSet| != |allSet| {
      var typed := IdsOfType(ids, CONTACT_TYPE);
      if |typed| != |ToSet(typed)| {
        return Failure(DuplicateContactId);
      }
      typed := IdsOfType(ids, GROUPV1_TYPE);
      if |typed| != |ToSet(typed)| {
        return Failure(DuplicateGroupV1Id);
      }
      typed := IdsOfType(ids, GROUPV2_TYPE);
      if |typed| != |ToSet(typed)| {
        return Failure(DuplicateGroupV2Id);
      }
      typed := IdsOfType(ids, STORY_DISTRIBUTION_LIST_TYPE);
      if |typed| != |ToSet(typed)| {
        return Failure(DuplicateDistributionListId);
      }
      return Failure(DuplicateRawIdAcrossTypes);
    }
    if |inserts| > |insertSet| {
      return Failure(DuplicateInsertInWrite);
    }

    for i := 0 to |inserts|
      invariant InsertsCheck(inserts, allSet, self) == InsertsCheck(inserts[i..], allSet, self)
    {
      var insert := inserts[i];
      if insert.id !in allSet {
        return Failure(InsertNotPresentInFullIdSet);
      }
      if insert.payload.UnknownPayload? {
        return Failure(UnknownInsert);
      }
      if insert.payload.ContactPayload? {
        var address := RecipientAddress(insert.payload.aci, insert.payload.pni, insert.payload.number, insert.payload.username);
        if Matches(self, address) {
          return Failure(SelfAddedAsContact);
        }
      }
      assert inserts[i..][1..] == inserts[i + 1..];
    }
    return Pass;
  }

  method ValidateForcePush(manifest: Manifest, inserts: seq<StorageRecord>, self: RecipientAddress)
    returns (o: Outcome)
    ensures o == ManifestAndInsertsCheck(manifest, inserts, self)
  {
    o := ValidateManifestAndInserts(manifest, inserts, self);
  }

  method Validate(result: WriteOperationResult, previousManifest: Manifest, forcePushPending: bool, self: RecipientAddress)
    returns (o: Outcome)
    ensures o == WriteCheck(result, previousManifest, forcePushPending, self)
  {
    o := ValidateManifestAndInserts(result.manifest, result.inserts, self);
    if o.Failure? {
      return;
    }

    if |result.deletes| != 0 {
      var allSetEncoded := RawIds(ToSet(result.manifest.storageIds));
      for i := 0 to |result.deletes|
        invariant forall k :: 0 <= k < i ==> result.deletes[k] !in allSetEncoded
      {
        if result.deletes[i] in allSetEncoded {
          return Failure(DeletePresentInFullIdSet);
        }
      }
    }

    if previousManifest.version == 0 {
      return Pass;
    }
    if result.manifest.version != previousManifest.version + 1 {
      return Failure(IncorrectManifestVersion);
    }
    if forcePushPending {
      return Pass;
    }
    o := DiffCheck(previousManifest, result);
  }

  // ---------------------------------------------------------------------------
  // Collection lemmas

  /** A list has no repeated element exactly when turning it into a set keeps its size. */
  lemma {:induction false} DistinctIffSameSize<T>(s: seq<T>)
    ensures |ToSet(s)| <= |s|
    ensures |ToSet(s)| == |s| <==> Distinct(s)
  {
    if s != [] {
      var t := s[1..];
      DistinctIffSameSize(t);
      assert ToSet(s) == {s[0]} + ToSet(t);
      if s[0] in ToSet(t) {
        assert ToSet(s) == ToSet(t);
        var k :| 0 <= k < |t| && t[k] == s[0];
        assert s[0] == s[k + 1];
      } else {
        assert |ToSet(s)| == 1 + |ToSet(t)|;
        if Distinct(t) {
          forall i, j | 0 <= i < j < |s| ensures s[i] != s[j] {
            if i == 0 {
              assert s[j] == t[j - 1];
            } else {
              assert s[i] == t[i - 1] && s[j] == t[j - 1];
            }
          }
        }
        if Distinct(s) {
          forall i, j | 0 <= i < j < |t| ensures t[i] != t[j] {
            assert t[i] == s[i + 1] && t[j] == s[j + 1];
          }
        }
      }
    }
  }

  /** Keeping the ids of one type keeps a duplicate-free list duplicate-free. */
  lemma {:induction false} IdsOfTypeDistinct(ids: seq<StorageId>, t: int)
    requires Distinct(ids)
    ensures Distinct(IdsOfType(ids, t))
  {
    if ids != [] {
      var rest := ids[1..];
      assert Distinct(rest) by {
        forall i, j | 0 <= i < j < |rest| ensures rest[i] != rest[j] {
          assert rest[i] == ids[i + 1] && rest[j] == ids[j + 1];
        }
      }
      IdsOfTypeDistinct(rest, t);
      if ids[0].typ == t {
        var r := IdsOfType(ids, t);
        var tail := IdsOfType(rest, t);
        assert r == [ids[0]] + tail;
        assert ids[0] !in rest by {
          forall k | 0 <= k < |rest| ensures rest[k] != ids[0] {
            assert rest[k] == ids[k + 1];
          }
        }
        forall i, j | 0 <= i < j < |r| ensures r[i] != r[j] {
          if i == 0 {
            assert r[j] == tail[j - 1];
            assert tail[j - 1] in tail;
          } else {
            assert r[i] == tail[i - 1] && r[j] == tail[j - 1];
          }
        }
      }
    }
  }

  /** Mapping a set to raw bytes keeps its size exactly when no two of its ids
      share raw bytes. */
  lemma {:induction false} RawIdsSameSizeIff(ids: set<StorageId>)
    ensures |RawIds(ids)| <= |ids|
    ensures |RawIds(ids)| == |ids| <==>
      (forall x, y :: x in ids && y in ids && x.raw == y.raw ==> x == y)
    decreases |ids|
  {
    if ids != {} {
      var x :| x in ids;
      var rest := ids - {x};
      RawIdsSameSizeIff(rest);
      if exists y :: y in rest && y.raw == x.raw {
        var y :| y in rest && y.raw == x.raw;
        assert RawIds(ids) == RawIds(rest);
        assert x != y;
      } else {
        assert RawIds(ids) == RawIds(rest) + {x.raw};
        assert x.raw !in RawIds(rest);
        if forall a, b :: a in rest && b in rest && a.raw == b.raw ==> a == b {
          forall a, b | a in ids && b in ids && a.raw == b.raw ensures a == b {
            if a == x || b == x {
              assert a.raw == x.raw && b.raw == x.raw;
            }
          }
        }
      }
    }
  }

  lemma SubsetOfSameSize<T>(a: set<T>, b: set<T>)
    requires a <= b && |a| == |b|
    ensures a == b
  {
    assert b == a + (b - a);
    assert |b - a| == 0;
  }

  /** More than one id of a type means two distinct positions of that type;
      none means no position of it. */
  lemma {:induction false} CountOfTypeMeaning(ids: seq<StorageId>, t: int)
    ensures CountOfType(ids, t) == 0 <==> forall i :: 0 <= i < |ids| ==> ids[i].typ != t
    ensures CountOfType(ids, t) > 1 <==>
      exists i, j :: 0 <= i < j < |ids| && ids[i].typ == t && ids[j].typ == t
  {
    if ids != [] {
      var init := ids[..|ids| - 1];
      var n := |ids| - 1;
      CountOfTypeMeaning(init, t);
      assert forall i :: 0 <= i < n ==> init[i] == ids[i];
      if CountOfType(ids, t) > 1 {
        if ids[n].typ == t && CountOfType(init, t) == 1 {
          assert !(forall i :: 0 <= i < n ==> init[i].typ != t);
          var i :| 0 <= i < n && init[i].typ == t;
          assert ids[i].typ == t && ids[n].typ == t;
        } else {
          var i, j :| 0 <= i < j < n && init[i].typ == t && init[j].typ == t;
          assert ids[i].typ == t && ids[j].typ == t;
        }
      }
      if exists i, j :: 0 <= i < j < |ids| && ids[i].typ == t && ids[j].typ == t {
        var i, j :| 0 <= i < j < |ids| && ids[i].typ == t && ids[j].typ == t;
        if j < n {
          assert init[i].typ == t && init[j].typ == t;
        } else {
          assert init[i].typ == t;
        }
      }
    }
  }

  // ---------------------------------------------------------------------------
  // Properties of the structural check

  /** A manifest with two ACCOUNT ids fails with MultipleAccount and one with
      none with MissingAccount, before anything else is looked at; a manifest
      that gets further holds exactly one ACCOUNT id. */
  lemma AccountRule(m: Manifest, inserts: seq<StorageRecord>, self: RecipientAddress)
    ensures (exists i, j :: 0 <= i < j < |m.storageIds| && m.storageIds[i].typ == ACCOUNT_TYPE && m.storageIds[j].typ == ACCOUNT_TYPE)
      ==> ManifestAndInsertsCheck(m, inserts, self) == Failure(MultipleAccount)
    ensures (forall i :: 0 <= i < |m.storageIds| ==> m.storageIds[i].typ != ACCOUNT_TYPE)
      ==> ManifestAndInsertsCheck(m, inserts, self) == Failure(MissingAccount)
    ensures ManifestAndInsertsCheck(m, inserts, self) !in {Failure(MultipleAccount), Failure(MissingAccount)}
      ==> CountOfType(m.storageIds, ACCOUNT_TYPE) == 1
  {
    CountOfTypeMeaning(m.storageIds, ACCOUNT_TYPE);
  }

  /** With exactly one ACCOUNT id, a repeated (type, raw) id fails with
      DuplicateStorageId. */
  lemma RepeatedIdRule(m: Manifest, inserts: seq<StorageRecord>, self: RecipientAddress)
    requires CountOfType(m.storageIds, ACCOUNT_TYPE) == 1
    requires !Distinct(m.storageIds)
    ensures ManifestAndInsertsCheck(m, inserts, self) == Failure(DuplicateStorageId)
  {
    DistinctIffSameSize(m.storageIds);
  }

  /** Once the whole-id check has passed, no per-type list can hold a
      duplicate, so the typed checks never fire and the outcome is the
      cross-type error. */
  lemma TypedDuplicatesUnreachable(ids: seq<StorageId>)
    requires |ToSet(ids)| == |ids|
    ensures TypedDuplicateCheck(ids) == Failure(DuplicateRawIdAcrossTypes)
  {
    DistinctIffSameSize(ids);
    forall t | t in {CONTACT_TYPE, GROUPV1_TYPE, GROUPV2_TYPE, STORY_DISTRIBUTION_LIST_TYPE}
      ensures !HasDuplicates(IdsOfType(ids, t))
    {
      IdsOfTypeDistinct(ids, t);
      DistinctIffSameSize(IdsOfType(ids, t));
    }
  }

  /** With one ACCOUNT id and no repeated id, two ids of different types that
      share raw bytes end in DuplicateRawIdAcrossTypes. */
  lemma SharedRawIdRule(m: Manifest, inserts: seq<StorageRecord>, self: RecipientAddress, i: nat, j: nat)
    requires CountOfType(m.storageIds, ACCOUNT_TYPE) == 1
    requires Distinct(m.storageIds)
    requires i < |m.storageIds| && j < |m.storageIds|
    requires m.storageIds[i].raw == m.storageIds[j].raw && m.storageIds[i].typ != m.storageIds[j].typ
    ensures ManifestAndInsertsCheck(m, inserts, self) == Failure(DuplicateRawIdAcrossTypes)
  {
    var allSet := ToSet(m.storageIds);
    DistinctIffSameSize(m.storageIds);
    RawIdsSameSizeIff(allSet);
    assert m.storageIds[i] in allSet && m.storageIds[j] in allSet;
    TypedDuplicatesUnreachable(m.storageIds);
  }

  /** Past the id checks, repeating an insert id fails with DuplicateInsertInWrite. */
  lemma RepeatedInsertRule(m: Manifest, inserts: seq<StorageRecord>, self: RecipientAddress, i: nat, j: nat)
    requires CountOfType(m.storageIds, ACCOUNT_TYPE) == 1
    requires Distinct(m.storageIds)
    requires forall x, y :: x in m.storageIds && y in m.storageIds && x.raw == y.raw ==> x == y
    requires i < j < |inserts| && inserts[i].id == inserts[j].id
    ensures ManifestAndInsertsCheck(m, inserts, self) == Failure(DuplicateInsertInWrite)
  {
    var allSet := ToSet(m.storageIds);
    DistinctIffSameSize(m.storageIds);
    RawIdsSameSizeIff(allSet);
    var ids := seq(|inserts|, k requires 0 <= k < |inserts| => inserts[k].id);
    assert (set r | r in inserts :: r.id) == ToSet(ids) by {
      forall x | x in ToSet(ids) ensures x in (set r | r in inserts :: r.id) {
        var k :| 0 <= k < |ids| && ids[k] == x;
        assert inserts[k] in inserts;
      }
      forall x | x in (set r | r in inserts :: r.id) ensures x in ToSet(ids) {
        var r :| r in inserts && r.id == x;
        var k :| 0 <= k < |inserts| && inserts[k] == r;
        assert ids[k] == x;
      }
    }
    assert ids[i] == ids[j];
    DistinctIffSameSize(ids);
  }

  /** The insert loop fails exactly at the first insert that fails one of its
      three checks, with that check's error, and passes when none fails. */
  lemma {:induction false} InsertsCheckFirstFailure(inserts: seq<StorageRecord>, allSet: set<StorageId>, self: RecipientAddress)
    ensures InsertsCheck(inserts, allSet, self) == Pass <==>
      forall k :: 0 <= k < |inserts| ==> InsertError(inserts[k], allSet, self) == None
    ensures InsertsCheck(inserts, allSet, self).Failure? ==>
      exists k :: 0 <= k < |inserts|
        && (forall j :: 0 <= j < k ==> InsertError(inserts[j], allSet, self) == None)
        && InsertError(inserts[k], allSet, self) == Some(InsertsCheck(inserts, allSet, self).kind)
  {
    if inserts != [] {
      var rest := inserts[1..];
      InsertsCheckFirstFailure(rest, allSet, self);
      assert forall k :: 0 <= k < |rest| ==> rest[k] == inserts[k + 1];
      if InsertError(inserts[0], allSet, self) == None {
        if InsertsCheck(rest, allSet, self).Failure? {
          var k :| 0 <= k < |rest|
            && (forall j :: 0 <= j < k ==> InsertError(rest[j], allSet, self) == None)
            && InsertError(rest[k], allSet, self) == Some(InsertsCheck(rest, allSet, self).kind);
          assert forall j :: 0 <= j < k + 1 ==> InsertError(inserts[j], allSet, self) == None by {
            forall j | 0 <= j < k + 1 ensures InsertError(inserts[j], allSet, self) == None {
              if j > 0 { assert inserts[j] == rest[j - 1]; }
            }
          }
        }
        if forall k :: 0 <= k < |rest| ==> InsertError(rest[k], allSet, self) == None {
          forall k | 0 <= k < |inserts| ensures InsertError(inserts[k], allSet, self) == None {
            if k > 0 { assert inserts[k] == rest[k - 1]; }
          }
        }
      }
    }
  }

  /** An inserted contact that matches the local user's address is rejected
      with SelfAddedAsContact, whatever else it holds, unless an earlier check
      already rejected the write. */
  lemma SelfProtection(inserts: seq<StorageRecord>, allSet: set<StorageId>, self: RecipientAddress, k: nat)
    requires k < |inserts| && inserts[k].id in allSet
    requires inserts[k].payload.ContactPayload? && Matches(self, ContactAddress(inserts[k].payload))
    ensures InsertsCheck(inserts, allSet, self) != Pass
    ensures (forall j :: 0 <= j < k ==> InsertError(inserts[j], allSet, self) == None)
      ==> InsertsCheck(inserts, allSet, self) == Failure(SelfAddedAsContact)
  {
    InsertsCheckFirstFailure(inserts, allSet, self);
    if InsertsCheck(inserts, allSet, self).Failure? {
      var k' :| 0 <= k' < |inserts|
        && (forall j :: 0 <= j < k' ==> InsertError(inserts[j], allSet, self) == None)
        && InsertError(inserts[k'], allSet, self) == Some(InsertsCheck(inserts, allSet, self).kind);
      assert InsertError(inserts[k], allSet, self) == Some(SelfAddedAsContact);
    }
  }

  // ---------------------------------------------------------------------------
  // Properties of the whole validation

  /** After the structural checks, a declared delete that is still among the
      new manifest's raw ids fails with DeletePresentInFullIdSet. */
  lemma DeletePresentRule(result: WriteOperationResult, previous: Manifest, forcePushPending: bool, self: RecipientAddress, k: nat)
    requires ManifestAndInsertsCheck(result.manifest, result.inserts, self) == Pass
    requires k < |result.deletes|
    requires exists id :: id in result.manifest.storageIds && id.raw == result.deletes[k]
    ensures WriteCheck(result, previous, forcePushPending, self) == Failure(DeletePresentInFullIdSet)
  {
    var id :| id in result.manifest.storageIds && id.raw == result.deletes[k];
    assert id in ToSet(result.manifest.storageIds);
    assert result.deletes[k] in RawIds(ToSet(result.manifest.storageIds));
  }

  /** Against a never-synced previous manifest (version 0), a write that passes
      the structural and delete checks is accepted, whatever its version and
      its declared diff. */
  lemma FirstWriteAccepted(result: WriteOperationResult, previous: Manifest, forcePushPending: bool, self: RecipientAddress)
    requires previous.version == 0
    requires ManifestAndInsertsCheck(result.manifest, result.inserts, self) == Pass
    requires DeletesCheck(result.manifest, result.deletes) == Pass
    ensures WriteCheck(result, previous, forcePushPending, self) == Pass
  {
  }

  /** Otherwise the version must advance by exactly one, and this is checked
      before the force-push bypass: a pending force push does not excuse a
      wrong version, and an unchanged version always fails. */
  lemma VersionCheckedBeforeForcePush(result: WriteOperationResult, previous: Manifest, forcePushPending: bool, self: RecipientAddress)
    requires previous.version != 0
    requires ManifestAndInsertsCheck(result.manifest, result.inserts, self) == Pass
    requires DeletesCheck(result.manifest, result.deletes) == Pass
    ensures result.manifest.version != previous.version + 1
      ==> WriteCheck(result, previous, forcePushPending, self) == Failure(IncorrectManifestVersion)
    ensures result.manifest.version == previous.version
      ==> WriteCheck(result, previous, forcePushPending, self) == Failure(IncorrectManifestVersion)
    ensures result.manifest.version == previous.version + 1 && forcePushPending
      ==> WriteCheck(result, previous, forcePushPending, self) == Pass
  {
  }

  /** The diff check accepts exactly when the declared inserts and deletes are
      the true set differences of the raw ids. */
  lemma DiffCheckIff(previous: Manifest, result: WriteOperationResult)
    ensures DiffCheck(previous, result) == Pass <==>
      DeclaredInserts(result) == ManifestInserts(previous, result.manifest)
      && DeclaredDeletes(result) == ManifestDeletes(previous, result.manifest)
  {
    var mi, md := ManifestInserts(previous, result.manifest), ManifestDeletes(previous, result.manifest);
    var di, dd := DeclaredInserts(result), DeclaredDeletes(result);
    if DiffCheck(previous, result) == Pass {
      SubsetOfSameSize(mi, di);
      SubsetOfSameSize(md, dd);
    }
  }

  /** Past the structural, delete and version checks and without a pending
      force push, `validate` accepts if and only if the declared diff is the
      true diff. */
  lemma AcceptanceIsTrueDiff(result: WriteOperationResult, previous: Manifest, self: RecipientAddress)
    requires ManifestAndInsertsCheck(result.manifest, result.inserts, self) == Pass
    requires DeletesCheck(result.manifest, result.deletes) == Pass
    requires previous.version != 0 && result.manifest.version == previous.version + 1
    ensures WriteCheck(result, previous, false, self) == Pass <==>
      DeclaredInserts(result) == ManifestInserts(previous, result.manifest)
      && DeclaredDeletes(result) == ManifestDeletes(previous, result.manifest)
  {
    DiffCheckIff(previous, result);
  }

  /** A first write (previous manifest at version 0) that declares no deletes
      is judged by the structural checks alone. */
  lemma FirstWriteWithoutDeletesIsStructural(manifest: Manifest, inserts: seq<StorageRecord>, self: RecipientAddress)
    ensures WriteCheck(WriteOperationResult(manifest, inserts, []), Manifest(0, []), false, self)
      == ManifestAndInsertsCheck(manifest, inserts, self)
  {
  }

  // ---------------------------------------------------------------------------
  // A worked example: manifest version 5 holds {A, B, C}; the new manifest,
  // version 6, holds {A, B, D}, so the true diff inserts D and deletes C.

  const ScenarioSelf := RecipientAddress(Some(100), None, Some("+15550100"), None)
  const IdA := StorageId(ACCOUNT_TYPE, [1])
  const IdB := StorageId(CONTACT_TYPE, [2])
  const IdC := StorageId(CONTACT_TYPE, [3])
  const IdD := StorageId(CONTACT_TYPE, [4])
  const IdE := StorageId(CONTACT_TYPE, [5])
  const ScenarioPrevious := Manifest(5, [IdA, IdB, IdC])
  const ScenarioNext := Manifest(6, [IdA, IdB, IdD])
  const RecordD := StorageRecord(IdD, ContactPayload(Some(7), None, None, None))
  const RecordE := StorageRecord(IdE, ContactPayload(Some(8), None, None, None))

  lemma ScenarioRawIds()
    ensures RawIds(ToSet(ScenarioPrevious.storageIds)) == {[1], [2], [3]}
    ensures RawIds(ToSet(ScenarioNext.storageIds)) == {[1], [2], [4]}
    ensures ManifestInserts(ScenarioPrevious, ScenarioNext) == {[4]}
    ensures ManifestDeletes(ScenarioPrevious, ScenarioNext) == {[3]}
  {
    assert ToSet(ScenarioPrevious.storageIds) == {IdA, IdB, IdC};
    assert ToSet(ScenarioNext.storageIds) == {IdA, IdB, IdD};
  }

  /** The new manifest has one ACCOUNT id, three distinct ids and three
      distinct raw ids. */
  lemma ScenarioNextShape()
    ensures CountOfType(ScenarioNext.storageIds, ACCOUNT_TYPE) == 1
    ensures ToSet(ScenarioNext.storageIds) == {IdA, IdB, IdD}
    ensures |ToSet(ScenarioNext.storageIds)| == 3
    ensures |RawIds(ToSet(ScenarioNext.storageIds))| == 3
  {
    var ids := ScenarioNext.storageIds;
    assert ids[..2][..1] == [IdA];
    assert ids[..1][..0] == [];
    assert ids[..|ids| - 1] == ids[..2];
    assert ids[..2][..|ids[..2]| - 1] == ids[..1];
    assert CountOfType(ids[..1], ACCOUNT_TYPE) == 1;
    assert CountOfType(ids[..2], ACCOUNT_TYPE) == 1;
    assert ToSet(ids) == {IdA, IdB, IdD};
    assert RawIds(ToSet(ids)) == {[1], [2], [4]};
  }

  lemma ScenarioStructurePasses(inserts: seq<StorageRecord>)
    requires inserts == [] || inserts == [RecordD]
    ensures ManifestAndInsertsCheck(ScenarioNext, inserts, ScenarioSelf) == Pass
  {
    ScenarioNextShape();
    if inserts != [] {
      assert (set r | r in inserts :: r.id) == {IdD};
      assert inserts[1..] == [];
      assert !Matches(ScenarioSelf, ContactAddress(RecordD.payload));
      assert InsertError(RecordD, ToSet(ScenarioNext.storageIds), ScenarioSelf) == None;
      assert InsertsCheck(inserts, ToSet(ScenarioNext.storageIds), ScenarioSelf) == Pass;
      assert |inserts| <= |set r | r in inserts :: r.id|;
    }
  }

  /** Declaring exactly D inserted and C deleted is accepted. */
  lemma ScenarioExactDiffAccepted()
    ensures WriteCheck(WriteOperationResult(ScenarioNext, [RecordD], [[3]]), ScenarioPrevious, false, ScenarioSelf) == Pass
  {
    var result := WriteOperationResult(ScenarioNext, [RecordD], [[3]]);
    ScenarioStructurePasses([RecordD]);
    ScenarioRawIds();
    assert DeclaredInserts(result) == {[4]};
    assert DeclaredDeletes(result) == {[3]};
    AcceptanceIsTrueDiff(result, ScenarioPrevious, ScenarioSelf);
  }

  /** Forgetting to declare the delete of C is rejected with LessDeletesThanExpected. */
  lemma ScenarioMissingDeleteRejected()
    ensures WriteCheck(WriteOperationResult(ScenarioNext, [RecordD], []), ScenarioPrevious, false, ScenarioSelf)
      == Failure(LessDeletesThanExpected)
  {
    var result := WriteOperationResult(ScenarioNext, [RecordD], []);
    ScenarioStructurePasses([RecordD]);
    ScenarioRawIds();
    assert DeclaredInserts(result) == {[4]};
    assert DeclaredDeletes(result) == {};
  }

  /** Forgetting to declare the insert of D is rejected with LessInsertsThanExpected. */
  lemma ScenarioMissingInsertRejected()
    ensures WriteCheck(WriteOperationResult(ScenarioNext, [], [[3]]), ScenarioPrevious, false, ScenarioSelf)
      == Failure(LessInsertsThanExpected)
  {
    var result := WriteOperationResult(ScenarioNext, [], [[3]]);
    ScenarioStructurePasses([]);
    ScenarioRawIds();
    assert DeclaredInserts(result) == {};
  }

  /** Declaring an extra insert E that is not in the new manifest fails in the
      structural check, before the diff is compared. */
  lemma ScenarioExtraInsertRejected()
    ensures WriteCheck(WriteOperationResult(ScenarioNext, [RecordD, RecordE], [[3]]), ScenarioPrevious, false, ScenarioSelf)
      == Failure(InsertNotPresentInFullIdSet)
  {
    var inserts := [RecordD, RecordE];
    ScenarioNextShape();
    assert (set r | r in inserts :: r.id) == {IdD, IdE};
    assert inserts[1..] == [RecordE];
    assert IdE.raw[0] != IdD.raw[0];
    assert IdE !in ToSet(ScenarioNext.storageIds);
    assert !Matches(ScenarioSelf, ContactAddress(RecordD.payload));
    assert InsertError(RecordD, ToSet(ScenarioNext.storageIds), ScenarioSelf) == None;
    assert InsertsCheck(inserts, ToSet(ScenarioNext.storageIds), ScenarioSelf) == Failure(InsertNotPresentInFullIdSet);
    assert |{IdD, IdE}| == 2;
  }

  /** The same write is accepted as the first write (previous version 0) and
      under a pending force push, where no diff is compared. */
  lemma ScenarioBypasses()
    ensures WriteCheck(WriteOperationResult(ScenarioNext, [RecordD], []), Manifest(0, []), false, ScenarioSelf) == Pass
    ensures WriteCheck(WriteOperationResult(ScenarioNext, [RecordD], []), ScenarioPrevious, true, ScenarioSelf) == Pass
  {
    ScenarioStructurePasses([RecordD]);
  }

  /** Inserting the local user as a contact is rejected. */
  lemma ScenarioSelfContactRejected()
    ensures ManifestAndInsertsCheck(ScenarioNext, [StorageRecord(IdD, ContactPayload(None, None, Some("+15550100"), None))], ScenarioSelf)
      == Failure(SelfAddedAsContact)
  {
    var inserts := [StorageRecord(IdD, ContactPayload(None, None, Some("+15550100"), None))];
    ScenarioNextShape();
    assert (set r | r in inserts :: r.id) == {IdD};
  }
}
