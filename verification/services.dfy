/** The two services of the key lifecycle: `GenerateKey` hands out a new
    key to a caller that presents the configured credential pair, and
    `ValidateKey` redeems a key by deleting its row.

    `Issue` and `Redeem` state what one call does to the table as functions
    of the table before it; `RunGenerateKey` and `RunValidateKey` perform
    the calls on an `AdTable` step by step, as the services do, and are
    proved to agree with them. The lemmas relate several calls. */
module Services {
  import opened Wrappers
  import opened Models

  /** The credential pair a caller submits; the configured pair has the same
      shape and is passed in as `expected`, fixed for the whole run. */
  datatype GenerateKey = GenerateKey(username: string, password: string)

  /** The service's equality test on the whole pair. */
  function Matches(submitted: GenerateKey, expected: GenerateKey): (ok: bool)
    ensures ok <==> submitted.username == expected.username && submitted.password == expected.password
  {
    submitted == expected
  }

  /** What one `GenerateKey::run` does: the result, and the table after it.
      `freshKey` is the UUID `create` draws and `failure` the backend's
      answer to the insert. */
  function Issue(s: Snapshot, submitted: GenerateKey, expected: GenerateKey,
                 freshKey: Uuid, failure: Option<StoreError>): (out: (Result<Option<Uuid>, StoreError>, Snapshot))
    requires s.Valid() && !s.HasKey(freshKey)
    ensures out.1.Valid()
    ensures out.0 == Ok(None) <==> !Matches(submitted, expected)
    ensures out.0.Err? <==> Matches(submitted, expected) && failure.Some?
    ensures out.0.Err? ==> out.0 == Err(failure.value)
    ensures out.0.Ok? && out.0.value.Some? ==>
              out.0.value.value == freshKey && out.1.HasKey(freshKey) && out.1 == s.Inserted(freshKey)
    ensures !(out.0.Ok? && out.0.value.Some?) ==> out.1 == s
  {
    if !Matches(submitted, expected) then (Ok(None), s)
    else if failure.Some? then (Err(failure.value), s)
    else (Ok(Some(freshKey)), s.Inserted(freshKey))
  }

  /** What one `ValidateKey::run` does: the result, and the table after it.
      `lookupFailure` and `deleteFailure` are the backend's answers to the
      two statements the service sends. */
  function Redeem(s: Snapshot, key: Uuid,
                  lookupFailure: Option<StoreError>, deleteFailure: Option<StoreError>): (out: (Result<bool, StoreError>, Snapshot))
    requires s.Valid()
    ensures out.1.Valid()
    ensures out.0 == Ok(true) <==> lookupFailure.None? && s.HasKey(key) && deleteFailure.None?
    ensures out.0 == Ok(false) <==> lookupFailure.None? && !s.HasKey(key)
    ensures out.0.Err? ==> out.0 == Err(if lookupFailure.Some? then lookupFailure.value else deleteFailure.value)
    ensures out.0 == Ok(true) ==> out.1 == s.WithoutKey(key) && !out.1.HasKey(key)
    ensures out.0 != Ok(true) ==> out.1 == s
  {
    if lookupFailure.Some? then (Err(lookupFailure.value), s)
    else if !s.HasKey(key) then (Ok(false), s)
    else if deleteFailure.Some? then (Err(deleteFailure.value), s)
    else (Ok(true), s.WithoutKey(key))
  }

  /** `GenerateKey::run` on the table `db`. */
  method RunGenerateKey(submitted: GenerateKey, expected: GenerateKey, db: AdTable,
                        freshKey: Uuid, failure: Option<StoreError>) returns (r: Result<Option<Uuid>, StoreError>)
    requires db.Valid() && !db.Snap().HasKey(freshKey)
    modifies db
    ensures db.Valid()
    ensures (r, db.Snap()) == Issue(old(db.Snap()), submitted, expected, freshKey, failure)
  {
    if !Matches(submitted, expected) {
      return Ok(None);
    }
    var created := db.Create(freshKey, failure);
    if created.Err? {
      return Err(created.error);
    }
    r := Ok(Some(created.value.key));
  }

  /** `ValidateKey::run` on the table `db`: look the key up, and if a row
      carries it, delete that row by its id.

      The lookup and the delete are two statements, not one conditional
      delete. Two callers racing on the same key can both find the row; the
      one whose delete comes second then gets `RowNotFound` from `delete`
      and reports an error, not `false`. This model runs one call at a
      time; `InterleavedValidations` replays that interleaving. */
  method RunValidateKey(key: Uuid, db: AdTable,
                        lookupFailure: Option<StoreError>, deleteFailure: Option<StoreError>) returns (r: Result<bool, StoreError>)
    requires db.Valid()
    modifies db
    ensures db.Valid()
    ensures (r, db.Snap()) == Redeem(old(db.Snap()), key, lookupFailure, deleteFailure)
  {
    var found := db.GetByKey(key, lookupFailure);
    if found.Err? {
      return Err(found.error);
    }
    if found.value.None? {
      return Ok(false);
    }
    var ad := found.value.value;
    ghost var before := db.Snap();
    var deleted := db.Delete(ad, deleteFailure);
    if deleted.Err? {
      return Err(deleted.error);
    }
    RemoveByIdIsRemoveByKey(before, ad.id);
    r := Ok(true);
  }

  /** Two `ValidateKey::run` calls on the same key, with their statements
      interleaved as lookup, lookup, delete, delete: both lookups see the
      row, the first delete succeeds and the second fails with
      `RowNotFound`. Exactly one caller redeems the key; the other gets an
      error rather than `false`. */
  method InterleavedValidations(key: Uuid, db: AdTable) returns (first: Result<bool, StoreError>, second: Result<bool, StoreError>)
    requires db.Valid() && db.Snap().HasKey(key)
    modifies db
    ensures db.Valid() && db.Snap() == old(db.Snap()).WithoutKey(key)
    ensures first == Ok(true) && second == Err(RowNotFound)
  {
    var foundA := db.GetByKey(key, None);
    var foundB := db.GetByKey(key, None);
    var adA := foundA.value.value;
    var adB := foundB.value.value;
    assert adA == adB;
    ghost var before := db.Snap();
    var deletedA := db.Delete(adA, None);
    var deletedB := db.Delete(adB, None);
    RemoveByIdIsRemoveByKey(before, adA.id);
    first := match deletedA case Ok(_) => Ok(true) case Err(e) => Err(e);
    second := match deletedB case Ok(_) => Ok(true) case Err(e) => Err(e);
  }

  /** A key that has been redeemed once is never redeemed again: after a
      call that reports `true`, a second call on the same key reports
      `false` or an error, whatever the backend answers. */
  lemma RedeemedAtMostOnce(s: Snapshot, key: Uuid,
                            f1: Option<StoreError>, f2: Option<StoreError>,
                            g1: Option<StoreError>, g2: Option<StoreError>)
    requires s.Valid()
    requires Redeem(s, key, f1, f2).0 == Ok(true)
    ensures Redeem(Redeem(s, key, f1, f2).1, key, g1, g2).0 != Ok(true)
    ensures g1.None? ==> Redeem(Redeem(s, key, f1, f2).1, key, g1, g2).0 == Ok(false)
  {
  }

  /** Issuing with the configured pair, then validating the key twice,
      yields the key, then `true`, then `false`; the table ends as it began. */
  lemma IssueRedeemRedeem(s: Snapshot, expected: GenerateKey, freshKey: Uuid)
    requires s.Valid() && !s.HasKey(freshKey)
    ensures var (issued, s1) := Issue(s, expected, expected, freshKey, None);
            && issued == Ok(Some(freshKey))
            && var (first, s2) := Redeem(s1, freshKey, None, None);
            && first == Ok(true)
            && var (second, s3) := Redeem(s2, freshKey, None, None);
            && second == Ok(false)
            && s3.rows == s.rows
  {
    var s1 := s.Inserted(freshKey);
    var s2 := s1.WithoutKey(freshKey);
    assert forall id :: id in s2.rows <==> id in s.rows;
  }

  /** Issuing never disturbs a key already handed out: after a second
      successful issue the first key is still in the table beside the new
      one. That the two keys differ follows from the assumption that a fresh
      UUID is never one the table already holds. */
  lemma IssuedKeysDistinct(s: Snapshot, expected: GenerateKey, k1: Uuid, k2: Uuid)
    requires s.Valid() && !s.HasKey(k1)
    requires var s1 := Issue(s, expected, expected, k1, None).1; !s1.HasKey(k2)
    ensures k1 != k2
    ensures var s1 := Issue(s, expected, expected, k1, None).1;
            var s2 := Issue(s1, expected, expected, k2, None).1;
            s2.HasKey(k1) && s2.HasKey(k2)
  {
    var s1 := s.Inserted(k1);
    var s2 := s1.Inserted(k2);
    assert s2.rows[s.nextId] == k1;
  }

  /** A key the table does not hold is never redeemed, and the table is left
      as it was: this covers keys never issued and keys already used alike. */
  lemma UnknownKeyNotRedeemed(s: Snapshot, key: Uuid, f1: Option<StoreError>, f2: Option<StoreError>)
    requires s.Valid() && !s.HasKey(key)
    ensures Redeem(s, key, f1, f2).0 != Ok(true)
    ensures f1.None? ==> Redeem(s, key, f1, f2).0 == Ok(false)
    ensures Redeem(s, key, f1, f2).1 == s
  {
  }
}
