/**
 Where a run writes and what it may read (`api/routes/pipelex/pipeline.py`), and the caller ids these
 default to (`api/security.py`).

 The runtime's own containment check is not part of the repository; it is modelled from docs/pipe-run.md: a
 storage scope is the read scope or lies under it, segment by segment.
 */
module RunScopes {
  import opened Wrappers
  import opened Segments
  import opened TextLines

  const SINGLE_TENANT_USER_ID := "single-tenant"
  const LOCAL_STORAGE_SCOPE := "local"

  predicate IsUnsafeIdChar(c: char) {
    c == '/' || c == '\\' || c == ':' || c == '?' || c == '#' || c == '[' || c == ']' || c == '@' || c < ' '
      || c == '\U{7F}'
  }

  predicate IsSafeUserId(value: string) {
    value != "" && value != "." && value != ".." && forall i :: 0 <= i < |value| ==> !IsUnsafeIdChar(value[i])
  }

  /** An id is a name of its own: no separator of paths or URIs is in it, and no control character. */
  lemma IdIsSafeIff(id: string)
    ensures IsSafeUserId(id) <==>
            && id != "" && id != "." && id != ".."
            && (forall c :: c in id ==> c !in {'/', '\\', ':', '?', '#', '[', ']', '@', '\U{7F}'} && c >= ' ')
  {
    if IsSafeUserId(id) {
      forall c | c in id ensures !IsUnsafeIdChar(c) {
        var i :| 0 <= i < |id| && id[i] == c;
      }
    } else {
      assert forall i :: 0 <= i < |id| ==> id[i] in id;
    }
  }

  /** Where the authority of a URI ends: at the path, the query or the fragment. */
  function AuthorityEnd(uri: string): (n: nat)
    ensures n <= |uri|
  {
    if uri == "" || uri[0] == '/' || uri[0] == '?' || uri[0] == '#' then 0 else 1 + AuthorityEnd(uri[1..])
  }

  /** The owner of `<id>/...` is the id, whether the key is split at its first slash or parsed as a URI. */
  lemma {:induction false} OwnerIsTheId(id: string, rest: string)
    requires '/' !in id && '?' !in id && '#' !in id
    ensures (id + "/" + rest)[..AuthorityEnd(id + "/" + rest)] == id && Split(id + "/" + rest)[0] == id
  {
    SplitOfAppend(id, rest);
    SplitOfSegment(id);
    AuthorityIsTheId(id, rest);
  }

  lemma {:induction false} AuthorityIsTheId(id: string, rest: string)
    requires '/' !in id && '?' !in id && '#' !in id
    ensures AuthorityEnd(id + "/" + rest) == |id|
  {
    if id != "" {
      assert (id + "/" + rest)[1..] == id[1..] + "/" + rest;
      assert id[0] in id;
      AuthorityIsTheId(id[1..], rest);
    }
  }

  /** Containment at segment boundaries. */
  predicate Under(key: string, scope: string) { Split(scope) <= Split(key) }

  lemma {:induction false} JoinOfConcat(a: seq<string>, b: seq<string>)
    requires a != [] && b != []
    ensures Join(a + b) == Join(a) + "/" + Join(b)
  {
    assert (a + b)[1..] == a[1..] + b;
    if |a| == 1 {
      assert a[1..] + b == b;
    } else {
      JoinOfConcat(a[1..], b);
    }
  }

  /** Segment-wise containment is what a prefix test with the separator decides. */
  lemma UnderIsPrefix(key: string, scope: string)
    ensures Under(key, scope) <==> key == scope || StartsWith(key, scope + "/")
  {
    if StartsWith(key, scope + "/") {
      var rest := key[|scope| + 1..];
      assert key == scope + "/" + rest;
      SplitOfAppend(scope, rest);
    }
    if Under(key, scope) {
      var rest := Split(key)[|Split(scope)|..];
      assert Split(key) == Split(scope) + rest;
      JoinOfSplit(key);
      JoinOfSplit(scope);
      if rest == [] {
        assert Split(key) == Split(scope);
      } else {
        JoinOfConcat(Split(scope), rest);
        assert key == (scope + "/") + Join(rest);
      }
    }
  }

  // Identity.

  datatype AuthFailure = Unauthenticated | BadRequest

  /** The per-request state the auth dependencies write the caller's id to. */
  class RequestState {
    var user: Option<string>

    constructor ()
      ensures user.None?
    {
      user := None;
    }

    /** A token binds its `user_id` claim, unless that is missing, unsafe or the reserved single-tenant id. */
    method VerifyJwt(claim: Option<string>) returns (failure: Option<AuthFailure>)
      modifies this
      ensures failure.None? <==> claim.Some? && IsSafeUserId(claim.value) && claim.value != SINGLE_TENANT_USER_ID
      ensures user == if failure.None? then claim else old(user)
    {
      if claim.None? || claim.value == "" {
        return Some(Unauthenticated);
      }
      if !IsSafeUserId(claim.value) || claim.value == SINGLE_TENANT_USER_ID {
        return Some(Unauthenticated);
      }
      user := claim;
      failure := None;
    }

    /**
     Without auth nothing is bound, unless a trusted proxy forwards an id: then a missing or unsafe one is
     refused.
     */
    method NoAuth(trustForwarded: bool, header: Option<string>) returns (failure: Option<AuthFailure>)
      modifies this
      ensures failure.None? <==> !trustForwarded || (header.Some? && IsSafeUserId(header.value))
      ensures user == if failure.None? && trustForwarded then header else old(user)
    {
      if !trustForwarded {
        return None;
      }
      if header.None? || header.value == "" {
        return Some(Unauthenticated);
      }
      if !IsSafeUserId(header.value) {
        return Some(BadRequest);
      }
      user := header;
      failure := None;
    }
  }

  // Scopes.

  datatype Scopes = Scopes(storage: string, read: Option<string>)

  datatype ScopeRefusal = LocalBesideReadScope | StorageOutsideRead

  function ResolveStorageScope(user: Option<string>, requested: Option<string>): string {
    if requested.Some? && requested.value != "" then requested.value
    else if user.Some? then user.value
    else SINGLE_TENANT_USER_ID
  }

  function ResolveReadScope(user: Option<string>, requested: Option<string>): Option<string> {
    if requested.Some? then requested else user
  }

  function ResolveRunScopes(user: Option<string>, storage: Option<string>,
          read: Option<string>): Result<Scopes, ScopeRefusal> {
    var storageScope, readScope := ResolveStorageScope(user, storage), ResolveReadScope(user, read);
    if readScope.Some? && storageScope == LOCAL_STORAGE_SCOPE then Err(LocalBesideReadScope)
    else if readScope.Some? && !Under(storageScope, readScope.value) then Err(StorageOutsideRead)
    else Ok(Scopes(storageScope, readScope))
  }

  /**
   A pair of scopes is accepted exactly when the run can read back everything it may write, and never the local
   sentinel beside a read scope.
   */
  lemma RunReadsWhatItWrites(user: Option<string>, storage: Option<string>, read: Option<string>)
    ensures var storageScope, readScope := ResolveStorageScope(user, storage), ResolveReadScope(user, read);
            ResolveRunScopes(user, storage, read).Ok? <==>
            || readScope.None?
            || (storageScope != LOCAL_STORAGE_SCOPE && forall key :: Under(key, storageScope) ==>
              Under(key, readScope.value))
  {
    var storageScope, readScope := ResolveStorageScope(user, storage), ResolveReadScope(user, read);
    assert Under(storageScope, storageScope);
    if readScope.Some? && Under(storageScope, readScope.value) {
      forall key | Under(key, storageScope) ensures Under(key, readScope.value) {
        assert Split(readScope.value) <= Split(storageScope) <= Split(key);
      }
    }
  }

  /**
   What is sent is taken as it is, whoever sends it: with both scopes sent a run is accepted exactly when the storage
   scope is the read scope or lies under it, by the separator, and is not the local sentinel.
   */
  lemma SentScopesAreTaken(user: Option<string>, storage: string, read: string)
    requires storage != ""
    ensures ResolveRunScopes(user, Some(storage), Some(read)).Ok? <==>
            storage != LOCAL_STORAGE_SCOPE && (storage == read || StartsWith(storage, read + "/"))
    ensures ResolveRunScopes(user, Some(storage), Some(read)).Ok? ==>
              ResolveRunScopes(user, Some(storage), Some(read)).value == Scopes(storage, Some(read))
  {
    UnderIsPrefix(storage, read);
  }

  /** A deployment that identifies nobody runs unscoped, under the scope sent or its one tenant's. */
  lemma UnidentifiedRunsUnscoped(storage: Option<string>)
    ensures ResolveRunScopes(None, storage, None) ==
            Ok(Scopes(if storage.Some? && storage.value != "" then storage.value else "single-tenant", None))
  {
  }

  /** A storage scope that is missing or empty is the caller's id, beside a read scope that was sent. */
  lemma MissingStorageScopeIsTheCallers(id: string, storage: Option<string>, read: string)
    requires IsSafeUserId(id) && (storage.None? || storage.value == "")
    ensures ResolveRunScopes(Some(id), storage, Some(read)).Ok? <==> id != LOCAL_STORAGE_SCOPE && read == id
    ensures ResolveRunScopes(Some(id), storage, Some(read)).Ok? ==>
              ResolveRunScopes(Some(id), storage, Some(read)).value == Scopes(id, Some(id))
  {
    IdIsOneSegment(id);
    JoinOfSplit(read);
    if Under(id, read) {
      assert Split(read) == [Split(read)[0]] == [id];
    }
  }

  lemma IdIsOneSegment(id: string)
    requires IsSafeUserId(id)
    ensures Split(id) == [id]
  {
    SplitOfSegment(id);
  }

  /** A caller's default prefix holds exactly the keys whose first segment is the caller's id. */
  lemma DefaultPrefixIsFirstSegment(key: string, id: string)
    requires IsSafeUserId(id)
    ensures Under(key, id) <==> Split(key)[0] == id
  {
    IdIsOneSegment(id);
    assert Split(key)[..1] == [Split(key)[0]];
  }

  /** Two callers with distinct ids share no key under their default prefixes. */
  lemma CallersAreApart(key: string, a: string, b: string)
    requires IsSafeUserId(a) && IsSafeUserId(b) && a != b
    ensures !(Under(key, a) && Under(key, b))
  {
    DefaultPrefixIsFirstSegment(key, a);
    DefaultPrefixIsFirstSegment(key, b);
  }

  /** An identified caller who sends neither scope gets both, unless the id is the local sentinel. */
  lemma DefaultsAreAccepted(id: string)
    requires IsSafeUserId(id)
    ensures ResolveRunScopes(Some(id), None, None)
         == if id == LOCAL_STORAGE_SCOPE then Err(LocalBesideReadScope) else Ok(Scopes(id, Some(id)))
  {
    assert Under(id, id);
  }

  /**
   A host that sends a storage scope but no read scope is accepted exactly when that scope lies under the
   caller's own id, by its first segment: it fails closed on any other tenant's.
   */
  lemma ForgottenReadScopeFailsClosed(id: string, storage: string)
    requires IsSafeUserId(id) && storage != ""
    ensures ResolveRunScopes(Some(id), Some(storage), None).Ok?
            <==> Split(storage)[0] == id && storage != LOCAL_STORAGE_SCOPE
  {
    DefaultPrefixIsFirstSegment(storage, id);
  }

  /** So a forgotten read scope is not always refused: the scope may be of the caller's own. */
  lemma ForgottenReadScopeCanBeAccepted()
    ensures ResolveRunScopes(Some("u1"), Some("u1/m"), None) == Ok(Scopes("u1/m", Some("u1")))
  {
    assert "u1/m" == "u1" + "/" + "m";
    IdIsOneSegment("u1");
    SplitOfAppend("u1", "m");
    ForgottenReadScopeFailsClosed("u1", "u1/m");
  }
}
