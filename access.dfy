/**
 * The shared-secret check of the HTTP middleware check_master_key
 * (main.py:176-183). Only request paths beginning with "/buscar" are
 * guarded; for those the X-Master-Key header (absent = None) must equal the
 * configured MASTER_KEY (unset = None). A refused request makes the
 * middleware raise HTTPException(403, detail); what status the client then
 * sees is decided by the web framework, outside this model.
 */
module Access {
  import opened Wrappers

  const ProtectedPrefix: string := "/buscar"

  const ForbiddenStatus: int := 403

  const ForbiddenDetail: string := "Forbidden: Invalid MASTER_KEY"

  /** The middleware either hands the request on or raises HTTPException(status, detail). */
  datatype Verdict = Pass | RaiseHttpException(status: int, detail: string)

  /** `str.startswith`. */
  predicate StartsWith(s: string, prefix: string)
  {
    |prefix| <= |s| && s[..|prefix|] == prefix
  }

  /** The middleware's decision for one request. */
  function CheckMasterKey(path: string, token: Option<string>, masterKey: Option<string>): (v: Verdict)
    ensures v == Pass || v == RaiseHttpException(ForbiddenStatus, ForbiddenDetail)
  {
    if StartsWith(path, ProtectedPrefix) && token != masterKey
    then RaiseHttpException(ForbiddenStatus, ForbiddenDetail)
    else Pass
  }

  /** A request is refused exactly when its path extends "/buscar" and its header differs from the key. */
  lemma RefusedExactly(path: string, token: Option<string>, masterKey: Option<string>)
    ensures CheckMasterKey(path, token, masterKey).RaiseHttpException? <==>
            (exists rest :: path == ProtectedPrefix + rest) && token != masterKey
  {
    if StartsWith(path, ProtectedPrefix) {
      assert path == ProtectedPrefix + path[|ProtectedPrefix|..];
    }
  }

  /** Both search endpoints are guarded: they pass exactly with the right key. */
  lemma SearchEndpointsGuarded(token: Option<string>, masterKey: Option<string>)
    ensures CheckMasterKey("/buscar_user", token, masterKey) == Pass <==> token == masterKey
    ensures CheckMasterKey("/buscar_alias", token, masterKey) == Pass <==> token == masterKey
  {
    assert "/buscar_user"[..|ProtectedPrefix|] == ProtectedPrefix;
    assert "/buscar_alias"[..|ProtectedPrefix|] == ProtectedPrefix;
  }

  /** With MASTER_KEY unset, a request without the header passes everywhere. */
  lemma UnsetKeyAdmitsMissingHeader(path: string)
    ensures CheckMasterKey(path, None, None) == Pass
  {
  }

  /** Paths outside "/buscar" pass whatever the header says. */
  lemma OtherPathsUnchecked(path: string, token: Option<string>, masterKey: Option<string>)
    requires |path| < |ProtectedPrefix| || path[..|ProtectedPrefix|] != ProtectedPrefix
    ensures CheckMasterKey(path, token, masterKey) == Pass
  {
  }
}
