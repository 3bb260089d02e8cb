/** The `/api/env` endpoint: the part of the process environment the server
    republishes to the browser. Only `APP_NAME` (when it is a non-empty
    string) and the variables whose names start with `PUBLIC_` get through. */
module EnvEndpoint {
  import opened Strings

  type Env = map<string, string>

  /** The one request URL, compared as an exact string, that reaches this endpoint. */
  const EnvRoute := "/api/env"
  const AppNameKey := "APP_NAME"
  const PublicPrefix := "PUBLIC_"

  /** The two halves of the allow-list do not overlap. */
  lemma AppNameIsNotPublic()
    ensures !StartsWith(AppNameKey, PublicPrefix)
  {
    assert AppNameKey[0] != PublicPrefix[0];
  }

  /** The allow-list: which variables of `env` the endpoint may show. */
  predicate Exposed(env: Env, k: string) {
    k in env && (StartsWith(k, PublicPrefix) || (k == AppNameKey && env[k] != ""))
  }

  /** The object the endpoint serialises: exactly the allowed variables, each
      with its value unchanged. */
  function PublicEnv(env: Env): (view: Env)
    ensures forall k :: k in view <==> Exposed(env, k)
    ensures forall k :: k in view ==> k in env && view[k] == env[k]
  {
    var publics := map k | k in env && StartsWith(k, PublicPrefix) :: env[k];
    if AppNameKey in env && env[AppNameKey] != "" then publics[AppNameKey := env[AppNameKey]]
    else publics
  }

  /** The handler's own construction: start empty, add a truthy `APP_NAME`,
      then walk the keys of the environment adding every `PUBLIC_` one. */
  method BuildEnvObject(env: Env) returns (result: Env)
    ensures result == PublicEnv(env)
  {
    AppNameIsNotPublic();
    result := map[];
    if AppNameKey in env && env[AppNameKey] != "" {
      result := result[AppNameKey := env[AppNameKey]];
    }
    var pending := env.Keys;
    while pending != {}
      invariant pending <= env.Keys
      invariant forall k :: k in result <==> Exposed(env, k) && !(k in pending && StartsWith(k, PublicPrefix))
      invariant forall k :: k in result ==> result[k] == env[k]
      decreases pending
    {
      var k :| k in pending;
      if StartsWith(k, PublicPrefix) {
        result := result[k := env[k]];
      }
      pending := pending - {k};
    }
    var view := PublicEnv(env);
    assert result.Keys == view.Keys;
  }

  /** The allow-list never admits a name outside `APP_NAME` and `PUBLIC_*`. */
  lemma {:induction false} OnlyAllowedNames(env: Env, k: string)
    requires k in PublicEnv(env)
    ensures k == AppNameKey || StartsWith(k, PublicPrefix)
  {
  }

  /** The prefix is case-sensitive: `public_token` is never exposed. */
  lemma {:induction false} PrefixIsCaseSensitive(env: Env, rest: string)
    ensures "public_" + rest !in PublicEnv(env)
    ensures "Public_" + rest !in PublicEnv(env)
  {
    assert ("public_" + rest)[0] != PublicPrefix[0];
    assert ("Public_" + rest)[1] != PublicPrefix[1];
  }

  /** An empty `APP_NAME` is falsy and left out; a non-empty one is shown. */
  lemma {:induction false} AppNameNeedsValue(env: Env)
    requires AppNameKey in env
    ensures AppNameKey in PublicEnv(env) <==> env[AppNameKey] != ""
  {
    AppNameIsNotPublic();
  }

  /** Variables outside the allow-list cannot influence the response. */
  lemma {:induction false} HiddenVariablesIrrelevant(env: Env, k: string, v: string)
    requires !StartsWith(k, PublicPrefix) && k != AppNameKey
    ensures PublicEnv(env[k := v]) == PublicEnv(env)
  {
    var a := PublicEnv(env[k := v]);
    var b := PublicEnv(env);
    assert a.Keys == b.Keys;
  }
}
