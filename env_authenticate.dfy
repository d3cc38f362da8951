/**
 * The environment-variable authenticator: it trusts a server variable (by
 * default REMOTE_USER) to name the caller, optionally lower-cases that name,
 * optionally strips an `@scope` suffix, and hands what is left to the user
 * lookup — or fails without a lookup when nothing is left.
 */
module EnvAuth {
  import opened Wrappers
  import opened PhpStrings

  /** The variable read when VARIABLE_NAME is not configured. */
  const DefaultVariableName: string := "REMOTE_USER"

  /**
   * The DROP_SCOPE setting: unset; exactly `true` (drop any scope); one scope
   * string; an array of scope strings; or any other set value (`false`, `1`,
   * ...), which selects no stripping at all.
   */
  datatype DropScope = Unset | DropAll | One(scope: string) | Many(scopes: seq<string>) | Other

  /**
   * The settings the authenticator reads. `forceLowercase` is whether
   * FORCE_LOWERCASE is set and truthy.
   */
  datatype Settings = Settings(variableName: Option<string>, forceLowercase: bool, dropScope: DropScope)

  /** The result of `getUser`: `false`, or a call of the user lookup with this name. */
  datatype Outcome = Fail | Lookup(username: string)

  /** PHP's `empty()` on a string setting: unset, "" and "0" are empty. */
  predicate IsEmpty(v: Option<string>) {
    v.None? || v.value == "" || v.value == "0"
  }

  /** The settings after the constructor: VARIABLE_NAME defaults to REMOTE_USER when empty. */
  function Configure(given: Settings): (s: Settings)
    ensures !IsEmpty(s.variableName)
    ensures !IsEmpty(given.variableName) ==> s.variableName == given.variableName
    ensures IsEmpty(given.variableName) ==> s.variableName == Some(DefaultVariableName)
    ensures s.forceLowercase == given.forceLowercase && s.dropScope == given.dropScope
  {
    if IsEmpty(given.variableName) then given.(variableName := Some(DefaultVariableName)) else given
  }

  /** `env(name)`: the value of the server variable, `None` when it is not set. */
  function ReadEnv(env: map<string, string>, name: Option<string>): Option<string> {
    if name.Some? && name.value in env then Some(env[name.value]) else None
  }

  /** The `$scopes` array: a single string becomes a one-element list, anything else none. */
  function ScopeList(d: DropScope): seq<string> {
    match d
    case One(scope) => [scope]
    case Many(scopes) => scopes
    case _ => []
  }

  /**
   * The test of a specific scope: the name is at least one character longer
   * than the scope, and the last caseless occurrence of "@" + scope starts
   * exactly where a trailing "@" + scope would.
   */
  predicate ScopeMatches(username: string, scope: string) {
    var p := StrRIPos(username, "@" + scope);
    |username| >= |scope| + 1 && p.Some? && p.value == |username| - |scope| - 1
  }

  /** The scope test is exactly "ends with '@' + scope, ignoring ASCII case". */
  lemma ScopeMatchesSuffix(username: string, scope: string)
    ensures ScopeMatches(username, scope) <==>
      |username| > |scope| && CaselessAt(username, |username| - |scope| - 1, "@" + scope)
  {
    var n := "@" + scope;
    var p := StrRIPos(username, n);
    if |username| > |scope| && CaselessAt(username, |username| - |n|, n) {
      assert p.Some? && p.value == |username| - |n|;
    }
  }

  /**
   * The scope loop: the first scope in list order that matches is removed,
   * every caseless occurrence of it, and no later scope is tried.
   */
  function DropScopes(scopes: seq<string>, username: string): (r: string)
    ensures |r| <= |username|
  {
    if scopes == [] then username
    else if ScopeMatches(username, scopes[0]) then Deleted(username, "@" + scopes[0], 0)
    else DropScopes(scopes[1..], username)
  }

  /** The name `getUser` arrives at, before the empty check; `None` for an unset variable. */
  function Normalize(settings: Settings, raw: Option<string>): (r: Option<string>)
    ensures r.Some? <==> raw.Some?
    ensures r.Some? ==> |r.value| <= |raw.value|
  {
    match raw
    case None => None
    case Some(u) =>
      var lowered := if settings.forceLowercase then StrToLower(u) else u;
      var trimmed := if settings.dropScope == DropAll then DropAllScopes(lowered) else lowered;
      Some(DropScopes(ScopeList(settings.dropScope), trimmed))
  }

  /**
   * What `getUser` returns for a raw variable value: `false`, or a lookup of
   * the normalised name. The lookup is called only for a variable that is set,
   * and only with a non-empty name no longer than the variable's value.
   */
  function Authenticate(settings: Settings, raw: Option<string>): (o: Outcome)
    ensures o.Lookup? ==> raw.Some? && 0 < |o.username| <= |raw.value|
    ensures raw.None? || raw == Some("") ==> o == Fail
  {
    match Normalize(settings, raw)
    case None => Fail
    case Some(name) => if name == "" then Fail else Lookup(name)
  }

  /** The authentication object; its settings are completed once, in the constructor. */
  class EnvAuthenticate {
    var settings: Settings

    constructor (given: Settings)
      ensures settings == Configure(given)
      ensures !IsEmpty(settings.variableName)
    {
      settings := given;
      new;
      if IsEmpty(settings.variableName) {
        settings := settings.(variableName := Some(DefaultVariableName));
      }
    }

    /**
     * `getUser`: reads the configured variable from `env`, normalises it step
     * by step and decides whether the user lookup is called, and with what.
     */
    method GetUser(env: map<string, string>) returns (o: Outcome)
      ensures o == Authenticate(settings, ReadEnv(env, settings.variableName))
    {
      ghost var raw := ReadEnv(env, settings.variableName);
      var username := ReadEnv(env, settings.variableName);
      if settings.forceLowercase && username.Some? {
        username := Some(StrToLower(username.value));
      }
      if settings.dropScope != Unset {
        if settings.dropScope == DropAll && username.Some? {
          username := Some(DropAllScopes(username.value));
        }
        var scopes: seq<string> := [];
        if settings.dropScope.One? {
          scopes := scopes + [settings.dropScope.scope];
        } else if settings.dropScope.Many? {
          scopes := settings.dropScope.scopes;
        }
        assert scopes == ScopeList(settings.dropScope);
        ghost var before := username;
        var i := 0;
        while i < |scopes|
          invariant 0 <= i <= |scopes|
          invariant username == before
          invariant before.Some? ==> DropScopes(scopes, before.value) == DropScopes(scopes[i..], before.value)
        {
          var scope := scopes[i];
          if username.Some? && ScopeMatches(username.value, scope) {
            var stripped := DeleteAll(username.value, "@" + scope);
            username := Some(stripped);
            break;
          }
          assert scopes[i..][1..] == scopes[i + 1..];
          i := i + 1;
        }
        assert username == Normalize(settings, raw);
      }
      if username.None? || username.value == "" {
        return Fail;
      }
      return Lookup(username.value);
    }
  }
}
