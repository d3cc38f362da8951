/**
 * What `getUser` promises about the name it hands to the user lookup: when a
 * lookup happens at all, what the scope loop removes, how lower-casing and
 * scope stripping combine, when normalising twice changes nothing, and the
 * worked examples.
 */
module EnvAuthProperties {
  import opened Wrappers
  import opened PhpStrings
  import opened EnvAuth

  // ---------------------------------------------------------------------
  // The scope loop
  // ---------------------------------------------------------------------

  /** When no listed scope matches, the loop leaves the name alone. */
  lemma {:induction false} DropScopesNoMatch(scopes: seq<string>, username: string)
    requires forall j :: 0 <= j < |scopes| ==> !ScopeMatches(username, scopes[j])
    ensures DropScopes(scopes, username) == username
    decreases |scopes|
  {
    if scopes != [] {
      DropScopesNoMatch(scopes[1..], username);
    }
  }

  /**
   * The first matching scope in list order is the one removed (every caseless
   * occurrence of "@" + scope), whatever the later scopes are.
   */
  lemma {:induction false} DropScopesFirstMatch(scopes: seq<string>, username: string, i: int)
    requires 0 <= i < |scopes| && ScopeMatches(username, scopes[i])
    requires forall j :: 0 <= j < i ==> !ScopeMatches(username, scopes[j])
    ensures DropScopes(scopes, username) == Deleted(username, "@" + scopes[i], 0)
    decreases i
  {
    if i > 0 {
      DropScopesFirstMatch(scopes[1..], username, i - 1);
    }
  }

  /** A matching scope removes at least the trailing "@" + scope: the name gets that much shorter. */
  lemma {:induction false} DropScopesShrinks(scopes: seq<string>, username: string, i: int)
    requires 0 <= i < |scopes| && ScopeMatches(username, scopes[i])
    requires forall j :: 0 <= j < i ==> !ScopeMatches(username, scopes[j])
    ensures |DropScopes(scopes, username)| + |scopes[i]| + 1 <= |username|
  {
    var n := "@" + scopes[i];
    DropScopesFirstMatch(scopes, username, i);
    ScopeMatchesSuffix(username, scopes[i]);
    DeletedShrinks(username, n, 0, |username| - |n|);
  }

  /**
   * The empty scope matches exactly the names that end in '@', and then
   * str_ireplace removes every '@' in the name, not only the last one.
   */
  lemma EmptyScopeDropsEveryAt(username: string)
    ensures ScopeMatches(username, "") <==> |username| > 0 && username[|username| - 1] == '@'
    ensures ScopeMatches(username, "") ==> DropScopes([""], username) == WithoutChar(username, '@')
  {
    assert "@" + "" == "@";
    ScopeMatchesSuffix(username, "");
    if |username| > 0 {
      CaselessAtAt(username, |username| - 1);
    }
    if ScopeMatches(username, "") {
      DeletedAt(username, 0);
      assert username[0..] == username;
    }
  }

  /** A one-character caseless test for '@' is a plain comparison: '@' has no case. */
  lemma CaselessAtAt(s: string, k: int)
    requires 0 <= k < |s|
    ensures CaselessAt(s, k, "@") <==> s[k] == '@'
  {
    assert s[k..k + 1] == [s[k]];
    assert [s[k]][1..] == [] && "@"[1..] == [];
    assert CaselessEq([], []);
    LowerCharFixes(s[k]);
  }

  /** Giving DROP_SCOPE one string behaves exactly as giving the one-element array. */
  lemma SingleScopeIsList(settings: Settings, scope: string, raw: Option<string>)
    ensures Normalize(settings.(dropScope := One(scope)), raw)
         == Normalize(settings.(dropScope := Many([scope])), raw)
  {
  }

  // ---------------------------------------------------------------------
  // Names looked up unchanged
  // ---------------------------------------------------------------------

  /**
   * With no lower-casing, no DROP_SCOPE = true and no listed scope matching,
   * a non-empty value is looked up exactly as read.
   */
  lemma PassThrough(settings: Settings, username: string)
    requires !settings.forceLowercase && settings.dropScope != DropAll
    requires forall j :: 0 <= j < |ScopeList(settings.dropScope)| ==>
      !ScopeMatches(username, ScopeList(settings.dropScope)[j])
    requires username != ""
    ensures Authenticate(settings, Some(username)) == Lookup(username)
  {
    DropScopesNoMatch(ScopeList(settings.dropScope), username);
  }

  // ---------------------------------------------------------------------
  // Lower-casing
  // ---------------------------------------------------------------------

  /** The scope test ignores ASCII case, so it gives the same answer on the lower-cased name. */
  lemma ScopeMatchesLower(username: string, scope: string)
    ensures ScopeMatches(StrToLower(username), scope) <==> ScopeMatches(username, scope)
  {
    ScopeMatchesSuffix(username, scope);
    ScopeMatchesSuffix(StrToLower(username), scope);
    CaselessAtLower(username, |username| - |scope| - 1, "@" + scope);
  }

  /** Stripping scopes and lower-casing commute. */
  lemma {:induction false} DropScopesLower(scopes: seq<string>, username: string)
    ensures DropScopes(scopes, StrToLower(username)) == StrToLower(DropScopes(scopes, username))
    decreases |scopes|
  {
    if scopes != [] {
      ScopeMatchesLower(username, scopes[0]);
      if ScopeMatches(username, scopes[0]) {
        DeletedLower(username, "@" + scopes[0], 0);
      } else {
        DropScopesLower(scopes[1..], username);
      }
    }
  }

  /**
   * FORCE_LOWERCASE only lower-cases: the name looked up is the name that
   * would be looked up without it, lower-cased.
   */
  lemma LowercaseCommutes(settings: Settings, username: string)
    requires settings.forceLowercase
    ensures Normalize(settings, Some(username))
         == Some(StrToLower(Normalize(settings.(forceLowercase := false), Some(username)).value))
  {
    var trimmed := if settings.dropScope == DropAll then DropAllScopes(username) else username;
    if settings.dropScope == DropAll {
      DropAllLower(username);
    }
    DropScopesLower(ScopeList(settings.dropScope), trimmed);
  }

  /** With FORCE_LOWERCASE the name handed to the lookup has no upper-case ASCII letter. */
  lemma LowercaseNoUpper(settings: Settings, raw: Option<string>)
    requires settings.forceLowercase && Authenticate(settings, raw).Lookup?
    ensures forall i :: 0 <= i < |Authenticate(settings, raw).username| ==>
      !IsUpper(Authenticate(settings, raw).username[i])
  {
    LowercaseCommutes(settings, raw.value);
  }

  /** Lower-casing alone keeps the length and changes nothing but ASCII capitals. */
  lemma LowercaseOnly(settings: Settings, username: string)
    requires settings.forceLowercase && settings.dropScope in {Unset, Other}
    ensures Normalize(settings, Some(username)).value == StrToLower(username)
    ensures |Normalize(settings, Some(username)).value| == |username|
    ensures forall i :: 0 <= i < |username| && !IsUpper(username[i]) ==>
      Normalize(settings, Some(username)).value[i] == username[i]
  {
  }

  // ---------------------------------------------------------------------
  // DROP_SCOPE = true
  // ---------------------------------------------------------------------

  /** Lower-casing keeps a name free of line breaks. */
  lemma LowerNoNewline(s: string)
    requires '\n' !in s
    ensures '\n' !in StrToLower(s)
  {
    forall i | 0 <= i < |s|
      ensures StrToLower(s)[i] != '\n'
    {
      LowerCharFixes(s[i]);
    }
  }

  /**
   * On a one-line name, DROP_SCOPE = true keeps everything before the first
   * '@' (not the last), and a name without '@' is kept whole.
   */
  lemma DropAllKeepsPrefix(settings: Settings, username: string, i: int)
    requires settings.dropScope == DropAll && !settings.forceLowercase
    requires '\n' !in username
    requires 0 <= i < |username| && username[i] == '@' && '@' !in username[..i]
    ensures Normalize(settings, Some(username)) == Some(username[..i])
  {
    DropAllFirstAt(username, i);
  }

  /** A name without '@' is untouched by DROP_SCOPE = true. */
  lemma DropAllWithoutAt(settings: Settings, username: string)
    requires settings.dropScope == DropAll && !settings.forceLowercase
    requires '@' !in username
    ensures Normalize(settings, Some(username)) == Some(username)
  {
    DropAllNoAt(username);
  }

  /** On a one-line name, nothing from an '@' on survives DROP_SCOPE = true. */
  lemma DropAllLeavesNoScope(settings: Settings, username: string)
    requires settings.dropScope == DropAll
    requires '\n' !in username
    ensures '@' !in Normalize(settings, Some(username)).value
    ensures '\n' !in Normalize(settings, Some(username)).value
  {
    var lowered := if settings.forceLowercase then StrToLower(username) else username;
    if settings.forceLowercase {
      LowerNoNewline(username);
    }
    DropAllLeavesNoAt(lowered);
    DropAllKeepsOneLine(lowered);
  }

  /** The regex replacement only deletes: a one-line input gives a one-line output. */
  lemma {:induction false} DropAllKeepsOneLine(s: string)
    requires '\n' !in s
    ensures '\n' !in DropAllScopes(s)
  {
    if s != [] {
      if s[0] == '@' && DotsReachEnd(s[1..]) {
        if |s| > 1 {
          assert s[1..][|s| - 2] == s[|s| - 1];
        }
      } else {
        DropAllKeepsOneLine(s[1..]);
      }
    }
  }

  /**
   * A line break stops the regex: '.' does not cross it and '$' only matches
   * before a final one, so DROP_SCOPE = true leaves "a@b\nc" whole.
   */
  lemma DropAllStopsAtLineBreak(settings: Settings)
    requires settings.dropScope == DropAll && !settings.forceLowercase
    ensures Authenticate(settings, Some("a@b\nc")) == Lookup("a@b\nc")
    ensures Authenticate(settings, Some("a@b\n")) == Lookup("a\n")
  {
    DropAllMultiline();
  }

  // ---------------------------------------------------------------------
  // Normalising twice
  // ---------------------------------------------------------------------

  /** With DROP_SCOPE = true, normalising a one-line name a second time changes nothing. */
  lemma DropAllIdempotent(settings: Settings, username: string)
    requires settings.dropScope == DropAll
    requires '\n' !in username
    ensures Normalize(settings, Normalize(settings, Some(username))) == Normalize(settings, Some(username))
  {
    var n := Normalize(settings, Some(username)).value;
    DropAllLeavesNoScope(settings, username);
    if settings.forceLowercase {
      var lowered := StrToLower(username);
      LowerIdempotent(username);
      DropAllLower(lowered);
      assert StrToLower(n) == n;
    }
    DropAllNoAt(n);
  }

  /** A scope loop that leaves the name as it was found no listed scope to match. */
  lemma {:induction false} DropScopesFixedNoMatch(scopes: seq<string>, username: string)
    requires DropScopes(scopes, username) == username
    ensures forall j :: 0 <= j < |scopes| ==> !ScopeMatches(username, scopes[j])
    decreases |scopes|
  {
    if scopes != [] {
      if ScopeMatches(username, scopes[0]) {
        DropScopesShrinks(scopes, username, 0);
        assert false;
      }
      DropScopesFixedNoMatch(scopes[1..], username);
      assert forall j :: 1 <= j < |scopes| ==> scopes[j] == scopes[1..][j - 1];
    }
  }

  /**
   * With specific scopes, a second pass changes nothing exactly when no
   * listed scope matches the first result.
   */
  lemma ScopesIdempotentIffNoneLeft(settings: Settings, username: string)
    requires settings.dropScope != DropAll
    ensures Normalize(settings, Normalize(settings, Some(username))) == Normalize(settings, Some(username))
      <==> forall j :: 0 <= j < |ScopeList(settings.dropScope)| ==>
             !ScopeMatches(Normalize(settings, Some(username)).value, ScopeList(settings.dropScope)[j])
  {
    var scopes := ScopeList(settings.dropScope);
    var n := Normalize(settings, Some(username)).value;
    if settings.forceLowercase {
      DropScopesLower(scopes, username);
      LowerIdempotent(DropScopes(scopes, username));
      assert StrToLower(n) == n;
    }
    assert Normalize(settings, Some(n)) == Some(DropScopes(scopes, n));
    if forall j :: 0 <= j < |scopes| ==> !ScopeMatches(n, scopes[j]) {
      DropScopesNoMatch(scopes, n);
    }
    if DropScopes(scopes, n) == n {
      DropScopesFixedNoMatch(scopes, n);
    }
  }

  /** Every string is caselessly equal to itself. */
  lemma {:induction false} CaselessEqRefl(a: string)
    ensures CaselessEq(a, a)
    decreases |a|
  {
    if a != [] {
      CaselessEqRefl(a[1..]);
    }
  }

  /**
   * Removing every occurrence can assemble a new one: with scope "a" the name
   * "@@aa@a" becomes "@a", which still ends in "@a" and is looked up as is.
   */
  lemma ScopeCanSurviveRemoval(settings: Settings, username: string)
    requires settings == Settings(Some(DefaultVariableName), false, One("a"))
    requires username == "@@aa@a"
    ensures Authenticate(settings, Some(username)) == Lookup("@a")
    ensures ScopeMatches(Authenticate(settings, Some(username)).username, "a")
  {
    assert ScopeMatches(username, "a") by {
      assert "@" + "a" == "@a";
      CaselessEqRefl("@a");
      assert username == "@@aa" + "@a";
      assert username[4..6] == "@a";
      ScopeMatchesSuffix(username, "a");
    }
    assert Deleted(username, "@" + "a", 0) == "@a" by {
      assert "@" + "a" == "@a";
      DeletedCanLeaveMatch();
    }
    assert ScopeMatches("@a", "a") by {
      assert "@" + "a" == "@a";
      CaselessEqRefl("@a");
      assert "@a"[0..2] == "@a";
      ScopeMatchesSuffix("@a", "a");
    }
  }

  /**
   * So normalising is not idempotent with specific scopes: the name "@a" that
   * "@@aa@a" normalises to normalises again to nothing, and is not looked up.
   */
  lemma ScopeNotIdempotent(settings: Settings, username: string)
    requires settings == Settings(Some(DefaultVariableName), false, One("a"))
    requires username == "@@aa@a"
    ensures Normalize(settings, Some(username)) == Some("@a")
    ensures Normalize(settings, Normalize(settings, Some(username))) == Some("")
  {
    ScopeCanSurviveRemoval(settings, username);
    assert StrToLower("@a") == StrToLower("@" + "a") by {
      assert "@" + "a" == "@a";
    }
    SingleScopeStrips(settings, "", "@a");
    assert "" + "@a" == "@a";
  }

  // ---------------------------------------------------------------------
  // Worked examples
  //
  // Each example takes its settings and value as parameters pinned by a
  // `requires`, rather than writing the literals into the `ensures`: on
  // literal arguments the solver unfolds every recursive string function
  // eagerly, and these proofs then run out of resource.
  // ---------------------------------------------------------------------

  /**
   * When "@" + scope occurs only as the suffix of a name whose prefix has no
   * '@', str_ireplace leaves exactly that prefix.
   */
  lemma {:induction false} DeletedSuffixOnly(prefix: string, suffix: string, search: string, i: int)
    requires |search| > 0 && search[0] == '@' && '@' !in prefix
    requires CaselessEq(suffix, search)
    requires 0 <= i <= |prefix|
    ensures Deleted(prefix + suffix, search, i) == prefix[i..]
    decreases |prefix| - i
  {
    var s := prefix + suffix;
    assert |suffix| == |search|;
    if i == |prefix| {
      assert s[i..i + |search|] == suffix;
      assert Deleted(s, search, i + |search|) == [];
    } else {
      if CaselessAt(s, i, search) {
        assert s[i..i + |search|][0] == prefix[i];
        LowerCharFixes(prefix[i]);
        assert false;
      }
      DeletedKeeps(s, search, i);
      DeletedSuffixOnly(prefix, suffix, search, i + 1);
      assert prefix[i..] == [prefix[i]] + prefix[i + 1..];
    }
  }

  /**
   * A name that is a '@'-free prefix plus "@" + scope (in any case) matches
   * that scope and loses exactly the suffix.
   */
  lemma StripsTrailingScope(prefix: string, suffix: string, scope: string)
    requires '@' !in prefix
    requires CaselessEq(suffix, "@" + scope)
    ensures ScopeMatches(prefix + suffix, scope)
    ensures Deleted(prefix + suffix, "@" + scope, 0) == prefix
  {
    var s := prefix + suffix;
    assert |suffix| == |scope| + 1;
    assert s[|prefix|..|s|] == suffix;
    ScopeMatchesSuffix(s, scope);
    DeletedSuffixOnly(prefix, suffix, "@" + scope, 0);
    assert prefix[0..] == prefix;
  }

  /**
   * With DROP_SCOPE = scope, a value made of a '@'-free name and "@" + scope
   * in any case looks up the bare name, and fails when the name is empty.
   */
  lemma SingleScopeStrips(settings: Settings, prefix: string, suffix: string)
    requires settings.dropScope.One? && !settings.forceLowercase
    requires '@' !in prefix
    requires StrToLower(suffix) == StrToLower("@" + settings.dropScope.scope)
    ensures prefix != "" ==> Authenticate(settings, Some(prefix + suffix)) == Lookup(prefix)
    ensures prefix == "" ==> Authenticate(settings, Some(prefix + suffix)) == Fail
  {
    SuffixIgnoresCase(suffix, settings.dropScope.scope);
    StripsTrailingScope(prefix, suffix, settings.dropScope.scope);
  }

  /** A suffix that lower-cases to "@" + scope matches that scope caselessly. */
  lemma SuffixIgnoresCase(suffix: string, scope: string)
    requires StrToLower(suffix) == StrToLower("@" + scope)
    ensures CaselessEq(suffix, "@" + scope)
  {
    CaselessEqLower(suffix, "@" + scope);
    CaselessEqLower("@" + scope, StrToLower("@" + scope));
    CaselessEqRefl(StrToLower("@" + scope));
    CaselessEqSym("@" + scope, StrToLower("@" + scope));
  }

  /** Caseless equality is symmetric. */
  lemma {:induction false} CaselessEqSym(a: string, b: string)
    requires CaselessEq(a, b)
    ensures CaselessEq(b, a)
    decreases |a|
  {
    if a != [] {
      CaselessEqSym(a[1..], b[1..]);
    }
  }

  /** "bob@EXAMPLE.com" with DROP_SCOPE = "example.com" looks up "bob". */
  lemma ExampleSpecificScope(settings: Settings, username: string)
    requires settings == Settings(Some(DefaultVariableName), false, One("example.com"))
    requires username == "bob@EXAMPLE.com"
    ensures Authenticate(settings, Some(username)) == Lookup("bob")
  {
    assert username == "bob" + "@EXAMPLE.com";
    assert StrToLower("@EXAMPLE.com") == StrToLower("@" + "example.com") by {
      assert "@" + "example.com" == "@example.com";
    }
    SingleScopeStrips(settings, "bob", "@EXAMPLE.com");
  }

  /** A different scope is left in place: "bob@other.com" is looked up whole. */
  lemma ExampleOtherScope(settings: Settings, username: string)
    requires settings == Settings(Some(DefaultVariableName), false, One("example.com"))
    requires username == "bob@other.com"
    ensures Authenticate(settings, Some(username)) == Lookup(username)
  {
    ScopeMatchesSuffix(username, "example.com");
    assert username[1..13][0] == 'o';
    assert !CaselessAt(username, 1, "@" + "example.com");
    PassThrough(settings, username);
  }

  /** "Alice@CORP" with FORCE_LOWERCASE and DROP_SCOPE = "corp" looks up "alice". */
  lemma ExampleLowercaseThenScope(settings: Settings, username: string)
    requires settings == Settings(Some(DefaultVariableName), true, One("corp"))
    requires username == "Alice@CORP"
    ensures Authenticate(settings, Some(username)) == Lookup("alice")
  {
    var lowered := StrToLower(username);
    assert lowered == "alice" + "@corp";
    assert StrToLower("@corp") == StrToLower("@" + "corp");
    SingleScopeStrips(settings.(forceLowercase := false), "alice", "@corp");
  }

  /**
   * With two listed scopes, a value the first does not match and that ends in
   * "@" + the second scope loses that suffix.
   */
  lemma SecondScopeStrips(settings: Settings, prefix: string, suffix: string)
    requires settings.dropScope.Many? && |settings.dropScope.scopes| == 2 && !settings.forceLowercase
    requires !ScopeMatches(prefix + suffix, settings.dropScope.scopes[0])
    requires '@' !in prefix && prefix != ""
    requires StrToLower(suffix) == StrToLower("@" + settings.dropScope.scopes[1])
    ensures Authenticate(settings, Some(prefix + suffix)) == Lookup(prefix)
  {
    var scopes := settings.dropScope.scopes;
    SuffixIgnoresCase(suffix, scopes[1]);
    StripsTrailingScope(prefix, suffix, scopes[1]);
    DropScopesFirstMatch(scopes, prefix + suffix, 1);
  }

  /** With scopes ["a.com", "b.com"], "bob@b.com" skips the first scope and loses the second. */
  lemma ExampleScopeList(settings: Settings, username: string)
    requires settings == Settings(Some(DefaultVariableName), false, Many(["a.com", "b.com"]))
    requires username == "bob@b.com"
    ensures Authenticate(settings, Some(username)) == Lookup("bob")
  {
    assert username == "bob" + "@b.com";
    assert !ScopeMatches(username, "a.com") by {
      ScopeMatchesSuffix(username, "a.com");
      assert username[3..9] == "@b.com" && "@" + "a.com" == "@a.com";
      assert "@b.com"[1..] == "b.com" && "@a.com"[1..] == "a.com";
      assert !CaselessEq("b.com", "a.com");
    }
    assert StrToLower("@b.com") == StrToLower("@" + "b.com") by {
      assert "@" + "b.com" == "@b.com";
    }
    SecondScopeStrips(settings, "bob", "@b.com");
  }

  /** DROP_SCOPE = true turns "bob@EXAMPLE.com" into "bob". */
  lemma ExampleDropAll(settings: Settings, username: string)
    requires settings == Settings(Some(DefaultVariableName), false, DropAll)
    requires username == "bob@EXAMPLE.com"
    ensures Authenticate(settings, Some(username)) == Lookup("bob")
  {
    assert username[..3] == "bob";
    DropAllKeepsPrefix(settings, username, 3);
  }

  /** A value that is nothing but the scope leaves an empty name, and no lookup happens. */
  lemma ExampleNothingLeft(settings: Settings, username: string)
    requires settings == Settings(Some(DefaultVariableName), false, One("corp"))
    requires username == "@CORP"
    ensures Authenticate(settings, Some(username)) == Fail
  {
    assert StrToLower(username) == StrToLower("@" + "corp");
    SingleScopeStrips(settings, "", username);
    assert username == "" + username;
  }
}
