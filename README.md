# Environment-variable authentication, modelled in Dafny

CakePHP's `EnvAuthenticate` adapter trusts a server environment variable
(REMOTE_USER unless VARIABLE_NAME says otherwise) to name the caller. Its
constructor fills in that default. `getUser` reads the variable and
optionally lower-cases it (FORCE_LOWERCASE). It then optionally strips a
scope (DROP_SCOPE):

- `true` cuts everything from an `@` on with a regular expression;
- a string or an array of strings takes the first listed scope that the
  name ends with (as "@" + scope, ignoring case) and removes every caseless
  occurrence of "@" + that scope from the name, not only the trailing one.

The adapter calls the user lookup with the result, or returns `false`
without a lookup when nothing is left.

The project has four modules:

- `Wrappers` (`wrappers.dfy`) holds `Option`, which stands for a PHP value
  that may be `null`.
- `PhpStrings` (`php_strings.dfy`) defines the PHP built-ins the adapter
  relies on:
  - `strtolower`, ASCII only;
  - `strripos`, the last caseless occurrence;
  - `str_ireplace` with an empty replacement, which removes every caseless
    occurrence scanning left to right. `DeleteAll` is the loop;
  - `preg_replace('/@.*$/', '', s)` under PCRE's default flags: `.` stops
    at a line break, and `$` matches at the end or before a final line
    break.
- `EnvAuth` (`env_authenticate.dfy`) holds the settings, the functions
  that say what `getUser` computes (`Configure`, `DropScopes`, `Normalize`
  and `Authenticate`) and the class `EnvAuthenticate`:
  - its constructor completes the settings in place;
  - its `GetUser` method runs the scope loop, with its `break`, and is
    proved to return `Authenticate` of what it read.
- `EnvAuthProperties` (`env_authenticate_properties.dfy`) proves what the
  adapter promises about the name it hands to the lookup, and the worked
  examples.

The user lookup (`_findUser`) is not part of this model. `getUser` results
in `Outcome.Fail` (PHP `false`) or in `Outcome.Lookup(name)`, a call of the
lookup with `name`.

DROP_SCOPE = `true` removes all scopes by cutting from the first `@` whose
line runs to the end of the value. On a one-line name that is the first `@`,
so only the text before it is kept (see `DropAllKeepsPrefix`).

## Model

| member | source | states |
|---|---|---|
| EnvAuth.Configure | Controller/Component/Auth/EnvAuthenticate.php:75-80 | VARIABLE_NAME is never empty after construction: a non-empty name is kept, an unset, "" or "0" name becomes REMOTE_USER, other settings are unchanged |
| EnvAuth.Authenticate | Controller/Component/Auth/EnvAuthenticate.php:124-127 | a lookup happens only for a set variable, with a non-empty name no longer than its value; an unset or empty variable gives `false` and never reaches the lookup |
| EnvAuth.EnvAuthenticate.constructor | Controller/Component/Auth/EnvAuthenticate.php:75-80 | the object's settings are the completed settings, with a non-empty variable name |
| EnvAuth.EnvAuthenticate.GetUser | Controller/Component/Auth/EnvAuthenticate.php:99-128 | the step-by-step method returns exactly `Authenticate` of the variable's value: `false` or a lookup of the normalised name |
| EnvAuth.ScopeMatchesSuffix | Controller/Component/Auth/EnvAuthenticate.php:117 | the length test plus `strripos` position test holds exactly when the name is longer than the scope and ends in "@" + scope, ignoring ASCII case |
| EnvAuth.DropScopes | Controller/Component/Auth/EnvAuthenticate.php:115-121 | the scope loop never lengthens the name |
| EnvAuth.IsEmpty | Controller/Component/Auth/EnvAuthenticate.php:77 | definition of PHP's `empty()` on the setting: unset, "" and "0" are empty |
| EnvAuth.ReadEnv | Controller/Component/Auth/EnvAuthenticate.php:100 | definition of `env()` over a map: the variable's value, or `None` (PHP `null`) when it is not set |
| EnvAuth.ScopeList | Controller/Component/Auth/EnvAuthenticate.php:109-114 | definition of `$scopes`: a string gives a one-element list, an array is used as is, any other value gives no scopes |
| EnvAuth.ScopeMatches | Controller/Component/Auth/EnvAuthenticate.php:117 | definition of the scope test as written, length check and `strripos` position; its meaning is stated by ScopeMatchesSuffix |
| EnvAuth.Normalize | Controller/Component/Auth/EnvAuthenticate.php:100-122 | the normalised name exists exactly when the variable is set, and is never longer than its value |
| PhpStrings.StrToLower | Controller/Component/Auth/EnvAuthenticate.php:102 | lower-casing keeps the length, leaves no capital A-Z, turns each capital into the same letter in lower case and keeps every other character in place |
| PhpStrings.LowerIdempotent | Controller/Component/Auth/EnvAuthenticate.php:102 | lower-casing twice is lower-casing once |
| PhpStrings.CaselessAtLower | Controller/Component/Auth/EnvAuthenticate.php:117 | a caseless occurrence is found in the lower-cased name exactly where it is found in the original |
| PhpStrings.LastFrom | Controller/Component/Auth/EnvAuthenticate.php:117 | the backward search returns an occurrence with no later occurrence, or none when there is none |
| PhpStrings.StrRIPos | Controller/Component/Auth/EnvAuthenticate.php:117 | `strripos` gives the position of the last caseless occurrence, or false when there is no occurrence at all |
| PhpStrings.Deleted | Controller/Component/Auth/EnvAuthenticate.php:118 | `str_ireplace` with an empty replacement, as a left-to-right scan that skips each caseless occurrence: never longer than the rest of the subject, and an empty search string changes nothing |
| PhpStrings.DeleteAll | Controller/Component/Auth/EnvAuthenticate.php:118 | the left-to-right removal loop computes `Deleted` of the whole name |
| PhpStrings.DeletedNoMatch | Controller/Component/Auth/EnvAuthenticate.php:118 | with no caseless occurrence of the search string, `str_ireplace` leaves the name unchanged |
| PhpStrings.DeletedShrinks | Controller/Component/Auth/EnvAuthenticate.php:118 | when the search string occurs, the result is shorter by at least its length |
| PhpStrings.DeletedAt | Controller/Component/Auth/EnvAuthenticate.php:118 | removing "@" removes every '@' and keeps every other character in order |
| PhpStrings.DeletedLower | Controller/Component/Auth/EnvAuthenticate.php:118 | caseless removal commutes with lower-casing |
| PhpStrings.DeletedCanLeaveMatch | Controller/Component/Auth/EnvAuthenticate.php:118 | removing "@a" from "@@aa@a" gives "@a", so the result can still contain the search string |
| PhpStrings.DeletedRemovesInner | Controller/Component/Auth/EnvAuthenticate.php:118 | occurrences inside the name are removed too, in any case: "x@ay@A" becomes "xy" |
| PhpStrings.DropAllScopes | Controller/Component/Auth/EnvAuthenticate.php:107 | the regular-expression replacement never lengthens the name |
| PhpStrings.DropAllNoAt | Controller/Component/Auth/EnvAuthenticate.php:107 | a name without '@' is unchanged |
| PhpStrings.DropAllFirstAt | Controller/Component/Auth/EnvAuthenticate.php:107 | on a one-line name the result is everything before the first '@' |
| PhpStrings.DropAllLeavesNoAt | Controller/Component/Auth/EnvAuthenticate.php:107 | on a one-line name no '@' survives |
| PhpStrings.DropAllLower | Controller/Component/Auth/EnvAuthenticate.php:107 | the replacement commutes with lower-casing |
| PhpStrings.DropAllMultiline | Controller/Component/Auth/EnvAuthenticate.php:107 | a line break stops the match: "a@b\nc" is kept, "a@b\n" becomes "a\n" |
| EnvAuthProperties.DropScopesNoMatch | Controller/Component/Auth/EnvAuthenticate.php:116-121 | when no listed scope matches, the name is unchanged |
| EnvAuthProperties.DropScopesFirstMatch | Controller/Component/Auth/EnvAuthenticate.php:116-121 | the first matching scope in list order is removed and no later scope is tried |
| EnvAuthProperties.DropScopesShrinks | Controller/Component/Auth/EnvAuthenticate.php:116-121 | a matching scope shortens the name by at least the length of "@" + scope |
| EnvAuthProperties.EmptyScopeDropsEveryAt | Controller/Component/Auth/EnvAuthenticate.php:117-118 | the empty scope matches exactly names ending in '@', and then every '@' is removed |
| EnvAuthProperties.SingleScopeIsList | Controller/Component/Auth/EnvAuthenticate.php:110-114 | a scope string behaves as the one-element scope array |
| EnvAuthProperties.PassThrough | Controller/Component/Auth/EnvAuthenticate.php:99-127 | with no lower-casing, no DROP_SCOPE = true and no matching scope, a non-empty value is looked up as read |
| EnvAuthProperties.ScopeMatchesLower | Controller/Component/Auth/EnvAuthenticate.php:117 | the scope test gives the same answer on the lower-cased name |
| EnvAuthProperties.DropScopesLower | Controller/Component/Auth/EnvAuthenticate.php:116-121 | the scope loop commutes with lower-casing |
| EnvAuthProperties.LowercaseCommutes | Controller/Component/Auth/EnvAuthenticate.php:101-122 | FORCE_LOWERCASE gives the lower-cased version of the name found without it |
| EnvAuthProperties.LowercaseNoUpper | Controller/Component/Auth/EnvAuthenticate.php:101-127 | with FORCE_LOWERCASE the looked-up name has no capital A-Z |
| EnvAuthProperties.LowercaseOnly | Controller/Component/Auth/EnvAuthenticate.php:101-103 | without scope handling, lower-casing keeps the length and every non-capital character |
| EnvAuthProperties.LowerNoNewline | Controller/Component/Auth/EnvAuthenticate.php:102 | lower-casing keeps a one-line name on one line |
| EnvAuthProperties.DropAllKeepsPrefix | Controller/Component/Auth/EnvAuthenticate.php:105-108 | DROP_SCOPE = true keeps the part of a one-line name before its first '@' |
| EnvAuthProperties.DropAllWithoutAt | Controller/Component/Auth/EnvAuthenticate.php:105-108 | DROP_SCOPE = true leaves a name without '@' whole |
| EnvAuthProperties.DropAllLeavesNoScope | Controller/Component/Auth/EnvAuthenticate.php:101-108 | after DROP_SCOPE = true a one-line name has no '@' left |
| EnvAuthProperties.DropAllKeepsOneLine | Controller/Component/Auth/EnvAuthenticate.php:107 | the replacement turns a one-line name into a one-line name |
| EnvAuthProperties.DropAllStopsAtLineBreak | Controller/Component/Auth/EnvAuthenticate.php:105-108 | "a@b\nc" is looked up whole and "a@b\n" as "a\n" |
| EnvAuthProperties.DropAllIdempotent | Controller/Component/Auth/EnvAuthenticate.php:101-108 | with DROP_SCOPE = true, normalising a one-line name twice equals normalising it once |
| EnvAuthProperties.DropScopesFixedNoMatch | Controller/Component/Auth/EnvAuthenticate.php:116-121 | if the scope loop leaves the name unchanged, no listed scope matches it |
| EnvAuthProperties.ScopesIdempotentIffNoneLeft | Controller/Component/Auth/EnvAuthenticate.php:101-121 | with specific scopes, a second pass changes nothing exactly when no listed scope matches the first result |
| EnvAuthProperties.ScopeCanSurviveRemoval | Controller/Component/Auth/EnvAuthenticate.php:116-119 | with scope "a", "@@aa@a" is looked up as "@a", which still ends in "@a" |
| EnvAuthProperties.ScopeNotIdempotent | Controller/Component/Auth/EnvAuthenticate.php:116-119 | that "@a" normalises again to "", so normalisation is not idempotent with specific scopes |
| EnvAuthProperties.CaselessAtAt | Controller/Component/Auth/EnvAuthenticate.php:117 | a caseless test for "@" at one position is a plain comparison |
| EnvAuthProperties.DeletedSuffixOnly | Controller/Component/Auth/EnvAuthenticate.php:118 | when "@" + scope occurs only as the suffix after a '@'-free prefix, the removal leaves that prefix |
| EnvAuthProperties.StripsTrailingScope | Controller/Component/Auth/EnvAuthenticate.php:117-118 | a '@'-free name followed by "@" + scope in any case matches the scope and loses exactly the suffix |
| EnvAuthProperties.SingleScopeStrips | Controller/Component/Auth/EnvAuthenticate.php:109-127 | with one scope, such a value is looked up as the bare name, or fails when the bare name is empty |
| EnvAuthProperties.SecondScopeStrips | Controller/Component/Auth/EnvAuthenticate.php:112-127 | with two scopes, a value the first does not match and that ends in the second loses that suffix |
| EnvAuthProperties.ExampleSpecificScope | Controller/Component/Auth/EnvAuthenticate.php:109-127 | "bob@EXAMPLE.com" with scope "example.com" is looked up as "bob" |
| EnvAuthProperties.ExampleOtherScope | Controller/Component/Auth/EnvAuthenticate.php:116-127 | "bob@other.com" with scope "example.com" is looked up whole |
| EnvAuthProperties.ExampleLowercaseThenScope | Controller/Component/Auth/EnvAuthenticate.php:101-127 | "Alice@CORP" with FORCE_LOWERCASE and scope "corp" is looked up as "alice" |
| EnvAuthProperties.ExampleScopeList | Controller/Component/Auth/EnvAuthenticate.php:112-127 | "bob@b.com" with scopes ["a.com", "b.com"] is looked up as "bob" |
| EnvAuthProperties.ExampleDropAll | Controller/Component/Auth/EnvAuthenticate.php:105-127 | "bob@EXAMPLE.com" with DROP_SCOPE = true is looked up as "bob" |
| EnvAuthProperties.ExampleNothingLeft | Controller/Component/Auth/EnvAuthenticate.php:116-126 | "@CORP" with scope "corp" leaves nothing, and no lookup happens |

## Left out

- `env()` and the server/process environment: the variable's value comes from a `map` parameter. A missing key stands for `null`.
- `_findUser` (the user model query, password-less lookup and scope conditions of the base adapter): `Outcome.Lookup(name)` records that it is called and with what.
- `authenticate` only forwards to `getUser`. `unauthenticated` only throws an `UnauthorizedException`. Both are one-line delegations and have no model of their own.
- `App::uses` and the base-adapter constructor, which merges default settings: settings are given to the constructor already merged.
- Settings values of other PHP types: VARIABLE_NAME is a string or unset, and FORCE_LOWERCASE is a truthiness flag. Every DROP_SCOPE value that is not `true`, a string or an array is `DropScope.Other`. Array elements are taken to be strings.
- PHP's coercion of `null` on an unset variable: `strtolower` and `preg_replace` turn it into "", and `strlen(null)` is 0, so the scope test at line 117 fails before `str_ireplace` could see it. The model keeps `None` instead. Both end in `false` without a lookup.
- Locale-dependent `strtolower` and multibyte text: case folding is ASCII A-Z only, over characters rather than bytes.
- EnvAuth.DropScopes: its contract states only that the name never grows. What it removes is stated by DropScopesNoMatch, DropScopesFirstMatch and DropScopesShrinks.
- EnvAuth.Normalize: its contract states only presence and length. The lower-casing, scope and idempotence facts are separate lemmas.
- A scope match removes every caseless occurrence of "@" + scope, inner ones included, and can leave a new trailing occurrence. The model reproduces `str_ireplace` as written rather than removing only the suffix, so there is no lemma that the result no longer ends in the scope.
