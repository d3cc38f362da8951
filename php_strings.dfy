/**
 * The PHP string built-ins that the environment authenticator calls:
 * `strtolower`, `strripos`, `str_ireplace` with an empty replacement, and
 * `preg_replace('/@.*$/', '', ...)`. Case folding is ASCII-only, as in
 * PHP 8.2 and later; a PHP string is modelled as a sequence of characters.
 */
module PhpStrings {
  import opened Wrappers

  predicate IsUpper(c: char) {
    'A' <= c <= 'Z'
  }

  /** ASCII lower-casing of one character; every other character is kept. */
  function LowerChar(c: char): char {
    if IsUpper(c) then (c as int + 32) as char else c
  }

  /**
   * `strtolower`: the result has the same length, no ASCII capital is left,
   * each capital becomes the same letter in lower case, and every other
   * character stays in place.
   */
  function StrToLower(s: string): (r: string)
    ensures |r| == |s|
    ensures forall i :: 0 <= i < |s| ==> !IsUpper(r[i])
    ensures forall i :: 0 <= i < |s| && IsUpper(s[i]) ==> r[i] as int - 'a' as int == s[i] as int - 'A' as int
    ensures forall i :: 0 <= i < |s| && !IsUpper(s[i]) ==> r[i] == s[i]
  {
    seq(|s|, i requires 0 <= i < |s| => LowerChar(s[i]))
  }

  /** Lower-casing twice is lower-casing once. */
  lemma {:induction false} LowerIdempotent(s: string)
    ensures StrToLower(StrToLower(s)) == StrToLower(s)
  {
  }

  /** Lower-casing commutes with taking a slice. */
  lemma {:induction false} LowerSlice(s: string, i: int, j: int)
    requires 0 <= i <= j <= |s|
    ensures StrToLower(s)[i..j] == StrToLower(s[i..j])
  {
  }

  /** Lower-casing distributes over concatenation. */
  lemma {:induction false} LowerConcat(a: string, b: string)
    ensures StrToLower(a + b) == StrToLower(a) + StrToLower(b)
  {
  }

  /** Only upper-case letters change, so '@' and '\n' are fixed points and have no other pre-image. */
  lemma {:induction false} LowerCharFixes(c: char)
    ensures LowerChar(c) == '@' <==> c == '@'
    ensures LowerChar(c) == '\n' <==> c == '\n'
  {
  }

  /** The comparison PHP's case-insensitive functions make: character by character, both lower-cased. */
  predicate CaselessEq(a: string, b: string)
    decreases |a|
  {
    |a| == |b| && (a == [] || (LowerChar(a[0]) == LowerChar(b[0]) && CaselessEq(a[1..], b[1..])))
  }

  /** `needle` occurs in `s` at position `i`, ignoring ASCII case. */
  predicate CaselessAt(s: string, i: int, needle: string) {
    0 <= i && i + |needle| <= |s| && CaselessEq(s[i..i + |needle|], needle)
  }

  /** Lower-casing one side does not change a caseless comparison. */
  lemma {:induction false} CaselessEqLower(a: string, b: string)
    ensures CaselessEq(StrToLower(a), b) == CaselessEq(a, b)
    decreases |a|
  {
    if a != [] && |a| == |b| {
      var l := StrToLower(a);
      assert LowerChar(l[0]) == LowerChar(a[0]);
      assert l[1..] == StrToLower(a[1..]);
      CaselessEqLower(a[1..], b[1..]);
    }
  }

  /** Whether `needle` occurs at `i` does not depend on the case of the subject. */
  lemma {:induction false} CaselessAtLower(s: string, i: int, needle: string)
    ensures CaselessAt(StrToLower(s), i, needle) <==> CaselessAt(s, i, needle)
  {
    if 0 <= i && i + |needle| <= |s| {
      LowerSlice(s, i, i + |needle|);
      CaselessEqLower(s[i..i + |needle|], needle);
    }
  }

  /** The last caseless occurrence of `needle` that starts at or before `k`. */
  function LastFrom(h: string, needle: string, k: nat): (r: Option<nat>)
    requires k + |needle| <= |h|
    ensures r.Some? ==> r.value <= k && CaselessAt(h, r.value, needle)
    ensures r.Some? ==> forall j :: r.value < j <= k ==> !CaselessAt(h, j, needle)
    ensures r.None? ==> forall j :: 0 <= j <= k ==> !CaselessAt(h, j, needle)
    decreases k
  {
    if CaselessAt(h, k, needle) then Some(k)
    else if k == 0 then None
    else LastFrom(h, needle, k - 1)
  }

  /**
   * `strripos(h, needle)`: the position of the last caseless occurrence of
   * `needle` in `h`, or `None` where PHP returns `false`.
   */
  function StrRIPos(h: string, needle: string): (r: Option<nat>)
    ensures r.Some? ==> CaselessAt(h, r.value, needle)
    ensures r.Some? ==> forall j :: r.value < j ==> !CaselessAt(h, j, needle)
    ensures r.None? ==> forall j :: !CaselessAt(h, j, needle)
  {
    if |needle| > |h| then None else LastFrom(h, needle, |h| - |needle|)
  }

  /**
   * `str_ireplace(search, '', s)` applied to `s[i..]`: scanning left to right,
   * every caseless occurrence of `search` that does not overlap one already
   * removed is deleted. An empty `search` deletes nothing.
   */
  function Deleted(s: string, search: string, i: int): (r: string)
    requires 0 <= i <= |s|
    ensures |r| <= |s| - i
    ensures search == [] ==> r == s[i..]
    decreases |s| - i
  {
    if search == [] || |s| - i < |search| then s[i..]
    else if CaselessAt(s, i, search) then Deleted(s, search, i + |search|)
    else [s[i]] + Deleted(s, search, i + 1)
  }

  /** `str_ireplace` as a scan over the subject, proved to compute `Deleted`. */
  method DeleteAll(s: string, search: string) returns (r: string)
    ensures r == Deleted(s, search, 0)
  {
    if search == [] {
      return s;
    }
    r := [];
    var i := 0;
    while i < |s|
      invariant 0 <= i <= |s|
      invariant Deleted(s, search, 0) == r + Deleted(s, search, i)
    {
      DeletedAdvance(s, search, i, r);
      if CaselessAt(s, i, search) {
        i := i + |search|;
      } else {
        r := r + [s[i]];
        i := i + 1;
      }
    }
    DeletedEnd(s, search);
  }

  /** Nothing is left to scan at the end of the subject. */
  lemma {:induction false} DeletedEnd(s: string, search: string)
    ensures Deleted(s, search, |s|) == []
  {
  }

  /** The scan of `DeleteAll` keeps its invariant over one step. */
  lemma {:induction false} DeletedAdvance(s: string, search: string, i: int, r: string)
    requires search != [] && 0 <= i < |s|
    requires Deleted(s, search, 0) == r + Deleted(s, search, i)
    ensures CaselessAt(s, i, search) ==> Deleted(s, search, 0) == r + Deleted(s, search, i + |search|)
    ensures !CaselessAt(s, i, search) ==> Deleted(s, search, 0) == (r + [s[i]]) + Deleted(s, search, i + 1)
  {
    if !CaselessAt(s, i, search) {
      DeletedKeeps(s, search, i);
      assert r + ([s[i]] + Deleted(s, search, i + 1)) == (r + [s[i]]) + Deleted(s, search, i + 1);
    }
  }

  /** Where `search` does not start at `i`, the character there is kept. */
  lemma {:induction false} DeletedKeeps(s: string, search: string, i: int)
    requires search != [] && 0 <= i < |s| && !CaselessAt(s, i, search)
    ensures Deleted(s, search, i) == [s[i]] + Deleted(s, search, i + 1)
  {
    if |s| - i < |search| {
      assert s[i..] == [s[i]] + s[i + 1..];
    }
  }

  /** Where `search` never occurs, nothing is deleted. */
  lemma {:induction false} DeletedNoMatch(s: string, search: string, i: int)
    requires 0 <= i <= |s|
    requires forall j :: !CaselessAt(s, j, search)
    ensures Deleted(s, search, i) == s[i..]
    decreases |s| - i
  {
    if search != [] && |s| - i >= |search| {
      assert !CaselessAt(s, i, search);
      DeletedNoMatch(s, search, i + 1);
      assert s[i..] == [s[i]] + s[i + 1..];
    }
  }

  /** One occurrence anywhere means at least `|search|` characters go. */
  lemma {:induction false} DeletedShrinks(s: string, search: string, i: int, j: int)
    requires search != [] && 0 <= i <= j && CaselessAt(s, j, search)
    ensures |Deleted(s, search, i)| + |search| <= |s| - i
    decreases |s| - i
  {
    if !CaselessAt(s, i, search) {
      DeletedShrinks(s, search, i + 1, j);
    }
  }

  /** `s` with every occurrence of the character `c` taken out. */
  function WithoutChar(s: string, c: char): (r: string)
    ensures c !in r
  {
    if s == [] then [] else (if s[0] == c then [] else [s[0]]) + WithoutChar(s[1..], c)
  }

  /** Deleting the one-character search "@" takes out every '@' and nothing else. */
  lemma {:induction false} DeletedAt(s: string, i: int)
    requires 0 <= i <= |s|
    ensures Deleted(s, "@", i) == WithoutChar(s[i..], '@')
    decreases |s| - i
  {
    if i < |s| {
      LowerCharFixes(s[i]);
      assert CaselessAt(s, i, "@") <==> s[i] == '@' by {
        assert s[i..i + 1] == [s[i]];
        assert [s[i]][1..] == [] && "@"[1..] == [];
        assert CaselessEq([], []);
      }
      assert s[i..][1..] == s[i + 1..];
      DeletedAt(s, i + 1);
    }
  }

  /** Deleting from a lower-cased subject is lower-casing the deleted subject. */
  lemma {:induction false} DeletedLower(s: string, search: string, i: int)
    requires 0 <= i <= |s|
    ensures Deleted(StrToLower(s), search, i) == StrToLower(Deleted(s, search, i))
    decreases |s| - i
  {
    if search == [] || |s| - i < |search| {
      LowerShortStep(s, search, i);
    } else if CaselessAt(s, i, search) {
      DeletedLower(s, search, i + |search|);
      LowerDeleteStep(s, search, i);
    } else {
      DeletedLower(s, search, i + 1);
      LowerKeepStep(s, search, i);
    }
  }

  /** A tail too short to hold `search` is kept, lower-cased or not. */
  lemma {:induction false} LowerShortStep(s: string, search: string, i: int)
    requires 0 <= i <= |s| && (search == [] || |s| - i < |search|)
    ensures Deleted(StrToLower(s), search, i) == StrToLower(Deleted(s, search, i))
  {
    LowerSlice(s, i, |s|);
    assert StrToLower(s)[i..] == StrToLower(s)[i..|s|];
    assert s[i..] == s[i..|s|];
  }

  /** A deletion at `i` happens in the lower-cased subject too. */
  lemma {:induction false} LowerDeleteStep(s: string, search: string, i: int)
    requires search != [] && 0 <= i && CaselessAt(s, i, search)
    requires Deleted(StrToLower(s), search, i + |search|) == StrToLower(Deleted(s, search, i + |search|))
    ensures Deleted(StrToLower(s), search, i) == StrToLower(Deleted(s, search, i))
  {
    CaselessAtLower(s, i, search);
  }

  /** A character kept at `i` is kept, lower-cased, in the lower-cased subject. */
  lemma {:induction false} LowerKeepStep(s: string, search: string, i: int)
    requires search != [] && 0 <= i && |s| - i >= |search| && !CaselessAt(s, i, search)
    requires Deleted(StrToLower(s), search, i + 1) == StrToLower(Deleted(s, search, i + 1))
    ensures Deleted(StrToLower(s), search, i) == StrToLower(Deleted(s, search, i))
  {
    var l := StrToLower(s);
    var rest := Deleted(s, search, i + 1);
    CaselessAtLower(s, i, search);
    assert Deleted(l, search, i) == [l[i]] + StrToLower(rest);
    assert StrToLower([s[i]]) == [l[i]];
    LowerConcat([s[i]], rest);
  }

  /** Removal is not closed: deleting can join two halves into a new occurrence. */
  lemma {:induction false} DeletedCanLeaveMatch()
    ensures Deleted("@@aa@a", "@a", 0) == "@a"
    ensures CaselessAt(Deleted("@@aa@a", "@a", 0), 0, "@a")
  {
    var s := "@@aa@a";
    assert StrToLower("@a") == "@a";
    assert Deleted(s, "@a", 4) == [] by {
      assert CaselessAt(s, 4, "@a") by { assert s[4..6] == "@a"; }
    }
    assert Deleted(s, "@a", 3) == "a" by {
      assert !CaselessAt(s, 3, "@a") by { assert s[3..5][0] == 'a'; }
    }
    assert Deleted(s, "@a", 1) == "a" by {
      assert CaselessAt(s, 1, "@a") by { assert s[1..3] == "@a"; }
    }
    assert !CaselessAt(s, 0, "@a") by {
      assert s[0..2] == "@@";
      assert "@@"[1..] == "@" && "@a"[1..] == "a";
      assert !CaselessEq("@", "a");
    }
    assert CaselessAt("@a", 0, "@a") by { assert "@a"[0..2] == "@a"; }
  }

  /** An occurrence in the middle is deleted as well as a trailing one. */
  lemma {:induction false} DeletedRemovesInner()
    ensures Deleted("x@ay@A", "@a", 0) == "xy"
  {
    var s := "x@ay@A";
    assert StrToLower("@a") == "@a";
    assert Deleted(s, "@a", 4) == [] by {
      assert CaselessAt(s, 4, "@a") by { assert s[4..6] == "@A"; }
    }
    assert Deleted(s, "@a", 3) == "y" by {
      assert !CaselessAt(s, 3, "@a") by { assert s[3..5][0] == 'y'; }
    }
    assert Deleted(s, "@a", 1) == "y" by {
      assert CaselessAt(s, 1, "@a") by { assert s[1..3] == "@a"; }
    }
    assert !CaselessAt(s, 0, "@a") by { assert s[0..2][0] == 'x'; }
  }

  /**
   * `.*$` can match all of `t`: PCRE's `.` stops at a newline and `$` holds
   * at the end or just before a final newline, so at most the last
   * character of `t` may be a newline.
   */
  predicate DotsReachEnd(t: string) {
    forall k :: 0 <= k < |t| - 1 ==> t[k] != '\n'
  }

  /** What `.*$` leaves of `t` once it has matched: the final newline, if any. */
  function FinalNewline(t: string): string {
    if |t| > 0 && t[|t| - 1] == '\n' then "\n" else ""
  }

  /**
   * `preg_replace('/@.*$/', '', s)`: the leftmost '@' whose line runs to the
   * end of `s` (ignoring a final newline) starts the one match, which extends
   * to that end; the text before it and a final newline are kept.
   */
  function DropAllScopes(s: string): (r: string)
    ensures |r| <= |s|
  {
    if s == [] then []
    else if s[0] == '@' && DotsReachEnd(s[1..]) then FinalNewline(s[1..])
    else [s[0]] + DropAllScopes(s[1..])
  }

  /** Without any '@' the regular expression cannot match. */
  lemma {:induction false} DropAllNoAt(s: string)
    requires '@' !in s
    ensures DropAllScopes(s) == s
  {
    if s != [] {
      assert s[0] in s;
      assert forall c :: c in s[1..] ==> c in s;
      DropAllNoAt(s[1..]);
    }
  }

  /** On a single line the result is exactly the text before the first '@'. */
  lemma {:induction false} DropAllFirstAt(s: string, i: int)
    requires '\n' !in s
    requires 0 <= i < |s| && s[i] == '@' && '@' !in s[..i]
    ensures DropAllScopes(s) == s[..i]
  {
    if i == 0 {
      assert DotsReachEnd(s[1..]) by {
        forall k | 0 <= k < |s[1..]| - 1 ensures s[1..][k] != '\n' {
          assert s[1..][k] == s[k + 1];
        }
      }
    } else {
      assert s[0] in s[..i];
      assert forall c :: c in s[1..] ==> c in s;
      assert s[1..][..i - 1] == s[1..i];
      assert forall c :: c in s[1..i] ==> c in s[..i];
      DropAllFirstAt(s[1..], i - 1);
      assert s[..i] == [s[0]] + s[1..i];
    }
  }

  /** On a single line no '@' survives. */
  lemma {:induction false} DropAllLeavesNoAt(s: string)
    requires '\n' !in s
    ensures '@' !in DropAllScopes(s)
  {
    if s != [] {
      assert forall c :: c in s[1..] ==> c in s;
      if s[0] == '@' {
        assert DotsReachEnd(s[1..]) by {
          forall k | 0 <= k < |s[1..]| - 1 ensures s[1..][k] != '\n' {
            assert s[1..][k] == s[k + 1];
          }
        }
        assert FinalNewline(s[1..]) == "" by {
          if |s| > 1 { assert s[1..][|s| - 2] == s[|s| - 1]; }
        }
      } else {
        DropAllLeavesNoAt(s[1..]);
      }
    }
  }

  /** Lower-casing before or after the regular expression gives the same string. */
  lemma {:induction false} DropAllLower(s: string)
    ensures DropAllScopes(StrToLower(s)) == StrToLower(DropAllScopes(s))
  {
    var l := StrToLower(s);
    if s != [] {
      LowerCharFixes(s[0]);
      LowerSlice(s, 1, |s|);
      assert l[1..] == StrToLower(s[1..]) by { assert l[1..] == l[1..|s|]; assert s[1..] == s[1..|s|]; }
      assert DotsReachEnd(l[1..]) <==> DotsReachEnd(s[1..]) by {
        forall k | 0 <= k < |s| - 1 ensures l[1..][k] == '\n' <==> s[1..][k] == '\n' {
          LowerCharFixes(s[k + 1]);
        }
      }
      if s[0] == '@' && DotsReachEnd(s[1..]) {
        LowerCharFixes(s[|s| - 1]);
        var tail := FinalNewline(s[1..]);
        assert FinalNewline(l[1..]) == tail;
        assert StrToLower(tail) == tail by { LowerCharFixes('\n'); }
      } else {
        DropAllLower(s[1..]);
        LowerConcat([s[0]], DropAllScopes(s[1..]));
        assert StrToLower([s[0]]) == [l[0]];
      }
    }
  }

  /** With a newline after the scope, the scope survives; a final newline is kept. */
  lemma {:induction false} DropAllMultiline()
    ensures DropAllScopes("a@b\nc") == "a@b\nc"
    ensures DropAllScopes("a@b\n") == "a\n"
  {
    assert "a@b\nc"[1..] == "@b\nc";
    assert !DotsReachEnd("b\nc") by { assert "b\nc"[1] == '\n'; }
    assert "@b\nc"[1..] == "b\nc";
    assert "b\nc"[1..] == "\nc";
    assert "\nc"[1..] == "c";
    assert "c"[1..] == [];
    assert "a@b\n"[1..] == "@b\n";
    assert "@b\n"[1..] == "b\n";
    assert DotsReachEnd("b\n");
  }
}
