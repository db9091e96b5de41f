/** Key and namespace validation (domain/validation.py, domain/constraints.py). */
module Validation {
  import opened Types

  const MAX_KEY_LENGTH := 256
  const MAX_NAMESPACE_LENGTH := 64

  predicate ValidKey(key: Key) {
    0 < |key| <= MAX_KEY_LENGTH
  }

  /** Does a store refuse this call before it takes its lock? Only client calls are checked. */
  predicate Refused(op: Op) {
    (op.Get? || op.Set? || op.SetIfAbsent? || op.CompareAndSet? || op.Delete?) && !ValidKey(op.key)
  }

  // Namespaces.

  /** The characters Python's `str.strip` removes. */
  predicate IsSpace(c: char) {
    || '\U{9}' <= c <= '\U{D}'
    || '\U{1C}' <= c <= '\U{20}'
    || c in "\U{85}\U{A0}\U{1680}\U{2028}\U{2029}\U{202F}\U{205F}\U{3000}"
    || '\U{2000}' <= c <= '\U{200A}'
  }

  predicate IsAlphanumeric(c: char) {
    'A' <= c <= 'Z' || 'a' <= c <= 'z' || '0' <= c <= '9'
  }

  predicate IsNamespaceChar(c: char) {
    IsAlphanumeric(c) || c == '_' || c == '.' || c == '-'
  }

  predicate MatchesPattern(s: string) {
    s != [] && IsAlphanumeric(s[0]) && forall i :: 0 <= i < |s| ==> IsNamespaceChar(s[i])
  }

  function StripLeft(s: string): string {
    if s != [] && IsSpace(s[0]) then StripLeft(s[1..]) else s
  }

  function StripRight(s: string): string {
    if s != [] && IsSpace(s[|s| - 1]) then StripRight(s[..|s| - 1]) else s
  }

  function Strip(s: string): string {
    StripRight(StripLeft(s))
  }

  datatype NamespaceError = NamespaceTooLong | NamespaceMalformed

  function ValidateNamespace(ns: Option<string>): Result<Option<string>, NamespaceError> {
    if ns.None? then Success(None)
    else
      var normalized := Strip(ns.value);
      if normalized == [] then Success(None)
      else if |normalized| > MAX_NAMESPACE_LENGTH then Failure(NamespaceTooLong)
      else if !MatchesPattern(normalized) then Failure(NamespaceMalformed)
      else Success(Some(normalized))
  }

  // What `ValidateNamespace` answers, in terms of the input's characters.

  predicate AllSpace(s: string) {
    forall i :: 0 <= i < |s| ==> IsSpace(s[i])
  }

  /** `core` is empty or neither starts nor ends with whitespace. */
  predicate Trimmed(core: string) {
    core == [] || (!IsSpace(core[0]) && !IsSpace(core[|core| - 1]))
  }

  /** `s` is `core` with whitespace around it. */
  ghost predicate Pads(s: string, core: string) {
    exists left, right :: s == left + core + right && AllSpace(left) && AllSpace(right)
  }

  lemma {:induction false} StripLeftPads(s: string) returns (left: string)
    ensures s == left + StripLeft(s) && AllSpace(left)
    ensures StripLeft(s) == [] || !IsSpace(StripLeft(s)[0])
  {
    left := [];
    if s != [] && IsSpace(s[0]) {
      var rest := StripLeftPads(s[1..]);
      left := [s[0]] + rest;
    }
  }

  lemma {:induction false} StripRightPads(s: string) returns (right: string)
    ensures s == StripRight(s) + right && AllSpace(right)
    ensures StripRight(s) == [] || !IsSpace(StripRight(s)[|StripRight(s)| - 1])
  {
    right := [];
    if s != [] && IsSpace(s[|s| - 1]) {
      var rest := StripRightPads(s[..|s| - 1]);
      right := rest + [s[|s| - 1]];
    }
  }

  lemma StripPads(s: string)
    ensures Pads(s, Strip(s)) && Trimmed(Strip(s))
  {
    hide StripLeft, StripRight, IsSpace, AllSpace;
    var left := StripLeftPads(s);
    var right := StripRightPads(StripLeft(s));
    var core := Strip(s);
    assert core != [] ==> core[0] == StripLeft(s)[0];
    assert s == left + core + right;
  }

  lemma {:induction false} StripRightOf(core: string, right: string)
    requires AllSpace(right) && (core == [] || !IsSpace(core[|core| - 1]))
    ensures StripRight(core + right) == core
    decreases |right|
  {
    if right != [] {
      assert (core + right)[..|core + right| - 1] == core + right[..|right| - 1];
      StripRightOf(core, right[..|right| - 1]);
    } else {
      assert core + right == core;
    }
  }

  /** Surrounding whitespace never matters. */
  lemma {:induction false} PaddingIsIgnored(left: string, core: string, right: string)
    requires Trimmed(core) && AllSpace(left) && AllSpace(right)
    ensures Strip(left + core + right) == core
    decreases |left|
  {
    var s := left + core + right;
    if left != [] {
      assert s[1..] == left[1..] + core + right;
      PaddingIsIgnored(left[1..], core, right);
    } else if core != [] {
      assert s == core + right;
      StripRightOf(core, right);
    } else {
      assert s == right;
      var gone := StripLeftPads(s);
      AllSpaceGoes(s);
    }
  }

  lemma {:induction false} AllSpaceGoes(s: string)
    requires AllSpace(s)
    ensures StripLeft(s) == []
  {
    if s != [] {
      AllSpaceGoes(s[1..]);
    }
  }

  /** Stripping finds the one trimmed string that the input pads. */
  lemma StripExactly(s: string, core: string)
    ensures Strip(s) == core <==> Pads(s, core) && Trimmed(core)
  {
    StripPads(s);
    if Pads(s, core) && Trimmed(core) {
      var left, right :| s == left + core + right && AllSpace(left) && AllSpace(right);
      PaddingIsIgnored(left, core, right);
    }
  }

  /** The alphabet and whitespace by code point: ASCII letters and digits, `_`, `.` and `-`; what
      `str.isspace` accepts. They share nothing, and `:` is in neither. */
  lemma CharactersExactly(c: char)
    ensures IsAlphanumeric(c) <==> 48 <= c as int <= 57 || 65 <= c as int <= 90 || 97 <= c as int <= 122
    ensures IsNamespaceChar(c) <==> IsAlphanumeric(c) || c as int == 95 || c as int == 46 || c as int == 45
    ensures IsSpace(c) <==>
              || 9 <= c as int <= 13 || 28 <= c as int <= 32 || c as int == 133 || c as int == 160
              || c as int == 5760 || 8192 <= c as int <= 8202 || 8232 <= c as int <= 8233
              || c as int == 8239 || c as int == 8287 || c as int == 12288
    ensures IsNamespaceChar(c) || IsSpace(c) ==> c != ':' && !(IsNamespaceChar(c) && IsSpace(c))
  {
  }

  /** The pattern, character by character: a letter or digit, then any of the alphabet. */
  lemma PatternExactly(s: string, c: char)
    ensures !MatchesPattern("")
    ensures MatchesPattern([c]) <==> IsAlphanumeric(c)
    ensures s != [] ==> (MatchesPattern(s + [c]) <==> MatchesPattern(s) && IsNamespaceChar(c))
  {
    if s != [] {
      assert (s + [c])[0] == s[0];
      assert forall i :: 0 <= i < |s| ==> (s + [c])[i] == s[i];
      assert (s + [c])[|s|] == c;
    }
  }

  lemma PatternIsTrimmed(s: string)
    requires MatchesPattern(s)
    ensures Trimmed(s)
  {
    assert IsNamespaceChar(s[0]) && IsNamespaceChar(s[|s| - 1]);
  }

  /** No namespace means none was given or it is blank; a namespace is accepted as `n` exactly when it is `n`
      padded with whitespace and `n` matches the pattern in at most 64 characters; what is left is refused,
      for its length first. */
  lemma ValidateNamespaceExactly(ns: Option<string>, n: string)
    ensures ValidateNamespace(ns) == Success(None) <==> ns.None? || AllSpace(ns.value)
    ensures ValidateNamespace(ns) == Success(Some(n)) <==>
              ns.Some? && Pads(ns.value, n) && MatchesPattern(n) && |n| <= 64
    ensures ns.Some? && Pads(ns.value, n) && Trimmed(n) && n != [] ==>
              && (ValidateNamespace(ns) == Failure(NamespaceTooLong) <==> |n| > 64)
              && (ValidateNamespace(ns) == Failure(NamespaceMalformed) <==> |n| <= 64 && !MatchesPattern(n))
  {
    if ns.Some? {
      BlankStripsToNothing(ns.value);
      StripExactly(ns.value, n);
      if MatchesPattern(n) {
        PatternIsTrimmed(n);
      }
      hide Strip, Pads, Trimmed, AllSpace, MatchesPattern;
    }
  }

  lemma BlankStripsToNothing(s: string)
    ensures Strip(s) == [] <==> AllSpace(s)
    ensures !MatchesPattern([])
  {
    StripExactly(s, []);
    PadsNothing(s);
  }

  lemma PadsNothing(s: string)
    ensures Pads(s, []) <==> AllSpace(s)
  {
    if AllSpace(s) {
      var nothing: string := [];
      assert s == s + [] + nothing && AllSpace(nothing);
    }
  }

  /** Normalising an accepted namespace again changes nothing. */
  lemma NormalisationIsIdempotent(ns: Option<string>)
    requires ValidateNamespace(ns).Success?
    ensures ValidateNamespace(ValidateNamespace(ns).value) == ValidateNamespace(ns)
    ensures ValidateNamespace(ns).value.Some? ==> MatchesPattern(ValidateNamespace(ns).value.value)
  {
    if ValidateNamespace(ns).value.Some? {
      hide MatchesPattern, IsSpace, StripLeft, StripRight;
      StripTwice(ns.value);
    }
  }

  lemma StripTwice(s: string)
    ensures Strip(Strip(s)) == Strip(s)
  {
    StripPads(s);
    assert Strip(s) == [] + Strip(s) + [];
    PaddingIsIgnored([], Strip(s), []);
  }
}
