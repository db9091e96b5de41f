/** The storage key of a namespaced request, `len:namespace:key`, and its inverse (service.py). */
module Namespace {
  import opened Types
  import opened Validation

  function Digit(d: nat): char
    requires d < 10
  {
    ('0' as int + d) as char
  }

  function Decimal(n: nat): string {
    if n < 10 then [Digit(n)] else Decimal(n / 10) + [Digit(n % 10)]
  }

  predicate IsDigit(c: char) {
    '0' <= c <= '9'
  }

  function ParseDecimal(s: string): nat
    requires forall i :: 0 <= i < |s| ==> IsDigit(s[i])
  {
    if s == [] then 0
    else
      assert IsDigit(s[|s| - 1]);
      ParseDecimal(s[..|s| - 1]) * 10 + (s[|s| - 1] as int - '0' as int)
  }

  lemma {:induction false} DecimalRoundTrip(n: nat)
    ensures Decimal(n) != []
    ensures forall i :: 0 <= i < |Decimal(n)| ==> IsDigit(Decimal(n)[i])
    ensures ParseDecimal(Decimal(n)) == n
  {
    if n >= 10 {
      DecimalRoundTrip(n / 10);
      assert Decimal(n)[..|Decimal(n)| - 1] == Decimal(n / 10);
    }
  }

  function Encode(ns: string, key: string): string {
    Decimal(|ns|) + ":" + ns + ":" + key
  }

  /** How many leading characters are digits. */
  function DigitCount(s: string): (n: nat)
    ensures n <= |s|
    ensures forall i :: 0 <= i < n ==> IsDigit(s[i])
    ensures n < |s| ==> !IsDigit(s[n])
  {
    if s == [] || !IsDigit(s[0]) then 0 else 1 + DigitCount(s[1..])
  }

  /** Reads the length, then that many characters, then the rest. */
  function Decode(s: string): Option<(string, string)> {
    var d := DigitCount(s);
    if d == 0 || d == |s| || s[d] != ':' then None
    else
      var len := ParseDecimal(s[..d]);
      var start := d + 1;
      if start + len >= |s| || s[start + len] != ':' then None
      else Some((s[start..start + len], s[start + len + 1..]))
  }

  lemma DigitsStop(digits: string, rest: string)
    requires forall i :: 0 <= i < |digits| ==> IsDigit(digits[i])
    requires rest != [] && !IsDigit(rest[0])
    ensures DigitCount(digits + rest) == |digits|
  {
    var s := digits + rest;
    assert forall i :: 0 <= i < |digits| ==> s[i] == digits[i];
    assert s[|digits|] == rest[0];
  }

  lemma EncodedParts(digits: string, ns: string, key: string)
    ensures var s, start := digits + ":" + ns + ":" + key, |digits| + 1;
            && s == digits + (":" + ns + ":" + key) && s[..|digits|] == digits && s[|digits|] == ':'
            && start + |ns| < |s| && s[start + |ns|] == ':'
            && s[start..start + |ns|] == ns && s[start + |ns| + 1..] == key
  {
  }

  /** The encoding can be read back, whatever the namespace and the key contain. */
  lemma DecodeEncode(ns: string, key: string)
    ensures Decode(Encode(ns, key)) == Some((ns, key))
  {
    var digits := Decimal(|ns|);
    var s := Encode(ns, key);
    DecimalRoundTrip(|ns|);
    EncodedParts(digits, ns, key);
    DigitsStop(digits, ":" + ns + ":" + key);
    hide Encode, Decimal, ParseDecimal, DigitCount;
  }

  datatype ServiceError = BadKey | BadNamespace(error: NamespaceError) | StorageKeyTooLong

  /** `CacheApplicationService._storage_key`. */
  function StorageKey(key: string, ns: Option<string>): Result<Key, ServiceError> {
    if !ValidKey(key) then Failure(BadKey)
    else
      match ValidateNamespace(ns)
      case Failure(e) => Failure(BadNamespace(e))
      case Success(None) => Success(key)
      case Success(Some(n)) =>
        if |Encode(n, key)| > MAX_KEY_LENGTH then Failure(StorageKeyTooLong) else Success(Encode(n, key))
  }

  /** The exact outcome: the key is checked first, then the namespace; without one the key is used as it is,
      with one the storage key is its length in decimal, the namespace and the key, if that is at most 256
      characters long. */
  lemma StorageKeyExactly(key: string, ns: Option<string>)
    ensures StorageKey(key, ns) == Failure(BadKey) <==> key == "" || |key| > 256
    ensures 0 < |key| <= 256 ==>
              match ValidateNamespace(ns)
              case Failure(e) => StorageKey(key, ns) == Failure(BadNamespace(e))
              case Success(None) => StorageKey(key, ns) == Success(key)
              case Success(Some(n)) =>
                if |Length(|n|)| + 1 + |n| + 1 + |key| > 256 then StorageKey(key, ns) == Failure(StorageKeyTooLong)
                else StorageKey(key, ns) == Success(Length(|n|) + ":" + n + ":" + key)
  {
    var v := ValidateNamespace(ns);
    if v.Success? && v.value.Some? {
      var n := v.value.value;
      ValidateNamespaceExactly(ns, n);
      assert Decimal(|n|) == Length(|n|);
    }
    hide ValidateNamespace, Decimal, Length;
  }

  /** A number below 100, in decimal. */
  function Length(n: nat): (s: string)
    requires n < 100
    ensures |s| == if n < 10 then 1 else 2
    ensures forall i :: 0 <= i < |s| ==> 48 <= s[i] as int <= 57
    ensures n == if |s| == 1 then s[0] as int - 48 else (s[0] as int - 48) * 10 + s[1] as int - 48
  {
    if n < 10 then [Digit(n)] else [Digit(n / 10), Digit(n % 10)]
  }

  /** What a request addresses: its normalised namespace, if any, and its key. */
  type Identity = (Option<string>, string)

  function IdentityOf(key: string, ns: Option<string>): Identity
    requires StorageKey(key, ns).Success?
  {
    (ValidateNamespace(ns).value, key)
  }

  function Address(id: Identity): Key {
    if id.0.None? then id.1 else Encode(id.0.value, id.1)
  }

  lemma StorageKeyIsAddress(key: string, ns: Option<string>)
    requires StorageKey(key, ns).Success?
    ensures StorageKey(key, ns).value == Address(IdentityOf(key, ns))
  {
  }

  /** Every storage key the service produces passes the store's own key check. */
  lemma StorageKeysAreValid(key: string, ns: Option<string>)
    requires StorageKey(key, ns).Success?
    ensures ValidKey(StorageKey(key, ns).value)
  {
  }

  /** `a` has no namespace and its key is literally the encoding of `b`. */
  predicate Spells(a: Identity, b: Identity) {
    a.0.None? && b.0.Some? && a.1 == Encode(b.0.value, b.1)
  }

  /** Two accepted requests share a storage key exactly when they address the same namespace and key, or
      one has no namespace and its key is literally the other's encoding. */
  lemma StorageKeysCollideExactly(key: string, ns: Option<string>, key': string, ns': Option<string>)
    requires StorageKey(key, ns).Success? && StorageKey(key', ns').Success?
    ensures var a, b := IdentityOf(key, ns), IdentityOf(key', ns');
            StorageKey(key, ns).value == StorageKey(key', ns').value <==> a == b || Spells(a, b) || Spells(b, a)
  {
    AddressesMeetExactly(IdentityOf(key, ns), IdentityOf(key', ns'));
  }

  lemma AddressesMeetExactly(a: Identity, b: Identity)
    ensures Address(a) == Address(b) <==> a == b || Spells(a, b) || Spells(b, a)
  {
    if a.0.Some? && b.0.Some? {
      DecodeEncode(a.0.value, a.1);
      DecodeEncode(b.0.value, b.1);
    }
  }

  /** The shared keyspace is not isolated from namespaces: an ordinary key can spell an encoding. */
  lemma PlainKeyCanSpellAnEncoding()
    ensures StorageKey("1:a:x", None) == StorageKey("x", Some("a")) == Success("1:a:x")
    ensures IdentityOf("1:a:x", None) != IdentityOf("x", Some("a"))
  {
    assert Strip("a") == "a" by {
      assert !IsSpace('a');
    }
    assert MatchesPattern("a");
    assert Encode("a", "x") == "1:a:x";
  }
}
