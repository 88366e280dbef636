/**
 Key handling shared by every configuration model. Each field is also known
 under an external key, its alias, obtained by turning every `_` of the field
 name into `-`. An input key is accepted when it is a field's name or its
 alias; any other key is rejected.
 */
module ConfigModel {
  import opened Wrappers

  /** The alias generator: `name` with every `_` replaced by `-`. */
  function Alias(name: string): (r: string)
    ensures |r| == |name|
    ensures forall i :: 0 <= i < |name| ==> r[i] == (if name[i] == '_' then '-' else name[i])
    ensures '_' !in r
  {
    if |name| == 0 then ""
    else (if name[0] == '_' then "-" else [name[0]]) + Alias(name[1..])
  }

  /**
   Field names are identifiers, which never contain `-`; that is the only
   property of identifiers the aliasing relies on.
   */
  predicate IsFieldName(name: string) {
    '-' !in name
  }

  /** True when every one of `fields` is a field name. */
  predicate AreFieldNames(fields: seq<string>) {
    forall i :: 0 <= i < |fields| ==> IsFieldName(fields[i])
  }

  /** A name is its own alias exactly when it contains no `_`. */
  lemma AliasFixedPoints(name: string)
    ensures Alias(name) == name <==> '_' !in name
  {
  }

  /** Aliasing is idempotent. */
  lemma AliasIdempotent(name: string)
    ensures Alias(Alias(name)) == Alias(name)
  {
  }

  /** The reverse mapping from an external key to a field name: `-` back to `_`. */
  function Unalias(key: string): (r: string)
    ensures |r| == |key|
    ensures forall i :: 0 <= i < |key| ==> r[i] == (if key[i] == '-' then '_' else key[i])
  {
    if |key| == 0 then ""
    else (if key[0] == '-' then "_" else [key[0]]) + Unalias(key[1..])
  }

  /** Every field name is recovered from its alias. */
  lemma UnaliasAlias(name: string)
    requires IsFieldName(name)
    ensures Unalias(Alias(name)) == name
  {
  }

  /** Distinct field names never share an alias. */
  lemma AliasInjective(a: string, b: string)
    requires IsFieldName(a) && IsFieldName(b)
    requires Alias(a) == Alias(b)
    ensures a == b
  {
  }

  /** Without the identifier restriction aliasing is not injective. */
  lemma AliasCollidesOnNonIdentifiers()
    ensures "a_b" != "a-b" && Alias("a_b") == Alias("a-b")
  {
  }

  /** `key` names `field`, either directly or through its alias. */
  predicate Matches(field: string, key: string) {
    key == field || key == Alias(field)
  }

  /** No key names two different fields. */
  lemma MatchesUnique(f: string, g: string, key: string)
    requires IsFieldName(f) && IsFieldName(g)
    requires Matches(f, key) && Matches(g, key)
    ensures f == g
  {
  }

  /** True when some field of `fields` is named by `key`. */
  predicate Accepted(fields: seq<string>, key: string) {
    exists i :: 0 <= i < |fields| && Matches(fields[i], key)
  }

  /**
   The field an input key populates: the first of `fields` whose name or
   alias equals `key`, or nothing when the key is unknown.
   */
  function ResolveKey(fields: seq<string>, key: string): (r: Option<string>)
    ensures r.Some? <==> Accepted(fields, key)
    ensures r.Some? ==> r.value in fields && Matches(r.value, key)
  {
    if |fields| == 0 then None
    else if Matches(fields[0], key) then Some(fields[0])
    else
      var r := ResolveKey(fields[1..], key);
      assert Accepted(fields, key) ==> Accepted(fields[1..], key) by {
        if Accepted(fields, key) {
          var i :| 0 <= i < |fields| && Matches(fields[i], key);
          assert i != 0;
          assert Matches(fields[1..][i - 1], key);
        }
      }
      r
  }

  /**
   Over field names the resolution is unambiguous: a key that names a field
   resolves to exactly that field.
   */
  lemma ResolveKeyUnique(fields: seq<string>, key: string, field: string)
    requires AreFieldNames(fields)
    requires field in fields && Matches(field, key)
    ensures ResolveKey(fields, key) == Some(field)
  {
    var r := ResolveKey(fields, key);
    var i :| 0 <= i < |fields| && fields[i] == field;
    var j :| 0 <= j < |fields| && fields[j] == r.value;
    MatchesUnique(field, r.value, key);
  }

  /**
   True when validating an input with keys `keys` takes a field's value from
   `key`. Each field reads its alias when the input holds it and its name
   otherwise; the key it reads is used up.
   */
  predicate Consumed(fields: seq<string>, keys: seq<string>, key: string) {
    exists i :: 0 <= i < |fields| &&
      (key == Alias(fields[i]) || (key == fields[i] && Alias(fields[i]) !in keys))
  }

  /** `key` is a field's name, and that field's different alias is also among `keys`. */
  predicate Shadowed(fields: seq<string>, keys: seq<string>, key: string) {
    exists i :: 0 <= i < |fields| &&
      key == fields[i] && Alias(fields[i]) != key && Alias(fields[i]) in keys
  }

  /**
   Over field names a key is used up exactly when it names a field and is not
   a name whose alias the input also supplies.
   */
  lemma ConsumedIffAcceptedNotShadowed(fields: seq<string>, keys: seq<string>, key: string)
    requires AreFieldNames(fields)
    ensures Consumed(fields, keys, key) <==> Accepted(fields, key) && !Shadowed(fields, keys, key)
  {
  }

  /** Supplying both a field's name and its alias leaves the name unused. */
  lemma NameAndAliasTogether()
    ensures ExtraKeys(["foo_bar"], ["foo_bar", "foo-bar"]) == ["foo_bar"]
  {
    var fields, keys := ["foo_bar"], ["foo_bar", "foo-bar"];
    assert Alias(fields[0]) == "foo-bar" == keys[1];
    assert Consumed(fields, keys, keys[1]);
    assert !Consumed(fields, keys, keys[0]);
    assert keys[1..][1..] == [];
    assert ExtraAmong(fields, keys, keys[1..][1..]) == [];
    assert ExtraAmong(fields, keys, keys[1..]) == [];
    assert ExtraAmong(fields, keys, keys) == [keys[0]];
  }

  /** The keys among `candidates` that validating `keys` does not use up, in order. */
  function ExtraAmong(fields: seq<string>, keys: seq<string>, candidates: seq<string>): (r: seq<string>)
    ensures forall k :: k in r <==> k in candidates && !Consumed(fields, keys, k)
    ensures forall k :: multiset(r)[k] == if Consumed(fields, keys, k) then 0 else multiset(candidates)[k]
  {
    if |candidates| == 0 then []
    else
      var rest := ExtraAmong(fields, keys, candidates[1..]);
      assert candidates == [candidates[0]] + candidates[1..];
      assert forall k :: k in candidates <==> k == candidates[0] || k in candidates[1..];
      if Consumed(fields, keys, candidates[0]) then rest else [candidates[0]] + rest
  }

  /**
   The keys of an input that no field uses, which forbidding extra keys
   rejects: each unused key, as often as the input holds it.
   */
  function ExtraKeys(fields: seq<string>, keys: seq<string>): (r: seq<string>)
    ensures forall k :: k in r <==> k in keys && !Consumed(fields, keys, k)
    ensures forall k :: multiset(r)[k] == if Consumed(fields, keys, k) then 0 else multiset(keys)[k]
  {
    ExtraAmong(fields, keys, keys)
  }

  /**
   Validates the keys of a configuration input: when every key is used up,
   the field each one populates; otherwise every extra key is reported.
   */
  method ResolveKeys(fields: seq<string>, keys: seq<string>) returns (r: Result<seq<string>, seq<string>>)
    ensures r.Success? <==> forall i :: 0 <= i < |keys| ==> Consumed(fields, keys, keys[i])
    ensures r.Success? ==> |r.value| == |keys|
    ensures r.Success? ==> forall i :: 0 <= i < |keys| ==> ResolveKey(fields, keys[i]) == Some(r.value[i])
    ensures r.Failure? ==> |r.error| > 0 && r.error == ExtraKeys(fields, keys)
  {
    var extra := ExtraKeys(fields, keys);
    if |extra| > 0 {
      assert extra[0] in extra;
      return Failure(extra);
    }
    var resolved: seq<string> := [];
    var n := 0;
    while n < |keys|
      invariant 0 <= n <= |keys|
      invariant |resolved| == n
      invariant forall i :: 0 <= i < n ==> ResolveKey(fields, keys[i]) == Some(resolved[i])
    {
      assert keys[n] in keys;
      assert Accepted(fields, keys[n]);
      var field := ResolveKey(fields, keys[n]);
      resolved := resolved + [field.value];
      n := n + 1;
    }
    r := Success(resolved);
  }
}
