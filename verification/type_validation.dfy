/** The type gate: whether a value is admissible for a resolved descriptor
    (`isValidType`), one candidate name at a time (`assertTypeEquals`). */
module TypeValidation {
  import opened Wrappers
  import opened PhpValues
  import opened TypeDefinition

  /** `$typeMapping`: the only short keywords renamed before the comparison
      with `gettype`. */
  const TypeMapping: map<string, string> := map["int" := "integer", "bool" := "boolean"]

  /** `self::$typeMapping[$type] ?? $type`: only the mapped keywords are
      renamed, and they are renamed to `gettype` names. */
  function Canonical(t: string): (name: string)
    ensures name != t <==> t in TypeMapping
    ensures name != t ==> name in GetTypeNames
  {
    if t in TypeMapping then TypeMapping[t] else t
  }

  /** `assertTypeEquals($type, $value)`: the four rules in their order of
      precedence. `aliases` is the value object's alias registry. */
  function AssertTypeEquals(host: Host, aliases: map<string, string>, t: string, v: Value): (r: bool)
    ensures r ==> (t == "mixed" && !v.Null?) || v.Object? || GetType(v) == Canonical(t)
  {
    if t == "mixed" && !v.Null? then true
    else if host.classExists(t) then InstanceOf(host, v, t)
    else if t in aliases then InstanceOf(host, v, aliases[t])
    else GetType(v) == Canonical(t)
  }

  /** The `foreach` of `isValidType`: true at the first candidate that
      matches, false once all are exhausted. */
  function AnyTypeMatches(host: Host, aliases: map<string, string>, types: seq<string>, v: Value): (r: bool)
    ensures r <==> exists k :: 0 <= k < |types| && AssertTypeEquals(host, aliases, types[k], v)
    decreases |types|
  {
    if |types| == 0 then false
    else if AssertTypeEquals(host, aliases, types[0], v) then true
    else AnyTypeMatches(host, aliases, types[1..], v)
  }

  /** `isValidType($value)`. */
  function IsValidType(d: Descriptor, host: Host, aliases: map<string, string>, v: Value): (r: bool)
    ensures r <==>
      || !d.hasTypeDeclaration
      || (d.isNullable && v.Null?)
      || exists t :: t in d.types && AssertTypeEquals(host, aliases, t, v)
  {
    if !d.hasTypeDeclaration then true
    else if d.isNullable && v.Null? then true
    else AnyTypeMatches(host, aliases, d.types, v)
  }

  /** A property without a usable `@var` tag accepts every value, null included. */
  lemma UndeclaredAcceptsEverything(doc: Option<string>, host: Host, aliases: map<string, string>, v: Value)
    requires doc.None? || forall i: nat :: !TagAt(doc.value, i)
    ensures Resolve(doc) == Undeclared
    ensures IsValidType(Resolve(doc), host, aliases, v)
  {
  }

  /** The order in which the candidates are scanned does not affect the
      verdict: any permutation of the declared names gives the same result. */
  lemma ScanOrderIrrelevant(d: Descriptor, types': seq<string>, host: Host, aliases: map<string, string>, v: Value)
    requires multiset(types') == multiset(d.types)
    ensures IsValidType(d.(types := types'), host, aliases, v) == IsValidType(d, host, aliases, v)
  {
    forall t
      ensures t in types' <==> t in d.types
    {
      assert t in types' <==> t in multiset(types');
      assert t in d.types <==> t in multiset(d.types);
    }
  }

  /** Union semantics: with two candidates the value is accepted iff it is a
      null under a nullable descriptor or matches one of the two. */
  lemma TwoCandidateUnion(d: Descriptor, host: Host, aliases: map<string, string>, v: Value)
    requires d.hasTypeDeclaration && |d.types| == 2
    ensures IsValidType(d, host, aliases, v) <==>
      (d.isNullable && v.Null?)
      || AssertTypeEquals(host, aliases, d.types[0], v)
      || AssertTypeEquals(host, aliases, d.types[1], v)
  {
  }

  /** `mixed` matches every non-null value, whatever the host and aliases say. */
  lemma MixedMatchesNonNull(host: Host, aliases: map<string, string>, v: Value)
    requires !v.Null?
    ensures AssertTypeEquals(host, aliases, "mixed", v)
  {
  }

  /** Null matches a candidate only through the `gettype` fallback, and only
      the literal name `NULL` is compared equal there: not `null`, not
      `mixed`, not a class and not an alias. */
  lemma NullMatchesOnlyLiteralNULL(host: Host, aliases: map<string, string>, t: string)
    ensures AssertTypeEquals(host, aliases, t, Null) <==>
      !host.classExists(t) && t !in aliases && t == "NULL"
  {
  }

  /** A declared, non-nullable descriptor that does not name `NULL` rejects
      null, even when it lists `mixed`. */
  lemma NonNullableRejectsNull(d: Descriptor, host: Host, aliases: map<string, string>)
    requires d.hasTypeDeclaration && !d.isNullable
    requires "NULL" !in d.types
    ensures !IsValidType(d, host, aliases, Null)
  {
    forall t | t in d.types
      ensures !AssertTypeEquals(host, aliases, t, Null)
    {
      NullMatchesOnlyLiteralNULL(host, aliases, t);
    }
  }

  /** A nullable descriptor accepts null whatever its candidates are. */
  lemma NullableAcceptsNull(d: Descriptor, host: Host, aliases: map<string, string>)
    requires d.hasTypeDeclaration && d.isNullable
    ensures IsValidType(d, host, aliases, Null)
  {
  }

  /** Class precedence: once the name is an existing class (and the `mixed`
      rule did not fire) the verdict is exactly `instanceof` against that
      class, and the alias registry is not consulted: any two registries give
      the same answer. */
  lemma ClassCheckPrecedesAliases(host: Host, aliases: map<string, string>, aliases': map<string, string>, t: string, v: Value)
    requires host.classExists(t)
    requires t != "mixed" || v.Null?
    ensures AssertTypeEquals(host, aliases, t, v) == InstanceOf(host, v, t)
    ensures AssertTypeEquals(host, aliases, t, v) == AssertTypeEquals(host, aliases', t, v)
  {
  }

  /** An alias that is not itself a class is resolved and used for an
      `instanceof` check only; the resolved name never reaches the `gettype`
      comparison, so an aliased name matches only objects. */
  lemma AliasOnlyChecksInstanceOf(host: Host, aliases: map<string, string>, t: string, v: Value)
    requires !host.classExists(t) && t in aliases
    requires t != "mixed" || v.Null?
    ensures AssertTypeEquals(host, aliases, t, v) == InstanceOf(host, v, aliases[t])
    ensures AssertTypeEquals(host, aliases, t, v) ==> v.Object?
  {
  }

  /** The fallback for a name that is neither `mixed`-matched, a class nor
      an alias: the renamed keyword compared literally with `gettype`. */
  lemma PrimitiveFallback(host: Host, aliases: map<string, string>, t: string, v: Value)
    requires !host.classExists(t) && t !in aliases
    requires t != "mixed" || v.Null?
    ensures AssertTypeEquals(host, aliases, t, v) <==> GetType(v) == Canonical(t)
    ensures t != "int" && t != "bool" ==> (AssertTypeEquals(host, aliases, t, v) <==> GetType(v) == t)
    ensures forall w :: SameKind(v, w) ==> AssertTypeEquals(host, aliases, t, w) == AssertTypeEquals(host, aliases, t, v)
  {
    forall w | SameKind(v, w)
      ensures AssertTypeEquals(host, aliases, t, w) == AssertTypeEquals(host, aliases, t, v)
    {
      GetTypeIdentifiesKind(v, w);
    }
  }

  /** Primitive keywords in the fallback: `int` matches exactly integers,
      `bool` exactly booleans, `string` exactly strings, `double` exactly
      floats, and `float` and `null` match nothing. */
  lemma PrimitiveKeywords(host: Host, aliases: map<string, string>, v: Value)
    requires forall t :: t in ["int", "bool", "string", "double", "float", "null"] ==>
      !host.classExists(t) && t !in aliases
    ensures AssertTypeEquals(host, aliases, "int", v) <==> v.Integer?
    ensures AssertTypeEquals(host, aliases, "bool", v) <==> v.Boolean?
    ensures AssertTypeEquals(host, aliases, "string", v) <==> v.Str?
    ensures AssertTypeEquals(host, aliases, "double", v) <==> v.Double?
    ensures !AssertTypeEquals(host, aliases, "float", v)
    ensures !AssertTypeEquals(host, aliases, "null", v)
  {
    assert "int" in ["int", "bool", "string", "double", "float", "null"];
    assert "bool" in ["int", "bool", "string", "double", "float", "null"];
    assert "string" in ["int", "bool", "string", "double", "float", "null"];
    assert "double" in ["int", "bool", "string", "double", "float", "null"];
    assert "float" in ["int", "bool", "string", "double", "float", "null"];
    assert "null" in ["int", "bool", "string", "double", "float", "null"];
  }
}
