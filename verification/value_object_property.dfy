/** One typed property of a value object: its identity, its descriptor
    (resolved once, when the property is created) and the guarded write
    `set`. The value object itself is a map from property name to value. */
module ValueObjectProperty {
  import opened Wrappers
  import opened PhpValues
  import opened TypeStrings
  import opened TypeDefinition
  import opened TypeValidation

  /** A property binding. `aliases` is the alias registry of the value
      object's definition. */
  datatype Property = Property(
    declaringClass: string,
    name: string,
    aliases: map<string, string>,
    descriptor: Descriptor,
    isInitialised: bool)

  /** The fields of the owning value object, by name. */
  type Fields = map<string, Value>

  /** The owning value object together with the binding that guards one of
      its properties. */
  datatype State = State(property: Property, fields: Fields)

  /** The `invalidType` error: which property, what it declares, what it got. */
  datatype InvalidType = InvalidType(fqn: string, types: seq<string>, value: Value)

  /** Creating a binding: the doc comment is parsed exactly once. */
  function FromDocComment(declaringClass: string, name: string, aliases: map<string, string>, doc: Option<string>): (p: Property)
    ensures p.declaringClass == declaringClass && p.name == name && p.aliases == aliases
    ensures p.descriptor == Resolve(doc)
    ensures p.descriptor.hasTypeDeclaration <==> doc.Some? && exists i: nat :: TagAt(doc.value, i)
    ensures Consistent(p.descriptor)
    ensures !p.isInitialised
  {
    Property(declaringClass, name, aliases, Resolve(doc), false)
  }

  /** `getTypes()`: the declared names; none for an undeclared property,
      and never a name containing the separator. */
  function GetTypes(p: Property): (types: seq<string>)
    ensures Consistent(p.descriptor) ==> (|types| == 0 <==> !p.descriptor.hasTypeDeclaration)
    ensures Consistent(p.descriptor) ==> forall k :: 0 <= k < |types| ==> Bar !in types[k]
  {
    p.descriptor.types
  }

  const Separator: string := "::"

  /** `getFqn()`: `<declaring class>::<property name>`. */
  function GetFqn(p: Property): (fqn: string)
    ensures |fqn| == |p.declaringClass| + |Separator| + |p.name|
    ensures fqn[..|p.declaringClass|] == p.declaringClass
    ensures fqn[|p.declaringClass|..|p.declaringClass| + |Separator|] == Separator
    ensures fqn[|p.declaringClass| + |Separator|..] == p.name
  {
    p.declaringClass + Separator + p.name
  }

  /** `set($value)`: reject an inadmissible value with `InvalidType`;
      otherwise mark the property initialised and write the value under the
      property's name, leaving every other field as it was. */
  function Set(host: Host, s: State, v: Value): (r: Result<State, InvalidType>)
    ensures r.Success? <==> IsValidType(s.property.descriptor, host, s.property.aliases, v)
    ensures r.Failure? ==> r.error == InvalidType(GetFqn(s.property), GetTypes(s.property), v)
    ensures r.Success? ==> r.value.property == s.property.(isInitialised := true)
    ensures r.Success? ==> r.value.fields.Keys == s.fields.Keys + {s.property.name}
    ensures r.Success? ==> r.value.fields[s.property.name] == v
    ensures r.Success? ==> forall f :: f in s.fields && f != s.property.name ==> r.value.fields[f] == s.fields[f]
  {
    var p := s.property;
    if !IsValidType(p.descriptor, host, p.aliases, v) then
      Failure(InvalidType(GetFqn(p), GetTypes(p), v))
    else
      Success(State(p.(isInitialised := true), s.fields[p.name := v]))
  }

  /** The state the caller observes after `set`: the thrown error leaves the
      object as it was. */
  function After(s: State, r: Result<State, InvalidType>): State {
    if r.Success? then r.value else s
  }

  /** A rejected value changes nothing: neither `isInitialised` nor any field. */
  lemma RejectedSetChangesNothing(host: Host, s: State, v: Value)
    requires !IsValidType(s.property.descriptor, host, s.property.aliases, v)
    ensures After(s, Set(host, s, v)) == s
  {
  }

  /** Across any outcome of `set`, the binding's identity and descriptor never
      change and `isInitialised` never goes back from true to false. */
  lemma SetKeepsBinding(host: Host, s: State, v: Value)
    ensures var s' := After(s, Set(host, s, v));
      && s'.property.declaringClass == s.property.declaringClass
      && s'.property.name == s.property.name
      && s'.property.aliases == s.property.aliases
      && s'.property.descriptor == s.property.descriptor
      && (s.property.isInitialised ==> s'.property.isInitialised)
  {
  }

  /** `isInitialised` is bookkeeping, not a write-once lock: an initialised
      property accepts another admissible value, which replaces the old one. */
  lemma ReassignmentAllowed(host: Host, s: State, v: Value, w: Value)
    requires IsValidType(s.property.descriptor, host, s.property.aliases, v)
    requires IsValidType(s.property.descriptor, host, s.property.aliases, w)
    ensures Set(host, Set(host, s, v).value, w).Success?
    ensures Set(host, Set(host, s, v).value, w).value == Set(host, s, w).value
  {
    var s1 := Set(host, s, v).value;
    assert s1.fields[s.property.name := w] == s.fields[s.property.name := w];
  }

  /** Setting the same value twice leaves the object as setting it once. */
  lemma SetIdempotent(host: Host, s: State, v: Value)
    ensures After(After(s, Set(host, s, v)), Set(host, After(s, Set(host, s, v)), v)) == After(s, Set(host, s, v))
  {
    var r := Set(host, s, v);
    if r.Success? {
      assert r.value.fields[s.property.name := v] == r.value.fields;
    }
  }

  /** Class and property names never contain `:`, so the fully qualified
      name identifies the property: distinct properties never share one. */
  lemma FqnIdentifiesProperty(p: Property, q: Property)
    requires ':' !in p.declaringClass && ':' !in q.declaringClass
    requires GetFqn(p) == GetFqn(q)
    ensures p.declaringClass == q.declaringClass && p.name == q.name
  {
    FqnLayout(p);
    FqnLayout(q);
  }

  lemma FqnLayout(p: Property)
    ensures GetFqn(p)[|p.declaringClass|] == ':'
    ensures forall j :: 0 <= j < |p.declaringClass| ==> GetFqn(p)[j] == p.declaringClass[j]
  {
  }

  /** The error of a rejected `set` on a binding created from a doc comment
      names the property and reproduces its declaration: the comment has a
      usable tag, and joining the reported types gives back the expression
      that tag captured. */
  lemma ErrorReportsDeclaration(
    host: Host, declaringClass: string, name: string, aliases: map<string, string>,
    doc: Option<string>, fields: Fields, v: Value)
    requires Set(host, State(FromDocComment(declaringClass, name, aliases, doc), fields), v).Failure?
    ensures var e := Set(host, State(FromDocComment(declaringClass, name, aliases, doc), fields), v).error;
      && e.fqn == declaringClass + Separator + name
      && e.value == v
      && doc.Some?
      && exists i: nat :: MatchedAt(doc.value, i, Join(e.types))
  {
  }
}
