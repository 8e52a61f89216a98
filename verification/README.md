# Value-object property type gate

A Dafny model of `ValueObjectProperty`, the per-property type gate of a PHP
value-object library. Each property of a value object declares its type in a
doc comment (`/** @var int|null */`). When the property is created, that
comment is parsed once into a descriptor: the declared type names and a
nullable flag. Every later assignment goes through `set`. `set` accepts the
value only if the descriptor admits it, and then writes it into the value
object. Otherwise it throws `invalidType`.

Modules, one per concern of the source file:

- `Wrappers`: `Option` and `Result`.
- `PhpValues`: PHP values (`Value`), PHP's `gettype` (`GetType`), and the two host queries the gate needs. `class_exists` and `$v instanceof $c` are fields of a `Host` record. `instanceof` takes an object handle, so it is false for every non-object by construction.
- `TypeStrings`: `explode('|', …)` (`Split`), its inverse `implode` (`Join`), and the `strpos(…) !== false` substring test (`Occurs`).
- `TypeDefinition`: `resolveTypeDefinition` (`Resolve`).
  - The regular expression `/\@var ([\w|\\\\]+)/` is modelled as "leftmost position where `@var ` is followed by a type character, then the longest run of type characters" (`FindTag`, `RunEnd`, `MatchVar`).
  - `MatchedAt` and `MatchUnique` characterise that match completely.
- `TypeValidation`: `$typeMapping`, `assertTypeEquals` (`AssertTypeEquals`), and `isValidType` (`IsValidType`).
- `ValueObjectProperty`: the property binding.
  - `set` (`Set`) returns `Result<State, InvalidType>`. `After` gives the state the caller observes: unchanged when the error is thrown.
  - Also `getTypes` and `getFqn`.
- `Scenarios`: end-to-end cases on complete `/** … */` comments, stated for every host that agrees with the named class and alias facts.

Points where the code behaves differently from what its names suggest:

- `isNullable` is a case-sensitive substring test for `null` on the whole type expression (line 94), not a test for a `null` token. `@var nullable` is nullable (`NullableIsNotATokenTest`).
- The primitive fallback compares with `gettype` names. `gettype` reports floats as `double`, so a declared `float` never matches (`PrimitiveKeywords`). Only `int` and `bool` are renamed (lines 10-13).
- `mixed` with a null value does not return early. It falls through to the class, alias and `gettype` rules, and none of them can accept null (`NullMatchesOnlyLiteralNULL`).
- A doc comment counts as absent when it is `false`, `""` or `"0"` (PHP falsiness, line 80). Neither of the two strings can contain a tag, so this is observably the same as "no match".

## Model

| member | source | states |
|---|---|---|
| `PhpValues.GetType` | src/ValueObjectProperty.php:136 | `gettype` always yields one of PHP's kind names (`NULL`, `boolean`, `integer`, `double`, `string`, `array`, `object`, `resource`, `resource (closed)`) |
| `PhpValues.GetTypeIdentifiesKind` | src/ValueObjectProperty.php:136 | two values get the same `gettype` name iff they have the same runtime kind |
| `PhpValues.InstanceOf` | src/ValueObjectProperty.php:127 | `instanceof` holds only of objects, and for objects it is the host's answer |
| `TypeStrings.Split` | src/ValueObjectProperty.php:92 | `explode` gives at least one piece and no piece contains the separator |
| `TypeStrings.JoinSplit` | src/ValueObjectProperty.php:92 | joining the pieces with the separator gives back exactly the split text |
| `TypeStrings.SplitJoin` | src/ValueObjectProperty.php:92 | splitting a join of separator-free pieces gives back the same pieces in order, so the split is the unique such list |
| `TypeStrings.Occurs` | src/ValueObjectProperty.php:94 | the substring test is true iff the pattern occurs at some index |
| `TypeStrings.OccursInJoin` | src/ValueObjectProperty.php:92-94 | a separator-free pattern occurs in the joined expression iff it occurs inside one of the pieces |
| `TypeDefinition.FindTag` | src/ValueObjectProperty.php:84 | returns the leftmost position where `@var ` is followed by a type character, or none if no position qualifies |
| `TypeDefinition.RunEnd` | src/ValueObjectProperty.php:84 | the greedy `+`: every character up to the end is a type character and the next one is not |
| `TypeDefinition.MatchVar` | src/ValueObjectProperty.php:84-90 | no capture iff no position can match; otherwise the capture is the maximal run after the leftmost tag |
| `TypeDefinition.MatchUnique` | src/ValueObjectProperty.php:84 | at most one position and capture satisfy the leftmost-longest characterisation |
| `TypeDefinition.Resolve` | src/ValueObjectProperty.php:76-97 | declared iff the comment has a usable tag; undeclared means no types and not nullable; types join back to the leftmost capture; nullable iff `null` occurs in it |
| `TypeDefinition.ResolveDeclared` | src/ValueObjectProperty.php:84-96 | a comment whose leftmost capture is `x` resolves to the pieces of `x`, nullable iff `null` occurs in `x` |
| `TypeDefinition.ResolveTagged` | src/ValueObjectProperty.php:84-96 | in a comment with no `@` before its `@var ` tag, where the expression `x` after the tag ends the comment or is followed by a non-type character, the declaration is the pieces of `x`, nullable iff `x` contains `null` |
| `TypeDefinition.ResolveUnion` | src/ValueObjectProperty.php:84-92 | a comment with no `@` before its tag, where the tag is followed by the names T1 … Tn joined by bars, resolves to exactly `[T1,…,Tn]`, in order with duplicates kept |
| `TypeDefinition.NullableIffSomeNameContainsNull` | src/ValueObjectProperty.php:94 | nullable iff some declared name contains `null`; a name equal to `null` always makes the property nullable |
| `TypeDefinition.NullableIsNotATokenTest` | src/ValueObjectProperty.php:94 | `/** @var nullable */` declares the single name `nullable` yet is nullable |
| `TypeValidation.Canonical` | src/ValueObjectProperty.php:10-13 | a name is renamed iff it is one of the mapped keywords (`int`, `bool`), and then it is renamed to a `gettype` name |
| `TypeValidation.AssertTypeEquals` | src/ValueObjectProperty.php:120-137 | a candidate matches only as `mixed` with a non-null value, as an object (class or alias `instanceof`), or through `gettype`; the lemmas `MixedMatchesNonNull` to `PrimitiveKeywords` below give the exact verdict of each rule |
| `TypeValidation.AnyTypeMatches` | src/ValueObjectProperty.php:109-117 | the early-return loop is true iff some candidate matches |
| `TypeValidation.IsValidType` | src/ValueObjectProperty.php:99-118 | valid iff undeclared, or null under a nullable descriptor, or some candidate matches |
| `TypeValidation.UndeclaredAcceptsEverything` | src/ValueObjectProperty.php:80-103 | a missing comment or one without a usable tag gives the undeclared descriptor, which accepts every value, null included |
| `TypeValidation.ScanOrderIrrelevant` | src/ValueObjectProperty.php:109-117 | permuting the declared names never changes the verdict |
| `TypeValidation.TwoCandidateUnion` | src/ValueObjectProperty.php:105-117 | with two candidates a value is valid iff it is null under a nullable descriptor or matches one of them |
| `TypeValidation.MixedMatchesNonNull` | src/ValueObjectProperty.php:122-124 | `mixed` matches every non-null value for every host and registry |
| `TypeValidation.NullMatchesOnlyLiteralNULL` | src/ValueObjectProperty.php:120-137 | null matches a name iff the name is not a class, not an alias and is literally `NULL` |
| `TypeValidation.NonNullableRejectsNull` | src/ValueObjectProperty.php:105-117 | a declared non-nullable descriptor that does not name `NULL` rejects null, even with `mixed` |
| `TypeValidation.NullableAcceptsNull` | src/ValueObjectProperty.php:105-107 | a declared nullable descriptor accepts null whatever its candidates |
| `TypeValidation.ClassCheckPrecedesAliases` | src/ValueObjectProperty.php:126-128 | for an existing class, the verdict is `instanceof` that class and does not depend on the alias registry |
| `TypeValidation.AliasOnlyChecksInstanceOf` | src/ValueObjectProperty.php:130-134 | for a non-class alias, the verdict is `instanceof` the resolved name, so only objects can match |
| `TypeValidation.PrimitiveFallback` | src/ValueObjectProperty.php:136 | otherwise the verdict is the renamed keyword equal to `gettype`; names other than `int`/`bool` are compared literally; the verdict depends only on the value's runtime kind |
| `TypeValidation.PrimitiveKeywords` | src/ValueObjectProperty.php:10-13 | `int` matches exactly integers, `bool` booleans, `string` strings, `double` floats; `float` and `null` match nothing |
| `ValueObjectProperty.FromDocComment` | src/ValueObjectProperty.php:41-53 | a new binding keeps the given class, name and registry, holds the descriptor parsed from the comment (declared iff the comment has a usable tag), and is not initialised |
| `ValueObjectProperty.GetTypes` | src/ValueObjectProperty.php:66-69 | for a consistent descriptor, no names iff undeclared, and no name contains the separator |
| `ValueObjectProperty.GetFqn` | src/ValueObjectProperty.php:71-74 | the name is the declaring class, `::`, then the property name |
| `ValueObjectProperty.FqnIdentifiesProperty` | src/ValueObjectProperty.php:71-74 | for class names without `:`, equal qualified names mean the same class and property |
| `ValueObjectProperty.Set` | src/ValueObjectProperty.php:55-64 | succeeds iff the value is valid; the error carries name, types and value; success marks the binding initialised, writes the value under its name and keeps every other field |
| `ValueObjectProperty.RejectedSetChangesNothing` | src/ValueObjectProperty.php:57-59 | after a rejected value the state is exactly as before |
| `ValueObjectProperty.SetKeepsBinding` | src/ValueObjectProperty.php:55-64 | `set` never changes the identity, the registry or the descriptor, and never clears `isInitialised` |
| `ValueObjectProperty.ReassignmentAllowed` | src/ValueObjectProperty.php:55-64 | an initialised property accepts another valid value, which replaces the first |
| `ValueObjectProperty.SetIdempotent` | src/ValueObjectProperty.php:55-64 | setting a value twice leaves the same state as setting it once |
| `ValueObjectProperty.ErrorReportsDeclaration` | src/ValueObjectProperty.php:55-69 | a rejected `set` on a binding created from a comment reports `Class::property` and the value, and the comment has a tag whose captured expression the reported types join back to |
| `Scenarios.IntOrNull` | src/ValueObjectProperty.php:84-117 | the comment declaring `int` and `null` joined by a bar gives `[int, null]`, nullable; `5` and null pass; `"5"` fails |
| `Scenarios.MixedWithoutNull` | src/ValueObjectProperty.php:122-124 | `/** @var mixed */` accepts exactly the non-null values |
| `Scenarios.AliasedClass` | src/ValueObjectProperty.php:130-134 | `/** @var Currency */` with `Currency` an alias accepts exactly the instances of the aliased class |
| `Scenarios.ExistingClass` | src/ValueObjectProperty.php:126-128 | `/** @var \App\Money */` accepts exactly the instances of that class |
| `Scenarios.SpaceAfterTagIsNoDeclaration` | src/ValueObjectProperty.php:84-88 | `/** @var  int */` (two spaces) has no match, so it is undeclared and accepts everything |
| `Scenarios.FirstTagWins` | src/ValueObjectProperty.php:84-90 | in `/** @var int @var string */` only the leftmost usable tag is used |

## Left out

- The `ReflectionProperty` base class, `fromReflection` and the reflection part of the constructor (lines 7, 33-53). Creating a binding is modelled as "parse the doc comment once" (`FromDocComment`).
- `getDocComment` is not modelled. The doc comment is an `Option<string>` input.
- `class_exists` and `instanceof` (autoloading, interfaces, inheritance, leading backslashes) are not modelled. They are runtime host queries, so they are the uninterpreted functions of `Host`.
- `ValueObjectDefinition::hasAlias`/`resolveAlias` is an external registry. It is modelled as a `map<string, string>` held by the binding.
- `ValueObjectError::invalidType` message rendering is not part of this model. The error is a record of the qualified name, the declared types and the value.
- PCRE locale and Unicode behaviour of `\w` is not modelled. `\w` is fixed to ASCII letters, digits and underscore.
- The dynamic property write `$this->valueObject->{name}` is modelled as an update of a `map<string, Value>`. Magic `__set` handlers of the value object are not modelled.
- PHP integers are unbounded `int`s and floats are opaque bit patterns. The gate only looks at a value's runtime kind, never at its magnitude.
- `gettype`'s `"unknown type"` result is not modelled, because no value in this model produces it.
