/** The descriptor parser: how a property's doc comment becomes the list of
    declared type names and the nullable flag (`resolveTypeDefinition`). */
module TypeDefinition {
  import opened Wrappers
  import opened TypeStrings

  /** A character of the pattern's class `[\w|\\]`, with `\w` read as ASCII
      letters, digits and underscore. */
  predicate IsTypeChar(c: char) {
    || ('A' <= c <= 'Z')
    || ('a' <= c <= 'z')
    || ('0' <= c <= '9')
    || c == '_'
    || c == '|'
    || c == '\\'
  }

  predicate AllTypeChars(x: string) {
    forall k :: 0 <= k < |x| ==> IsTypeChar(x[k])
  }

  /** The literal tag that opens a type declaration. */
  const VarTag: string := "@var "

  /** The pattern can start matching at `i`: the tag is there and at least one
      type character follows it. */
  predicate TagAt(doc: string, i: nat) {
    && i + |VarTag| < |doc|
    && doc[i..i + |VarTag|] == VarTag
    && IsTypeChar(doc[i + |VarTag|])
  }

  /** `x` is the longest run of type characters starting at `start`. */
  predicate MaximalRunAt(doc: string, start: nat, x: string) {
    && start + |x| <= |doc|
    && doc[start..start + |x|] == x
    && AllTypeChars(x)
    && (start + |x| == |doc| || !IsTypeChar(doc[start + |x|]))
  }

  /** `x` is the capture group of the leftmost match of the pattern, and that
      match starts at `i`. */
  predicate MatchedAt(doc: string, i: nat, x: string) {
    && TagAt(doc, i)
    && (forall j: nat :: j < i ==> !TagAt(doc, j))
    && MaximalRunAt(doc, i + |VarTag|, x)
  }

  /** The leftmost position at or after `from` where the pattern can match. */
  function FindTag(doc: string, from: nat): (r: Option<nat>)
    requires from <= |doc|
    ensures r.Some? ==> from <= r.value && TagAt(doc, r.value)
    ensures r.Some? ==> forall j: nat :: from <= j < r.value ==> !TagAt(doc, j)
    ensures r.None? ==> forall j: nat :: from <= j ==> !TagAt(doc, j)
    decreases |doc| - from
  {
    if from == |doc| then None
    else if TagAt(doc, from) then Some(from)
    else FindTag(doc, from + 1)
  }

  /** The end of the run of type characters that starts at `k` (the greedy `+`). */
  function RunEnd(doc: string, k: nat): (e: nat)
    requires k <= |doc|
    ensures k <= e <= |doc|
    ensures forall j :: k <= j < e ==> IsTypeChar(doc[j])
    ensures e == |doc| || !IsTypeChar(doc[e])
    decreases |doc| - k
  {
    if k == |doc| || !IsTypeChar(doc[k]) then k
    else RunEnd(doc, k + 1)
  }

  /** `preg_match('/\@var ([\w|\\\\]+)/', doc)` followed by `end($matches)`:
      the captured type expression of the leftmost match, if any. */
  function MatchVar(doc: string): (r: Option<string>)
    ensures r.None? <==> forall i: nat :: !TagAt(doc, i)
    ensures r.Some? ==> exists i: nat :: MatchedAt(doc, i, r.value)
  {
    match FindTag(doc, 0)
    case None => None
    case Some(i) =>
      var start := i + |VarTag|;
      var x := doc[start..RunEnd(doc, start)];
      assert MatchedAt(doc, i, x);
      Some(x)
  }

  lemma RunChars(doc: string, start: nat, x: string)
    requires MaximalRunAt(doc, start, x)
    ensures forall j :: start <= j < start + |x| ==> IsTypeChar(doc[j])
  {
    forall j | start <= j < start + |x|
      ensures IsTypeChar(doc[j])
    {
      assert doc[j] == x[j - start];
    }
  }

  lemma MaximalRunUnique(doc: string, start: nat, x: string, y: string)
    requires MaximalRunAt(doc, start, x) && MaximalRunAt(doc, start, y)
    ensures x == y
  {
    RunChars(doc, start, x);
    RunChars(doc, start, y);
  }

  /** There is at most one leftmost match, so `MatchVar` is determined by its
      contract: it returns exactly the capture the regular expression makes. */
  lemma MatchUnique(doc: string, i: nat, x: string, i': nat, x': string)
    requires MatchedAt(doc, i, x) && MatchedAt(doc, i', x')
    ensures i == i' && x == x'
  {
    MaximalRunUnique(doc, i + |VarTag|, x, x');
  }

  /** The parsed type declaration of one property. */
  datatype Descriptor = Descriptor(hasTypeDeclaration: bool, types: seq<string>, isNullable: bool)

  /** The descriptor of a property without a usable `@var` tag. */
  const Undeclared: Descriptor := Descriptor(false, [], false)

  /** The text that `nullable` is looked for in the type expression. */
  const NullWord: string := "null"

  /** The invariant every resolved descriptor keeps: an undeclared property
      has no types and is not nullable; a declared one has at least one
      separator-free type name, and is nullable iff `null` occurs in the
      expression the names were split from. */
  predicate Consistent(d: Descriptor) {
    && (!d.hasTypeDeclaration ==> d.types == [] && !d.isNullable)
    && (d.hasTypeDeclaration ==>
          && |d.types| >= 1
          && (forall k :: 0 <= k < |d.types| ==> Bar !in d.types[k])
          && (d.isNullable <==> Occurs(Join(d.types), NullWord)))
  }

  /** PHP's `! $docComment`: `false` (no comment), `""` and `"0"`. */
  predicate Falsy(doc: Option<string>) {
    doc.None? || doc.value == "" || doc.value == "0"
  }

  /** `resolveTypeDefinition`: parse the doc comment once into a descriptor. */
  function Resolve(doc: Option<string>): (d: Descriptor)
    ensures Consistent(d)
    ensures d.hasTypeDeclaration <==> doc.Some? && exists i: nat :: TagAt(doc.value, i)
    ensures !d.hasTypeDeclaration ==> d == Undeclared
    ensures d.hasTypeDeclaration ==> exists i: nat :: MatchedAt(doc.value, i, Join(d.types))
    ensures d.isNullable <==> d.hasTypeDeclaration && Occurs(Join(d.types), NullWord)
  {
    if Falsy(doc) then Undeclared
    else
      match MatchVar(doc.value)
      case None => Undeclared
      case Some(x) =>
        JoinSplit(x);
        Descriptor(true, Split(x), Occurs(x, NullWord))
  }

  /** A doc comment whose first tag is followed by the expression `x`
      resolves to the pieces of `x` and is nullable iff `null` occurs in `x`. */
  lemma ResolveDeclared(doc: string, i: nat, x: string)
    requires MatchedAt(doc, i, x)
    ensures Resolve(Some(doc)) == Descriptor(true, Split(x), Occurs(x, NullWord))
  {
    var d := Resolve(Some(doc));
    assert d.hasTypeDeclaration;
    var i' :| MatchedAt(doc, i', Join(d.types));
    MatchUnique(doc, i, x, i', Join(d.types));
    SplitJoin(d.types);
  }

  /** A comment with no `@` before its first `@var ` tag, where the tag is
      followed by the type expression `x` and then by the end of the comment
      or a non-type character, declares the pieces of `x` and is nullable iff
      `null` occurs in `x`. */
  lemma ResolveTagged(doc: string, pre: string, x: string, tail: string)
    requires doc == pre + VarTag + x + tail
    requires '@' !in pre
    requires |x| >= 1 && AllTypeChars(x)
    requires tail == [] || !IsTypeChar(tail[0])
    ensures Resolve(Some(doc)) == Descriptor(true, Split(x), Occurs(x, NullWord))
  {
    MatchedAfterPrefix(doc, pre, x, tail);
    ResolveDeclared(doc, |pre|, x);
  }

  lemma MatchedAfterPrefix(doc: string, pre: string, x: string, tail: string)
    requires doc == pre + VarTag + x + tail
    requires '@' !in pre
    requires |x| >= 1 && AllTypeChars(x)
    requires tail == [] || !IsTypeChar(tail[0])
    ensures MatchedAt(doc, |pre|, x)
  {
    TagAfterPrefix(doc, pre, x + tail);
    NoTagInPrefix(doc, pre);
    RunBeforeTail(doc, pre + VarTag, x, tail);
  }

  lemma NoTagInPrefix(doc: string, pre: string)
    requires |pre| <= |doc| && doc[..|pre|] == pre
    requires '@' !in pre
    ensures forall j: nat :: j < |pre| ==> !TagAt(doc, j)
  {
    forall j: nat | j < |pre|
      ensures !TagAt(doc, j)
    {
      assert doc[j] == pre[j];
      TagStartsWithAt(doc, j);
    }
  }

  lemma TagStartsWithAt(doc: string, j: nat)
    ensures TagAt(doc, j) ==> doc[j] == '@'
  {
    if TagAt(doc, j) {
      assert doc[j..j + |VarTag|][0] == doc[j];
    }
  }

  lemma TagAfterPrefix(doc: string, pre: string, rest: string)
    requires doc == pre + VarTag + rest
    requires |rest| >= 1 && IsTypeChar(rest[0])
    ensures TagAt(doc, |pre|)
    ensures doc[..|pre|] == pre
  {
    assert doc[|pre|..|pre| + |VarTag|] == VarTag;
    assert doc[|pre| + |VarTag|] == rest[0];
  }

  lemma RunBeforeTail(doc: string, head: string, x: string, tail: string)
    requires doc == head + x + tail
    requires AllTypeChars(x)
    requires tail == [] || !IsTypeChar(tail[0])
    ensures MaximalRunAt(doc, |head|, x)
  {
    assert doc[|head|..|head| + |x|] == x;
    assert |head| + |x| < |doc| ==> doc[|head| + |x|] == tail[0];
  }

  /** The declaration `@var T1|…|Tn`, anywhere in a comment with no earlier
      `@`, yields exactly the candidates `[T1, …, Tn]`, in order and with
      duplicates kept, when the expression ends the comment or is followed by
      a non-type character. */
  lemma ResolveUnion(pre: string, types: seq<string>, tail: string)
    requires '@' !in pre
    requires |types| >= 1
    requires forall k :: 0 <= k < |types| ==> Bar !in types[k] && AllTypeChars(types[k])
    requires |types[0]| >= 1
    requires tail == [] || !IsTypeChar(tail[0])
    ensures Resolve(Some(pre + VarTag + Join(types) + tail)).types == types
    ensures Resolve(Some(pre + VarTag + Join(types) + tail)).isNullable <==> Occurs(Join(types), NullWord)
  {
    var x := Join(types);
    JoinAllTypeChars(types);
    JoinStartsWithFirst(types);
    ResolveTagged(pre + VarTag + x + tail, pre, x, tail);
    SplitJoin(types);
  }

  lemma {:induction false} JoinAllTypeChars(types: seq<string>)
    requires forall k :: 0 <= k < |types| ==> AllTypeChars(types[k])
    ensures AllTypeChars(Join(types))
    decreases |types|
  {
    if |types| > 1 {
      JoinAllTypeChars(types[1..]);
      var rest := Join(types[1..]);
      var s := types[0] + [Bar] + rest;
      forall k | 0 <= k < |s|
        ensures IsTypeChar(s[k])
      {
        if k < |types[0]| {
          assert s[k] == types[0][k];
        } else if k > |types[0]| {
          assert s[k] == rest[k - |types[0]| - 1];
        }
      }
    }
  }

  lemma JoinStartsWithFirst(types: seq<string>)
    requires |types| >= 1
    ensures |Join(types)| >= |types[0]|
    ensures Join(types)[..|types[0]|] == types[0]
  {
  }

  /** `isNullable` is a substring test on the expression, which is the same
      as asking whether some declared name CONTAINS `null`; every name that
      equals `null` therefore makes the property nullable. */
  lemma NullableIffSomeNameContainsNull(doc: Option<string>)
    ensures Resolve(doc).isNullable <==>
      Resolve(doc).hasTypeDeclaration &&
      exists k :: 0 <= k < |Resolve(doc).types| && Occurs(Resolve(doc).types[k], NullWord)
    ensures NullWord in Resolve(doc).types ==> Resolve(doc).isNullable
  {
    var d := Resolve(doc);
    if d.hasTypeDeclaration {
      OccursInJoin(d.types, NullWord);
      if NullWord in d.types {
        var k :| 0 <= k < |d.types| && d.types[k] == NullWord;
        assert OccursAt(d.types[k], NullWord, 0);
      }
    }
  }

  /** The nullable flag is not a token test: `/** @var nullable */`
      declares the single name `nullable`, which is not `null`, yet the
      property is nullable. */
  lemma NullableIsNotATokenTest(doc: string)
    requires doc == "/** @var nullable */"
    ensures Resolve(Some(doc)).types == ["nullable"]
    ensures Resolve(Some(doc)).isNullable
  {
    var pre, x, tail := doc[..4], doc[9..17], doc[17..];
    assert doc == pre + VarTag + x + tail;
    assert x == "nullable";
    assert AllTypeChars(x);
    ResolveTagged(doc, pre, x, tail);
    SplitPiece(x);
    assert OccursAt(x, NullWord, 0);
  }
}
