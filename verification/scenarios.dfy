/** End-to-end behaviours of the type gate on complete doc comments, stated
    for every host that agrees with the stated class and alias facts. */
module Scenarios {
  import opened Wrappers
  import opened PhpValues
  import opened TypeStrings
  import opened TypeDefinition
  import opened TypeValidation

  /** `@var <name>` with a single name that has no `l` in it: one candidate,
      not nullable. */
  lemma ResolveSingleName(doc: string, pre: string, x: string, tail: string)
    requires doc == pre + VarTag + x + tail
    requires '@' !in pre
    requires |x| >= 1 && AllTypeChars(x) && Bar !in x && 'l' !in x
    requires tail == [] || !IsTypeChar(tail[0])
    ensures Resolve(Some(doc)) == Descriptor(true, [x], false)
  {
    ResolveTagged(doc, pre, x, tail);
    SplitPiece(x);
    OccursNeedsChar(x, NullWord, 'l');
  }

  lemma IntOrNullSplit(x: string)
    requires x == "int|null"
    ensures Split(x) == ["int", "null"]
  {
    assert x == "int" + [Bar] + "null";
    SplitAtBar("int", "null");
    SplitPiece("null");
  }

  /** Where the pieces of the comment `/** @var int|null */` lie. */
  lemma IntOrNullText(doc: string)
    requires doc == "/** @var int|null */"
    ensures doc == doc[..4] + VarTag + doc[9..17] + doc[17..]
    ensures '@' !in doc[..4]
    ensures doc[9..17] == "int|null"
    ensures doc[17] == ' '
  {
  }

  lemma IntOrNullParts(doc: string)
    requires doc == "/** @var int|null */"
    ensures Resolve(Some(doc)) == Descriptor(true, Split(doc[9..17]), Occurs(doc[9..17], NullWord))
  {
    IntOrNullText(doc);
    var pre, x, tail := doc[..4], doc[9..17], doc[17..];
    assert AllTypeChars(x);
    assert tail[0] == doc[17];
    ResolveTagged(doc, pre, x, tail);
  }

  lemma IntOrNullTypes(doc: string)
    requires doc == "/** @var int|null */"
    ensures Resolve(Some(doc)).types == ["int", "null"]
  {
    IntOrNullParts(doc);
    IntOrNullText(doc);
    IntOrNullSplit(doc[9..17]);
  }

  lemma IntOrNullHasNull(x: string)
    requires x == "int|null"
    ensures Occurs(x, NullWord)
  {
    assert OccursAt(x, NullWord, 4);
  }

  lemma IntOrNullNullable(doc: string)
    requires doc == "/** @var int|null */"
    ensures Resolve(Some(doc)).isNullable
  {
    IntOrNullParts(doc);
    IntOrNullText(doc);
    IntOrNullHasNull(doc[9..17]);
  }

  lemma IntOrNullValidity(d: Descriptor, host: Host, aliases: map<string, string>)
    requires d == Descriptor(true, ["int", "null"], true)
    requires !host.classExists("int") && "int" !in aliases
    ensures IsValidType(d, host, aliases, Integer(5))
    ensures IsValidType(d, host, aliases, Null)
    ensures !IsValidType(d, host, aliases, Str("5"))
  {
    assert AssertTypeEquals(host, aliases, d.types[0], Integer(5));
  }

  /** `/** @var int|null */`: two candidates, nullable; `5` and null pass,
      the string `"5"` does not (whatever the host says about classes). */
  lemma IntOrNull(doc: string, host: Host, aliases: map<string, string>)
    requires doc == "/** @var int|null */"
    requires !host.classExists("int") && "int" !in aliases
    ensures Resolve(Some(doc)).types == ["int", "null"]
    ensures Resolve(Some(doc)).isNullable
    ensures IsValidType(Resolve(Some(doc)), host, aliases, Integer(5))
    ensures IsValidType(Resolve(Some(doc)), host, aliases, Null)
    ensures !IsValidType(Resolve(Some(doc)), host, aliases, Str("5"))
  {
    IntOrNullTypes(doc);
    IntOrNullNullable(doc);
    IntOrNullValidity(Resolve(Some(doc)), host, aliases);
  }

  /** `/** @var mixed */`: every non-null value passes, null does not. */
  lemma MixedWithoutNull(doc: string, host: Host, aliases: map<string, string>, v: Value)
    requires doc == "/** @var mixed */"
    ensures Resolve(Some(doc)) == Descriptor(true, ["mixed"], false)
    ensures IsValidType(Resolve(Some(doc)), host, aliases, v) <==> !v.Null?
  {
    assert Resolve(Some(doc)) == Descriptor(true, ["mixed"], false) by {
      var pre, x, tail := doc[..4], doc[9..14], doc[14..];
      assert doc == pre + VarTag + x + tail;
      assert x == "mixed";
      ResolveSingleName(doc, pre, x, tail);
    }
    if v.Null? {
      NonNullableRejectsNull(Resolve(Some(doc)), host, aliases);
    }
  }

  /** `/** @var Currency */` where `Currency` is an alias and not a class:
      an instance of the aliased class passes, anything else does not. */
  lemma AliasedClass(doc: string, host: Host, aliases: map<string, string>, v: Value)
    requires doc == "/** @var Currency */"
    requires !host.classExists("Currency")
    requires "Currency" in aliases
    ensures Resolve(Some(doc)) == Descriptor(true, ["Currency"], false)
    ensures IsValidType(Resolve(Some(doc)), host, aliases, v) <==>
      InstanceOf(host, v, aliases["Currency"])
  {
    assert Resolve(Some(doc)) == Descriptor(true, ["Currency"], false) by {
      var pre, x, tail := doc[..4], doc[9..17], doc[17..];
      assert doc == pre + VarTag + x + tail;
      assert x == "Currency";
      ResolveSingleName(doc, pre, x, tail);
    }
  }

  /** `/** @var \App\Money */` naming an existing class: exactly its
      instances pass. */
  lemma ExistingClass(doc: string, host: Host, aliases: map<string, string>, v: Value)
    requires doc == "/** @var \\App\\Money */"
    requires host.classExists("\\App\\Money")
    ensures Resolve(Some(doc)) == Descriptor(true, ["\\App\\Money"], false)
    ensures IsValidType(Resolve(Some(doc)), host, aliases, v) <==>
      InstanceOf(host, v, "\\App\\Money")
  {
    assert Resolve(Some(doc)) == Descriptor(true, ["\\App\\Money"], false) by {
      var pre, x, tail := doc[..4], doc[9..19], doc[19..];
      assert doc == pre + VarTag + x + tail;
      assert x == "\\App\\Money";
      ResolveSingleName(doc, pre, x, tail);
    }
  }

  /** The tag must be followed directly by a type character:
      `/** @var  int */` (two spaces) declares nothing, so every value
      passes. */
  lemma SpaceAfterTagIsNoDeclaration(doc: string, host: Host, aliases: map<string, string>, v: Value)
    requires doc == "/** @var  int */"
    ensures Resolve(Some(doc)) == Undeclared
    ensures IsValidType(Resolve(Some(doc)), host, aliases, v)
  {
    forall i: nat
      ensures !TagAt(doc, i)
    {
      TagStartsWithAt(doc, i);
      if i == 4 {
        assert doc[4 + |VarTag|] == ' ';
      } else if i < |doc| {
        assert doc[i] != '@';
      }
    }
  }

  /** Only the leftmost usable tag counts: a later `@var` is ignored. */
  lemma FirstTagWins(doc: string)
    requires doc == "/** @var int @var string */"
    ensures Resolve(Some(doc)).types == ["int"]
  {
    var pre, x, tail := doc[..4], doc[9..12], doc[12..];
    assert doc == pre + VarTag + x + tail;
    assert x == "int";
    assert AllTypeChars(x);
    ResolveTagged(doc, pre, x, tail);
    SplitPiece(x);
  }
}
