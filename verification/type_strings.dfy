/** The string operations the descriptor parser uses: PHP's `explode('|', …)`
    (and its inverse `implode('|', …)`) and PHP's `strpos(…) !== false`
    substring test. */
module TypeStrings {

  /** The union separator of a type expression. */
  const Bar: char := '|'

  /** PHP's `explode('|', s)`: the pieces between separators, in order, with
      empty pieces and duplicates kept. */
  function Split(s: string): (parts: seq<string>)
    ensures |parts| >= 1
    ensures forall k :: 0 <= k < |parts| ==> Bar !in parts[k]
    decreases |s|
  {
    if |s| == 0 then [""]
    else
      var rest := Split(s[1..]);
      if s[0] == Bar then [""] + rest
      else [[s[0]] + rest[0]] + rest[1..]
  }

  /** PHP's `implode('|', parts)`. */
  function Join(parts: seq<string>): string
  {
    if |parts| == 0 then ""
    else if |parts| == 1 then parts[0]
    else parts[0] + [Bar] + Join(parts[1..])
  }

  lemma JoinCons(p: string, rest: seq<string>)
    requires |rest| >= 1
    ensures Join([p] + rest) == p + [Bar] + Join(rest)
  {
    assert ([p] + rest)[1..] == rest;
  }

  /** Joining the pieces of a split gives back the original text. */
  lemma {:induction false} JoinSplit(s: string)
    ensures Join(Split(s)) == s
    decreases |s|
  {
    if |s| > 0 {
      var rest := Split(s[1..]);
      JoinSplit(s[1..]);
      assert s == [s[0]] + s[1..];
      if s[0] == Bar {
        JoinCons("", rest);
      } else if |rest| > 1 {
        assert rest == [rest[0]] + rest[1..];
        JoinCons(rest[0], rest[1..]);
        JoinCons([s[0]] + rest[0], rest[1..]);
      }
    }
  }

  /** A piece without separators splits into itself. */
  lemma {:induction false} SplitPiece(p: string)
    requires Bar !in p
    ensures Split(p) == [p]
    decreases |p|
  {
    if |p| > 0 {
      SplitPiece(p[1..]);
      assert p == [p[0]] + p[1..];
    }
  }

  /** Splitting stops at the first separator. */
  lemma {:induction false} SplitAtBar(p: string, t: string)
    requires Bar !in p
    ensures Split(p + [Bar] + t) == [p] + Split(t)
    decreases |p|
  {
    var s := p + [Bar] + t;
    if |p| == 0 {
      assert s[1..] == t;
    } else {
      assert s[1..] == p[1..] + [Bar] + t;
      SplitAtBar(p[1..], t);
      assert p == [p[0]] + p[1..];
    }
  }

  /** Splitting a join gives back the pieces, provided none contains the
      separator: together with `JoinSplit`, `Split(s)` is the one list of
      separator-free pieces whose join is `s`. */
  lemma {:induction false} SplitJoin(parts: seq<string>)
    requires |parts| >= 1
    requires forall k :: 0 <= k < |parts| ==> Bar !in parts[k]
    ensures Split(Join(parts)) == parts
    decreases |parts|
  {
    if |parts| == 1 {
      SplitPiece(parts[0]);
    } else {
      SplitJoin(parts[1..]);
      SplitAtBar(parts[0], Join(parts[1..]));
      assert parts == [parts[0]] + parts[1..];
    }
  }

  /** `pat` occurs in `s` starting at index `k`. */
  predicate OccursAt(s: string, pat: string, k: nat) {
    k + |pat| <= |s| && s[k..k + |pat|] == pat
  }

  /** PHP's `strpos(s, pat) !== false`, scanning from `from`. */
  function OccursFrom(s: string, pat: string, from: nat): (r: bool)
    ensures r <==> exists k: nat :: from <= k && OccursAt(s, pat, k)
    decreases |s| + 1 - from
  {
    if from + |pat| > |s| then false
    else OccursAt(s, pat, from) || OccursFrom(s, pat, from + 1)
  }

  /** PHP's `strpos(s, pat) !== false`: a case-sensitive substring test. */
  function Occurs(s: string, pat: string): (r: bool)
    ensures r <==> exists k: nat :: OccursAt(s, pat, k)
  {
    OccursFrom(s, pat, 0)
  }

  lemma CharsOfOccurrence(s: string, pat: string, k: nat)
    requires OccursAt(s, pat, k)
    ensures forall j :: k <= j < k + |pat| ==> s[j] in pat
  {
    forall j | k <= j < k + |pat|
      ensures s[j] in pat
    {
      assert s[j] == pat[j - k];
    }
  }

  /** Every character of an occurring pattern is a character of `s`. */
  lemma OccurrenceCharsIn(s: string, pat: string, k: nat)
    requires OccursAt(s, pat, k)
    ensures forall j :: 0 <= j < |pat| ==> pat[j] in s
  {
    forall j | 0 <= j < |pat|
      ensures pat[j] in s
    {
      assert pat[j] == s[k + j];
    }
  }

  /** A pattern occurs in `s` only if each of its characters is in `s`. */
  lemma OccursNeedsChar(s: string, pat: string, c: char)
    requires c in pat
    ensures Occurs(s, pat) ==> c in s
  {
    if Occurs(s, pat) {
      var k: nat :| OccursAt(s, pat, k);
      OccurrenceCharsIn(s, pat, k);
    }
  }

  /** A separator-free pattern occurs around a separator iff it occurs on
      one side of it. */
  lemma OccursAround(a: string, b: string, pat: string)
    requires Bar !in pat
    ensures Occurs(a + [Bar] + b, pat) <==> Occurs(a, pat) || Occurs(b, pat)
  {
    var s := a + [Bar] + b;
    if Occurs(s, pat) {
      var k: nat :| OccursAt(s, pat, k);
      CharsOfOccurrence(s, pat, k);
      assert s[|a|] == Bar;
      if k + |pat| <= |a| {
        assert s[k..k + |pat|] == a[k..k + |pat|];
        assert OccursAt(a, pat, k);
      } else {
        assert s[k..k + |pat|] == b[k - |a| - 1..k - |a| - 1 + |pat|];
        assert OccursAt(b, pat, k - |a| - 1);
      }
    }
    if Occurs(a, pat) {
      var k: nat :| OccursAt(a, pat, k);
      assert s[k..k + |pat|] == a[k..k + |pat|];
      assert OccursAt(s, pat, k);
    }
    if Occurs(b, pat) {
      var k: nat :| OccursAt(b, pat, k);
      var k' := k + |a| + 1;
      assert s[k'..k' + |pat|] == b[k..k + |pat|];
      assert OccursAt(s, pat, k');
    }
  }

  /** A separator-free pattern occurs in a join iff it occurs in one of the
      joined pieces: no occurrence straddles two pieces. */
  lemma {:induction false} OccursInJoin(parts: seq<string>, pat: string)
    requires |parts| >= 1
    requires Bar !in pat
    ensures Occurs(Join(parts), pat) <==> exists k :: 0 <= k < |parts| && Occurs(parts[k], pat)
    decreases |parts|
  {
    if |parts| > 1 {
      OccursInJoin(parts[1..], pat);
      OccursAround(parts[0], Join(parts[1..]), pat);
      assert forall k :: 1 <= k < |parts| ==> parts[k] == parts[1..][k - 1];
      if Occurs(Join(parts), pat) && !Occurs(parts[0], pat) {
        var k :| 0 <= k < |parts[1..]| && Occurs(parts[1..][k], pat);
        assert Occurs(parts[k + 1], pat);
      }
    }
  }
}
