/**
 Qualified names as text. Rust code joins components with `::` and splits at `::`; a component handed in by a caller
 may itself be a joined path, which the text of the whole name does not show.
 */
module Names {
  import opened Prelude

  const SEPARATOR := "::"

  /** What is used here of Cedar's identifiers: they are not empty and hold no colon. */
  predicate IsSegment(s: string) {
    s != "" && ':' !in s
  }

  predicate AllSegments(path: seq<string>) {
    forall k | 0 <= k < |path| :: IsSegment(path[k])
  }

  function JoinPath(parts: seq<string>): string {
    if parts == [] then ""
    else if |parts| == 1 then parts[0]
    else parts[0] + (SEPARATOR + JoinPath(parts[1..]))
  }

  /** Splitting at every `::`, from the left. */
  function SplitPath(text: string): (parts: seq<string>)
    ensures parts != []
  {
    if |text| < 2 then [text]
    else if text[0] == ':' && text[1] == ':' then [""] + SplitPath(text[2..])
    else
      var rest := SplitPath(text[1..]);
      [[text[0]] + rest[0]] + rest[1..]
  }

  /** The segments of a list of components, each split on its own. */
  function Flatten(components: seq<string>): seq<string> {
    if components == [] then [] else SplitPath(components[0]) + Flatten(components[1..])
  }

  lemma {:induction false} SplitOfSegment(s: string)
    requires ':' !in s
    ensures SplitPath(s) == [s]
  {
    if |s| < 2 {
    } else {
      SplitOfSegment(s[1..]);
      assert s == [s[0]] + s[1..];
    }
  }

  /** No part but the first is empty, and no part holds a colon. */
  predicate IsClean(parts: seq<string>) {
    forall k | 0 <= k < |parts| :: ':' !in parts[k] && (k > 0 ==> parts[k] != "")
  }

  lemma NoThirdColon(rest: string)
    ensures !IsClean([""] + SplitPath(":" + rest))
  {
    var text := ":" + rest;
    var parts := SplitPath(text);
    assert ([""] + parts)[1] == parts[0];
    if |text| >= 2 && text[1] != ':' {
      assert parts[0][0] == ':';
    }
  }

  /** Where the outcome is clean, splitting a joined text splits its two sides. */
  lemma {:induction false} SplitOfJoined(left: string, right: string)
    requires IsClean(SplitPath(left + (SEPARATOR + right)))
    ensures SplitPath(left + (SEPARATOR + right)) == SplitPath(left) + SplitPath(right)
    decreases |left|
  {
    var text := left + (SEPARATOR + right);
    if left == "" {
      assert text[2..] == right;
    } else if text[0] == ':' && text[1] == ':' {
      SplitAfterColons(left, right);
    } else {
      SplitAfterCharacter(left, right);
    }
  }

  lemma {:induction false} SplitAfterColons(left: string, right: string)
    requires var text := left + (SEPARATOR + right);
      left != "" && text[0] == ':' && text[1] == ':' && IsClean(SplitPath(text))
    ensures SplitPath(left + (SEPARATOR + right)) == SplitPath(left) + SplitPath(right)
    decreases |left|, 1
  {
    var text := left + (SEPARATOR + right);
    if |left| == 1 {
      assert text[2..] == ":" + right;
      NoThirdColon(right);
    } else {
      assert text[2..] == left[2..] + (SEPARATOR + right);
      var rest := SplitPath(text[2..]);
      assert forall k | 0 <= k < |rest| :: rest[k] == SplitPath(text)[k + 1];
      SplitOfJoined(left[2..], right);
      AppendAssociative([""], SplitPath(left[2..]), SplitPath(right));
    }
  }

  lemma {:induction false} SplitAfterCharacter(left: string, right: string)
    requires var text := left + (SEPARATOR + right);
      left != "" && !(text[0] == ':' && text[1] == ':') && IsClean(SplitPath(text))
    ensures SplitPath(left + (SEPARATOR + right)) == SplitPath(left) + SplitPath(right)
    decreases |left|, 1
  {
    var text := left + (SEPARATOR + right);
    assert text[1..] == left[1..] + (SEPARATOR + right);
    var rest, c := SplitPath(text[1..]), text[0];
    assert SplitPath(text) == [[c] + rest[0]] + rest[1..];
    assert forall k | 1 <= k < |rest| :: rest[k] == SplitPath(text)[k];
    assert forall d | d in rest[0] :: d in SplitPath(text)[0];
    SplitOfJoined(left[1..], right);
    SplitFromFirst(left);
    HeadOfConcat(c, SplitPath(left[1..]), SplitPath(right));
  }

  lemma SplitFromFirst(left: string)
    requires left != "" && !(|left| >= 2 && left[0] == ':' && left[1] == ':')
    ensures SplitPath(left) == [[left[0]] + SplitPath(left[1..])[0]] + SplitPath(left[1..])[1..]
  {
    if |left| == 1 {
      assert SplitPath(left[1..]) == [""] && [left[0]] + "" == left;
    }
  }

  lemma HeadOfConcat(c: char, a: seq<string>, b: seq<string>)
    requires a != []
    ensures var rest := a + b;
      [[c] + rest[0]] + rest[1..] == ([[c] + a[0]] + a[1..]) + b
  {
  }

  lemma {:induction false} CleanJoinFlattens(components: seq<string>)
    requires components != [] && IsClean(SplitPath(JoinPath(components)))
    ensures SplitPath(JoinPath(components)) == Flatten(components)
  {
    if |components| == 1 {
      assert components[1..] == [];
    } else {
      var tail := JoinPath(components[1..]);
      SplitOfJoined(components[0], tail);
      var parts, first := SplitPath(JoinPath(components)), SplitPath(components[0]);
      assert forall k | 0 <= k < |SplitPath(tail)| :: SplitPath(tail)[k] == parts[|first| + k];
      CleanJoinFlattens(components[1..]);
    }
  }

  lemma {:induction false} FlattenAppends(components: seq<string>, last: string)
    ensures Flatten(components + [last]) == Flatten(components) + SplitPath(last)
  {
    var all := components + [last];
    if components == [] {
      assert all[1..] == [];
    } else {
      FlattenAppends(components[1..], last);
      assert all[1..] == components[1..] + [last];
      AppendAssociative(SplitPath(components[0]), Flatten(components[1..]), SplitPath(last));
    }
  }

  /**
   The constructors of identities join a namespace and a kind and let Cedar split the text. Where that gives
   segments, they are those of the components, each split on its own, followed by the kind.
   */
  lemma QualifiedSegments(namespace: seq<string>, kind: string)
    requires IsSegment(kind) && AllSegments(SplitPath(JoinPath(namespace + [kind])))
    ensures SplitPath(JoinPath(namespace + [kind])) == Flatten(namespace) + [kind]
  {
    CleanJoinFlattens(namespace + [kind]);
    FlattenAppends(namespace, kind);
    SplitOfSegment(kind);
  }

  /** A joined text splits at the join wherever its left side splits without a colon left over. */
  lemma {:induction false} SplitOfCleanLeft(left: string, right: string)
    requires forall k | 0 <= k < |SplitPath(left)| :: ':' !in SplitPath(left)[k]
    ensures SplitPath(left + (SEPARATOR + right)) == SplitPath(left) + SplitPath(right)
    decreases |left|
  {
    var text, parts := left + (SEPARATOR + right), SplitPath(left);
    if left == "" {
      assert text[2..] == right;
    } else if |left| >= 2 && left[0] == ':' && left[1] == ':' {
      assert text[2..] == left[2..] + (SEPARATOR + right);
      assert forall k | 0 <= k < |SplitPath(left[2..])| :: SplitPath(left[2..])[k] == parts[k + 1];
      SplitOfCleanLeft(left[2..], right);
      AppendAssociative([""], SplitPath(left[2..]), SplitPath(right));
    } else {
      SplitFromFirst(left);
      var rest := SplitPath(left[1..]);
      assert parts[0] == [left[0]] + rest[0] && forall k | 1 <= k < |rest| :: rest[k] == parts[k];
      assert left[0] == parts[0][0];
      assert text[1..] == left[1..] + (SEPARATOR + right);
      SplitOfCleanLeft(left[1..], right);
      HeadOfConcat(left[0], rest, SplitPath(right));
    }
  }

  lemma {:induction false} SegmentsJoinClean(components: seq<string>, kind: string)
    requires AllSegments(Flatten(components)) && IsSegment(kind)
    ensures SplitPath(JoinPath(components + [kind])) == Flatten(components) + [kind]
  {
    var all := components + [kind];
    if components == [] {
      SplitOfSegment(kind);
    } else {
      var first, others := SplitPath(components[0]), Flatten(components[1..]);
      assert forall k | 0 <= k < |first| :: first[k] == Flatten(components)[k];
      assert forall k | 0 <= k < |others| :: others[k] == Flatten(components)[|first| + k];
      assert all[1..] == components[1..] + [kind];
      SegmentsJoinClean(components[1..], kind);
      SplitOfCleanLeft(components[0], JoinPath(all[1..]));
      AppendAssociative(first, others, [kind]);
    }
  }

  /** The text of a qualified kind splits into segments exactly when every component does. */
  lemma QualifiedTextIsClean(namespace: seq<string>, kind: string)
    requires IsSegment(kind)
    ensures AllSegments(SplitPath(JoinPath(namespace + [kind]))) <==> AllSegments(Flatten(namespace))
    ensures AllSegments(Flatten(namespace)) ==> SplitPath(JoinPath(namespace + [kind])) == Flatten(namespace) + [kind]
  {
    if AllSegments(Flatten(namespace)) {
      SegmentsJoinClean(namespace, kind);
    }
    if AllSegments(SplitPath(JoinPath(namespace + [kind]))) {
      QualifiedSegments(namespace, kind);
      var ty := SplitPath(JoinPath(namespace + [kind]));
      assert forall k | 0 <= k < |Flatten(namespace)| :: Flatten(namespace)[k] == ty[k];
    }
  }

  /** Segments survive joining and splitting. */
  lemma {:induction false} SplitInvertsJoin(path: seq<string>)
    requires path != [] && AllSegments(path)
    ensures SplitPath(JoinPath(path)) == path
  {
    SplitOfSegment(path[0]);
    if |path| == 1 {
    } else {
      SplitInvertsJoin(path[1..]);
      SplitAfterSegment(path[0], JoinPath(path[1..]));
    }
  }

  lemma {:induction false} SplitAfterSegment(s: string, rest: string)
    requires ':' !in s
    ensures SplitPath(s + (SEPARATOR + rest)) == [s] + SplitPath(rest)
  {
    var text := s + (SEPARATOR + rest);
    if s == "" {
      assert text[2..] == rest && [s] == [""];
    } else {
      SplitAfterSegment(s[1..], rest);
      assert text[1..] == s[1..] + (SEPARATOR + rest);
      assert s == [s[0]] + s[1..];
      HeadOfConcat(s[0], [s[1..]], SplitPath(rest));
    }
  }

  lemma {:induction false} SinglePartIsText(text: string)
    requires |SplitPath(text)| == 1
    ensures SplitPath(text) == [text]
  {
    if |text| < 2 {
    } else {
      SinglePartIsText(text[1..]);
      assert text == [text[0]] + text[1..];
    }
  }

  /** Two parts or one joined part: the text is the same. */
  lemma JoiningTwoKeepsText(a: string, b: string, rest: seq<string>)
    requires rest != []
    ensures JoinPath([a + (SEPARATOR + b)] + rest) == JoinPath([a, b] + rest)
  {
    var tail := SEPARATOR + JoinPath(rest);
    assert ([a + (SEPARATOR + b)] + rest)[1..] == rest;
    assert ([a, b] + rest)[1..] == [b] + rest && ([b] + rest)[1..] == rest;
    AppendAssociative(a, SEPARATOR + b, tail);
    AppendAssociative(SEPARATOR, b, tail);
  }

  // ---------- Looking a path up component by component ----------

  /** The first `n` components are single segments. */
  predicate SingleUpTo(components: seq<string>, n: nat) {
    n <= |components| && forall k | 0 <= k < n :: ':' !in components[k]
  }

  lemma {:induction false} SinglesFlattenToThemselves(components: seq<string>, n: nat)
    requires SingleUpTo(components, n)
    ensures n <= |Flatten(components)| && Flatten(components)[..n] == components[..n]
  {
    if n == 0 {
    } else {
      SplitOfSegment(components[0]);
      assert SingleUpTo(components[1..], n - 1) by {
        forall k | 0 <= k < n - 1 ensures ':' !in components[1..][k] { assert components[1..][k] == components[k + 1]; }
      }
      SinglesFlattenToThemselves(components[1..], n - 1);
      assert components[..n] == [components[0]] + components[1..][..n - 1];
      assert Flatten(components)[..n] == [components[0]] + Flatten(components[1..])[..n - 1];
    }
  }

  lemma PlainComponentsFlatten(components: seq<string>)
    requires SingleUpTo(components, |components|)
    ensures Flatten(components) == components
    decreases |components|
  {
    if components == [] {
    } else {
      SplitOfSegment(components[0]);
      assert forall k | 0 <= k < |components[1..]| :: components[1..][k] == components[k + 1];
      PlainComponentsFlatten(components[1..]);
    }
  }

  /** A path of segments is a prefix of the components exactly when it is one of their segments, none joined there. */
  lemma PrefixOfComponents(path: seq<string>, components: seq<string>)
    requires AllSegments(path)
    ensures path <= components <==> path <= Flatten(components) && SingleUpTo(components, |path|)
  {
    var n := |path|;
    if path <= components {
      assert forall k | 0 <= k < n :: components[k] == path[k];
    }
    if SingleUpTo(components, n) {
      SinglesFlattenToThemselves(components, n);
      assert path <= components <==> path == components[..n];
      assert path <= Flatten(components) <==> path == Flatten(components)[..n];
    }
  }
}
