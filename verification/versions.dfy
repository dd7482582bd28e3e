/**
 Version strings as the runners handle them: every caret is deleted before two
 versions are compared, and the comparison itself is left to an external
 library, modelled here as an arbitrary comparator.
 */
module Versions {

  /** A comparator in the shape of `compare-versions`: negative when the
      first version is the lower one. Nothing else is assumed about it. */
  type Comparator = (string, string) -> int

  /** `v.replace(/\^/g, '')`: the version with every caret deleted. */
  function StripCarets(v: string): (r: string)
    ensures '^' !in r
    ensures |r| <= |v|
    ensures forall c :: c != '^' ==> multiset(r)[c] == multiset(v)[c]
  {
    if v == [] then []
    else
      var rest := StripCarets(v[1..]);
      assert v == [v[0]] + v[1..];
      if v[0] == '^' then rest else [v[0]] + rest
  }

  /** The project version is strictly lower than the required one, both with
      their carets deleted. */
  predicate Lower(cmp: Comparator, projectVersion: string, required: string) {
    cmp(StripCarets(projectVersion), StripCarets(required)) < 0
  }

  /** Deleting carets distributes over concatenation. */
  lemma {:induction false} StripCaretsAppend(a: string, b: string)
    ensures StripCarets(a + b) == StripCarets(a) + StripCarets(b)
  {
    if a == [] {
      assert a + b == b;
    } else {
      assert (a + b)[1..] == a[1..] + b;
      StripCaretsAppend(a[1..], b);
    }
  }

  /** A version without carets is left as it is. */
  lemma {:induction false} StripCaretsFixesCaretFree(v: string)
    requires '^' !in v
    ensures StripCarets(v) == v
  {
    if v != [] {
      assert v == [v[0]] + v[1..];
      assert v[0] != '^' && '^' !in v[1..];
      StripCaretsFixesCaretFree(v[1..]);
    }
  }

  /** Deleting carets twice is the same as deleting them once. */
  lemma StripCaretsIdempotent(v: string)
    ensures StripCarets(StripCarets(v)) == StripCarets(v)
  {
    StripCaretsFixesCaretFree(StripCarets(v));
  }

  /** The `^` that an in-project artifact's recorded version carries is
      deleted again before comparison, so it never affects the outcome. */
  lemma CaretRangeStripsToVersion(version: string)
    ensures StripCarets("^" + version) == StripCarets(version)
  {
    StripCaretsAppend("^", version);
    assert StripCarets("^") == StripCarets([]) by {
      assert "^"[1..] == [];
    }
  }
}
