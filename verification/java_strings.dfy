/**
 * The few java.lang.String operations the quick-fix helper relies on,
 * over strings as sequences of Unicode scalar values (`char`). Java counts
 * UTF-16 code units instead; the two agree on text without
 * supplementary-plane characters.
 */
module JavaStrings {

  /**
   * String.compareTo: the difference of the first pair of differing
   * characters, or else the difference of the lengths.
   */
  function CompareTo(a: string, b: string): (r: int)
    ensures r == 0 <==> a == b
    decreases |a|
  {
    if |a| == 0 || |b| == 0 then |a| - |b|
    else if a[0] != b[0] then a[0] as int - b[0] as int
    else
      assert a == [a[0]] + a[1..] && b == [b[0]] + b[1..];
      CompareTo(a[1..], b[1..])
  }

  /**
   * Lexicographic order, stated independently of CompareTo: `a` is a proper
   * prefix of `b`, or at the first position where they differ `a` has the
   * smaller character.
   */
  ghost predicate StrictlyBefore(a: string, b: string) {
    || (|a| < |b| && a == b[..|a|])
    || exists k :: 0 <= k < |a| && k < |b| && a[..k] == b[..k] && a[k] < b[k]
  }

  /** Removing a common first character does not change the order. */
  lemma StrictlyBeforeTail(a: string, b: string)
    requires |a| > 0 && |b| > 0 && a[0] == b[0]
    ensures StrictlyBefore(a, b) <==> StrictlyBefore(a[1..], b[1..])
  {
    var a', b' := a[1..], b[1..];
    if |a| < |b| && a == b[..|a|] {
      assert a' == b'[..|a'|];
    }
    if |a'| < |b'| && a' == b'[..|a'|] {
      assert a == b[..|a|] by { assert a == [a[0]] + a' && b[..|a|] == [b[0]] + b'[..|a'|]; }
    }
    if k :| 0 <= k < |a| && k < |b| && a[..k] == b[..k] && a[k] < b[k] {
      assert k > 0;
      assert a'[..k - 1] == b'[..k - 1] && a'[k - 1] < b'[k - 1];
    }
    if k :| 0 <= k < |a'| && k < |b'| && a'[..k] == b'[..k] && a'[k] < b'[k] {
      assert a[..k + 1] == [a[0]] + a'[..k] && b[..k + 1] == [b[0]] + b'[..k];
      assert a[..k + 1] == b[..k + 1] && a[k + 1] < b[k + 1];
    }
  }

  /** compareTo orders strings lexicographically: negative exactly when `a` comes first. */
  lemma {:induction false} CompareToIsLexicographic(a: string, b: string)
    ensures CompareTo(a, b) < 0 <==> StrictlyBefore(a, b)
    decreases |a|
  {
    if |a| == 0 {
      assert |b| > 0 ==> a == b[..|a|];
    } else if |b| == 0 {
    } else if a[0] != b[0] {
      if a[0] < b[0] {
        assert a[..0] == b[..0];
      }
    } else {
      CompareToIsLexicographic(a[1..], b[1..]);
      StrictlyBeforeTail(a, b);
    }
  }

  /** compareTo is antisymmetric: swapping the arguments negates the result. */
  lemma {:induction false} CompareToAntisymmetric(a: string, b: string)
    ensures CompareTo(a, b) == -CompareTo(b, a)
    decreases |a|
  {
    if |a| != 0 && |b| != 0 && a[0] == b[0] {
      CompareToAntisymmetric(a[1..], b[1..]);
    }
  }

  /** "at most" in the order of compareTo is transitive. */
  lemma {:induction false} CompareToTransitive(a: string, b: string, c: string)
    requires CompareTo(a, b) <= 0 && CompareTo(b, c) <= 0
    ensures CompareTo(a, c) <= 0
    ensures CompareTo(a, b) < 0 || CompareTo(b, c) < 0 ==> CompareTo(a, c) < 0
    decreases |a|
  {
    if |a| != 0 && |b| != 0 && |c| != 0 && a[0] == b[0] && b[0] == c[0] {
      CompareToTransitive(a[1..], b[1..], c[1..]);
    }
  }

  /** String.lastIndexOf(char): the last position holding `c`, or -1. */
  function LastIndexOf(s: string, c: char): (r: int)
    ensures -1 <= r < |s|
    ensures r == -1 <==> c !in s
    ensures r >= 0 ==> s[r] == c
    ensures forall k :: r < k < |s| ==> s[k] != c
  {
    if |s| == 0 then -1
    else if s[|s| - 1] == c then |s| - 1
    else
      assert s == s[..|s| - 1] + [s[|s| - 1]];
      LastIndexOf(s[..|s| - 1], c)
  }

  /** String.endsWith(".*"): the name of a wildcard import. */
  predicate EndsWithStar(name: string) {
    |name| >= 2 && name[|name| - 2..] == ".*"
  }

  /**
   * ImportSupplier.typeToPackageName: everything before the last '.'.
   * The source throws when the name holds no '.'.
   */
  function PackageOf(typeName: string): (r: string)
    requires '.' in typeName
    ensures |r| < |typeName| && typeName[..|r|] == r && typeName[|r|] == '.'
    ensures '.' !in typeName[|r| + 1..]
  {
    typeName[..LastIndexOf(typeName, '.')]
  }

  /** A wildcard import name is its package followed by ".*". */
  lemma StarNameSplits(name: string)
    requires EndsWithStar(name)
    ensures '.' in name && name == PackageOf(name) + ".*"
  {
    assert name[|name| - 2] == '.';
    assert name[|name| - 1] == '*';
    assert PackageOf(name) == name[..|name| - 2];
  }

  /** The package of `p + ".*"` is `p`: wildcard imports record their package. */
  lemma PackageOfStarName(p: string)
    ensures EndsWithStar(p + ".*") && PackageOf(p + ".*") == p
  {
    var s := p + ".*";
    assert s[|p|] == '.' && s[|p| + 1] == '*';
    assert s[|s| - 2..] == ".*";
    var q := PackageOf(s);
    assert |q| == |p|;
  }
}
