/**
 * Unique names for new strips and groups: the name itself when it is free,
 * otherwise `name.N` (written with `%s.%d`) for the first free N >= 1.
 */
module UniqueNames {
  import opened CText

  /** `name.i` as snprintf(pat, ..., "%s.%d", name, i) writes it. */
  function Suffixed(name: string, i: nat): string {
    name + "." + FormatNat(i)
  }

  /** Different suffixes give different names. */
  lemma SuffixedInjective(name: string, i: nat, j: nat)
    requires Suffixed(name, i) == Suffixed(name, j)
    ensures i == j
  {
    var n := |name| + 1;
    assert Suffixed(name, i)[n..] == FormatNat(i);
    assert Suffixed(name, j)[n..] == FormatNat(j);
    FormatNatInjective(i, j);
  }

  /**
   * The name get_unique_*_name returns for `name` when `taken` holds the
   * names in use: a free name, `name` itself when that is free, otherwise
   * `name.i` for an i >= 1 such that every `name.j` with 1 <= j < i is taken.
   */
  ghost predicate IsFirstFreeName(taken: seq<string>, name: string, r: string) {
    && r !in taken
    && (name !in taken ==> r == name)
    && (name in taken ==>
          exists i: nat :: 1 <= i && r == Suffixed(name, i) &&
            forall j: nat :: 1 <= j < i ==> Suffixed(name, j) in taken)
  }

  /** There is only one first free name. */
  lemma FirstFreeNameUnique(taken: seq<string>, name: string, r1: string, r2: string)
    requires IsFirstFreeName(taken, name, r1) && IsFirstFreeName(taken, name, r2)
    ensures r1 == r2
  {
    if name in taken {
      var i1: nat :| 1 <= i1 && r1 == Suffixed(name, i1) &&
        forall j: nat :: 1 <= j < i1 ==> Suffixed(name, j) in taken;
      var i2: nat :| 1 <= i2 && r2 == Suffixed(name, i2) &&
        forall j: nat :: 1 <= j < i2 ==> Suffixed(name, j) in taken;
    }
  }

  /** An `f` injective on 1..i takes 1..i to i distinct values. */
  lemma {:induction false} ImageSize<T>(f: nat -> T, i: nat)
    requires forall a: nat, b: nat :: 1 <= a <= i && 1 <= b <= i && f(a) == f(b) ==> a == b
    ensures |set j: nat | 1 <= j <= i :: f(j)| == i
  {
    if i > 0 {
      var prev := set j: nat | 1 <= j <= i - 1 :: f(j);
      ImageSize(f, i - 1);
      forall j: nat | 1 <= j <= i - 1
        ensures f(j) != f(i)
      {
      }
      assert (set j: nat | 1 <= j <= i :: f(j)) == prev + {f(i)};
    }
  }

  lemma {:induction false} ElementsBounded(s: seq<string>)
    ensures |set x | x in s| <= |s|
  {
    if s != [] {
      ElementsBounded(s[1..]);
      assert (set x | x in s) == (set x | x in s[1..]) + {s[0]};
    }
  }

  /**
   * The search for a free name ends: `taken` cannot hold more than |taken|
   * of the names `name.1`, `name.2`, ...
   */
  lemma FewSuffixesTaken(name: string, taken: seq<string>, i: nat)
    requires forall j: nat :: 1 <= j <= i ==> Suffixed(name, j) in taken
    ensures i <= |taken|
  {
    var f := (j: nat) => Suffixed(name, j);
    forall a: nat, b: nat | 1 <= a <= i && 1 <= b <= i && f(a) == f(b)
      ensures a == b
    {
      SuffixedInjective(name, a, b);
    }
    var suffixes := set j: nat | 1 <= j <= i :: f(j);
    var elements := set x | x in taken;
    ImageSize(f, i);
    ElementsBounded(taken);
    assert suffixes <= elements;
    assert |suffixes| <= |elements| by {
      var rest := elements - suffixes;
      assert elements == suffixes + rest;
    }
  }
}
