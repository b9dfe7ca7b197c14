/**
 * Naming convention of the package site: the package `c` named on an input
 * line is looked up under the path segments `rust-{c}` and `rust-{c}-devel`.
 */
module Names {

  /** The two path segments appended to the base URL for one request. */
  datatype Target = Target(primary: string, secondary: string)

  const PackagePrefix: string := "rust-"
  const DevelSuffix: string := "-devel"

  /**
   * The segments fetched for package `c`: the first is `c` behind the
   * "rust-" prefix, the second extends the first with "-devel".
   */
  function Derive(c: string): (t: Target)
    ensures |t.primary| == |PackagePrefix| + |c|
    ensures t.primary[..|PackagePrefix|] == PackagePrefix && t.primary[|PackagePrefix|..] == c
    ensures |t.secondary| == |t.primary| + |DevelSuffix|
    ensures t.secondary[..|t.primary|] == t.primary && t.secondary[|t.primary|..] == DevelSuffix
  {
    var p := PackagePrefix + c;
    Target(p, p + DevelSuffix)
  }

  /** Distinct crates are looked up under distinct page addresses. */
  lemma DeriveInjective(c1: string, c2: string)
    requires Derive(c1) == Derive(c2)
    ensures c1 == c2
  {
    assert Derive(c1).primary[|PackagePrefix|..] == c1;
  }
}
