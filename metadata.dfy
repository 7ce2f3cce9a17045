/**
 * Choosing the packages whose manifests are converted, from the workspace
 * packages, the workspace default packages and the `--package`,
 * `--workspace` and `--exclude` options.
 */
module Metadata {
  import opened Sequences

  /** A workspace package: its name and the path of its manifest. */
  datatype Package = Package(name: string, manifestPath: string)

  /** The selection options: `--package` names, the `--workspace` flag, `--exclude` names. */
  datatype Selection = Selection(package: seq<string>, workspace: bool, exclude: seq<string>)

  /**
   * The packages, in their order, whose name is in `names` (when `keep`) or
   * is not in `names` (when not `keep`); each kept package as often as it
   * occurs in `packages`, every other one not at all.
   */
  function FilterByName(packages: seq<Package>, names: seq<string>, keep: bool): (r: seq<Package>)
    ensures Subsequence(r, packages)
    ensures forall p :: multiset(r)[p] == if (p.name in names) == keep then multiset(packages)[p] else 0
  {
    if packages == [] then []
    else
      var first := packages[0];
      var rest := FilterByName(packages[1..], names, keep);
      assert packages == [first] + packages[1..];
      if (first.name in names) == keep then
        assert ([first] + rest)[0] == first && ([first] + rest)[1..] == rest;
        [first] + rest
      else
        SubsequencePrepend(rest, packages[1..], first);
        rest
  }

  lemma FilterByNameMembers(packages: seq<Package>, names: seq<string>, keep: bool)
    ensures forall p :: p in FilterByName(packages, names, keep) <==> p in packages && (p.name in names) == keep
  {
    var r := FilterByName(packages, names, keep);
    forall p ensures p in r <==> p in packages && (p.name in names) == keep {
      assert p in r <==> p in multiset(r);
      assert p in packages <==> p in multiset(packages);
    }
  }

  /**
   * The packages to convert. With neither `--workspace` nor any `--package`
   * name, the workspace default packages. With `--workspace`, every workspace
   * package not named by `--exclude`, whatever `--package` says. Otherwise
   * every workspace package named by `--package`; names that match no
   * package are ignored. Each selected package is kept in workspace order,
   * as often as it occurs there.
   */
  function GetPackages(workspacePackages: seq<Package>, defaultPackages: seq<Package>, option: Selection): (r: seq<Package>)
    ensures !option.workspace && option.package == [] ==> r == defaultPackages
    ensures option.workspace ==>
      && Subsequence(r, workspacePackages)
      && (forall p :: p in r <==> p in workspacePackages && p.name !in option.exclude)
      && forall p :: multiset(r)[p] == if p.name !in option.exclude then multiset(workspacePackages)[p] else 0
    ensures !option.workspace && option.package != [] ==>
      && Subsequence(r, workspacePackages)
      && (forall p :: p in r <==> p in workspacePackages && p.name in option.package)
      && forall p :: multiset(r)[p] == if p.name in option.package then multiset(workspacePackages)[p] else 0
  {
    FilterByNameMembers(workspacePackages, option.exclude, false);
    FilterByNameMembers(workspacePackages, option.package, true);
    if !option.workspace && option.package == [] then defaultPackages
    else if option.workspace then FilterByName(workspacePackages, option.exclude, false)
    else FilterByName(workspacePackages, option.package, true)
  }
}
