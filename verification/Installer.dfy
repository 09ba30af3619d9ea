/** Installing a package with its transitive dependencies. */
module Installer {
  import opened Graphs

  /** What fetching a package by name yields: a complete archive with the dependency identifiers of
      its manifest, or an archive that breaks off after the directory was created. A name that is
      not in the registry cannot be fetched at all. */
  datatype Archive = Complete(deps: seq<string>) | Broken(deps: seq<string>)

  type Registry = map<string, Archive>

  /** Installed packages, by name, with the dependency identifiers their manifests list. */
  type Disk = map<string, seq<string>>

  function IndexOf(s: string, c: char): int {
    if s == [] then -1
    else if s[0] == c then 0
    else var k := IndexOf(s[1..], c); if k < 0 then -1 else k + 1
  }

  lemma IndexBound(s: string, c: char)
    ensures -1 <= IndexOf(s, c) < |s|
  {
  }

  /** An identifier without its version: "jwt@1.0.0" is package "jwt". */
  function Name(id: string): string {
    IndexBound(id, '@');
    if IndexOf(id, '@') > 0 then id[..IndexOf(id, '@')] else id
  }

  /** The version behind the first "@" is cut off; a leading "@" belongs to the name. */
  lemma {:induction false} NameDropsVersion(name: string, version: string)
    requires name != "" && '@' !in name
    ensures Name(name + "@" + version) == name && Name(name) == name
  {
    IndexOfFirst(name, "@" + version);
    IndexOfFirst(name, "");
    assert name + "@" + version == name + ("@" + version) && name + "" == name;
  }

  lemma {:induction false} IndexOfFirst(s: string, rest: string)
    requires '@' !in s && (rest == "" || rest[0] == '@')
    ensures IndexOf(s + rest, '@') == if rest == "" then -1 else |s|
  {
    if s == "" {
      assert s + rest == rest;
    } else {
      assert (s + rest)[1..] == s[1..] + rest && s[0] in s;
      IndexOfFirst(s[1..], rest);
    }
  }

  /** Standard library modules are fetched again even when present. */
  predicate IsStdlib(name: string) {
    "stdlib/" <= name
  }

  // ---------------------------------------------------------------- closure

  /** A dependency is met when its package is installed. */
  ghost predicate Met(disk: Disk, id: string) {
    Name(id) in disk
  }

  ghost predicate Closed(disk: Disk) {
    forall n, d :: n in disk && d in disk[n] ==> Met(disk, d)
  }

  /** Met, or impossible to fetch. */
  ghost predicate Handled(registry: Registry, disk: Disk, id: string) {
    Met(disk, id) || Name(id) !in registry
  }

  ghost predicate Complied(registry: Registry, disk: Disk, n: string)
    requires n in disk
  {
    forall d :: d in disk[n] ==> Handled(registry, disk, d)
  }

  /** Every package whose dependencies are not handled is being installed right now, or excused. */
  ghost predicate Sound(registry: Registry, disk: Disk, open: set<string>, excused: set<string>) {
    forall n :: n in disk && n !in open && n !in excused ==> Complied(registry, disk, n)
  }

  /** Entries only appear, or are replaced by what the registry holds. */
  ghost predicate Grown(registry: Registry, before: Disk, after: Disk) {
    && (forall n :: n in before ==> n in after)
    && (forall n :: n in after && !(n in before && after[n] == before[n]) ==>
          n in registry && after[n] == registry[n].deps)
    && (forall n :: n in before && !IsStdlib(n) ==> after[n] == before[n])
  }

  lemma GrownTransitive(registry: Registry, a: Disk, b: Disk, c: Disk)
    requires Grown(registry, a, b) && Grown(registry, b, c)
    ensures Grown(registry, a, c)
  {
  }

  ghost function Dependencies(registry: Registry): set<string> {
    set n, i | n in registry && 0 <= i < |registry[n].deps| :: registry[n].deps[i]
  }

  /** The packages a complete package asks for. */
  ghost function NamesOf(ids: seq<string>): seq<string> {
    seq(|ids|, i requires 0 <= i < |ids| => Name(ids[i]))
  }

  ghost function DependencyGraph(registry: Registry): map<string, seq<string>> {
    map n | n in registry && registry[n].Complete? :: NamesOf(registry[n].deps)
  }

  /** New and replaced packages are needed by `root`. */
  ghost predicate Needed(registry: Registry, before: Disk, after: Disk, root: string) {
    forall n :: n in after && !(n in before && after[n] == before[n]) ==> Reaches(DependencyGraph(registry), root, n)
  }

  ghost predicate AllHandled(registry: Registry, disk: Disk, visited: set<string>) {
    forall id :: id in visited ==> Handled(registry, disk, id)
  }

  /** The package is fetched, and its archive breaks off. */
  ghost predicate BreaksOff(registry: Registry, disk: Disk, name: string) {
    (IsStdlib(name) || name !in disk) && name in registry && registry[name].Broken?
  }

  class PackageInstaller {
    const registry: Registry
    var visited: set<string>
    var disk: Disk

    constructor (registry: Registry, disk: Disk)
      ensures this.registry == registry && this.disk == disk && visited == {}
    {
      this.registry, this.disk, visited := registry, disk, {};
    }

    method Install(id: string, ghost universe: set<string>, ghost open: set<string>, ghost excused: set<string>)
      requires id in universe && Dependencies(registry) <= universe
      requires Sound(registry, disk, open, excused)
      requires AllHandled(registry, disk, visited)
      requires forall n :: n in registry && registry[n].Broken? ==> n in excused
      modifies this
      ensures id in visited && visited >= old(visited)
      ensures Sound(registry, disk, open, excused)
      ensures AllHandled(registry, disk, visited)
      ensures Grown(registry, old(disk), disk)
      ensures Needed(registry, old(disk), disk, Name(id))
      ensures id in old(visited) || (!IsStdlib(Name(id)) && Name(id) in old(disk)) ==> disk == old(disk)
      ensures id !in old(visited) && "stdlib/" <= Name(id) && Name(id) in registry ==>
                Name(id) in disk && disk[Name(id)] == registry[Name(id)].deps
      ensures id !in old(visited) && BreaksOff(registry, old(disk), Name(id)) ==>
                disk == old(disk)[Name(id) := registry[Name(id)].deps]
      decreases universe - visited, 0
    {
      if id in visited {
        return;
      }
      var name := Name(id);
      visited := visited + {id};
      if !IsStdlib(name) && name in disk {
        return;
      }
      if name !in registry {
        return;
      }
      ReachesSelf(DependencyGraph(registry), name);
      Unpack(name, open, excused);
      if registry[name].Broken? {
        return;
      }
      InstallDependencies(name, universe, open, excused);
    }

    /** The package directory appears with its manifest. */
    method Unpack(name: string, ghost open: set<string>, ghost excused: set<string>)
      requires name in registry
      requires Sound(registry, disk, open, excused)
      modifies `disk
      ensures disk == old(disk)[name := registry[name].deps]
      ensures Sound(registry, disk, open + {name}, excused)
      ensures registry[name].Broken? && name in excused ==> Sound(registry, disk, open, excused)
    {
      disk := disk[name := registry[name].deps];
      forall n | n in disk && n != name && n !in open && n !in excused
        ensures Complied(registry, disk, n)
      {
        assert Complied(registry, old(disk), n);
      }
    }

    method InstallDependencies(name: string, ghost universe: set<string>, ghost open: set<string>,
                               ghost excused: set<string>)
      requires name in registry && name in disk && disk[name] == registry[name].deps && registry[name].Complete?
      requires Dependencies(registry) <= universe
      requires Sound(registry, disk, open + {name}, excused)
      requires AllHandled(registry, disk, visited)
      requires forall n :: n in registry && registry[n].Broken? ==> n in excused
      modifies this
      ensures visited >= old(visited)
      ensures Sound(registry, disk, open, excused)
      ensures AllHandled(registry, disk, visited)
      ensures Grown(registry, old(disk), disk)
      ensures Needed(registry, old(disk), disk, name)
      ensures forall d :: d in registry[name].deps ==> Handled(registry, disk, d)
      decreases universe - visited, 1
    {
      var deps := registry[name].deps;
      for j := 0 to |deps|
        invariant visited >= old(visited) && forall k :: 0 <= k < j ==> deps[k] in visited
        invariant Sound(registry, disk, open + {name}, excused)
        invariant AllHandled(registry, disk, visited)
        invariant Grown(registry, old(disk), disk)
        invariant Needed(registry, old(disk), disk, name)
      {
        ghost var before := disk;
        assert deps[j] in Dependencies(registry);
        Install(deps[j], universe, open + {name}, excused);
        GrownTransitive(registry, old(disk), before, disk);
        NeededVia(registry, old(disk), before, disk, name, j);
      }
      forall d | d in deps
        ensures Handled(registry, disk, d)
      {
        assert d in visited;
      }
      assert name in disk && disk[name] == deps;
    }

    /** `pranor install root`. It ends for every registry, cyclic ones included. */
    method InstallPackage(root: string) returns (ok: bool)
      modifies this
      ensures ok <==>
              || (!IsStdlib(Name(root)) && Name(root) in old(disk))
              || (Name(root) in registry && registry[Name(root)].Complete?)
      ensures ok ==> Name(root) in disk
      ensures !IsStdlib(Name(root)) && Name(root) in old(disk) ==> disk == old(disk)
      ensures "stdlib/" <= Name(root) && Name(root) in registry ==>
                Name(root) in disk && disk[Name(root)] == registry[Name(root)].deps
      ensures BreaksOff(registry, old(disk), Name(root)) ==>
                disk == old(disk)[Name(root) := registry[Name(root)].deps]
      ensures Sound(registry, disk, {}, Excused(registry, old(disk)))
      ensures Grown(registry, old(disk), disk)
      ensures Needed(registry, old(disk), disk, Name(root))
      ensures old(Closed(disk)) && Wholesome(registry, root) ==> Closed(disk) && Name(root) in disk
    {
      var name := Name(root);
      ok := (!IsStdlib(name) && name in disk) || (name in registry && registry[name].Complete?);
      visited := {};
      Install(root, Dependencies(registry) + {root}, {}, Excused(registry, disk));
      assert Handled(registry, disk, root);
      if old(Closed(disk)) && Wholesome(registry, root) {
        ReachesSelf(DependencyGraph(registry), name);
        WholesomeCloses(registry, old(disk), disk, root);
      }
    }
  }

  /** Installing again after an archive broke off, from whatever the registry holds by then: the
      package counts as installed, because its directory exists, and its dependencies are never
      looked at. */
  method RetryAfterBroken(root: string, first: Registry, second: Registry, disk: Disk)
    returns (ok: bool, again: bool, after: Disk)
    requires !IsStdlib(Name(root)) && Name(root) !in disk && Name(root) in first && first[Name(root)].Broken?
    ensures !ok && again && after == disk[Name(root) := first[Name(root)].deps]
    ensures forall d :: d in after[Name(root)] && !Met(disk, d) && Name(d) != Name(root) ==> !Met(after, d)
  {
    var run := new PackageInstaller(first, disk);
    ok := run.InstallPackage(root);
    var rerun := new PackageInstaller(second, run.disk);
    again := rerun.InstallPackage(root);
    after := rerun.disk;
  }

  /** Packages whose dependencies were already unhandled, and packages whose archive is broken. */
  ghost function Excused(registry: Registry, disk: Disk): set<string> {
    (set n | n in disk && !Complied(registry, disk, n)) + (set n | n in registry && registry[n].Broken?)
  }

  /** Everything the root transitively asks for can be fetched, with a complete archive. */
  ghost predicate Wholesome(registry: Registry, root: string) {
    forall n :: Reaches(DependencyGraph(registry), Name(root), n) ==> n in registry && registry[n].Complete?
  }

  lemma WholesomeCloses(registry: Registry, before: Disk, after: Disk, root: string)
    requires Wholesome(registry, root) && Closed(before) && Grown(registry, before, after)
    requires Needed(registry, before, after, Name(root))
    requires Sound(registry, after, {}, Excused(registry, before))
    ensures Closed(after)
  {
    var g := DependencyGraph(registry);
    forall n, d | n in after && d in after[n]
      ensures Met(after, d)
    {
      if n in before && after[n] == before[n] {
        assert Met(before, d);
      } else {
        assert Reaches(g, Name(root), n) && registry[n].Complete?;
        var i :| 0 <= i < |after[n]| && after[n][i] == d;
        assert g[n][i] == Name(d);
        assert Edge(g, n, Name(d));
        ReachesSnoc(g, Name(root), n, Name(d));
        assert n !in Excused(registry, before) by {
          if n in before { assert Complied(registry, before, n); }
        }
        assert Complied(registry, after, n);
      }
    }
  }

  /** The packages asked for by the manifests on a disk. */
  ghost function DiskGraph(disk: Disk): map<string, seq<string>> {
    map n | n in disk :: NamesOf(disk[n])
  }

  /** A closed disk that holds a package holds everything it transitively depends on. */
  lemma {:induction false} ClosedHoldsAll(disk: Disk, w: seq<string>)
    requires Closed(disk) && w != [] && Walk(DiskGraph(disk), w) && w[0] in disk
    ensures w[|w| - 1] in disk
    decreases |w|
  {
    if |w| > 1 {
      var g := DiskGraph(disk);
      assert Edge(g, w[0], w[1]);
      var i :| 0 <= i < |g[w[0]]| && g[w[0]][i] == w[1];
      assert Met(disk, disk[w[0]][i]);
      assert Walk(g, w[1..]) by {
        forall k | 0 <= k < |w[1..]| - 1
          ensures Edge(g, w[1..][k], w[1..][k + 1])
        {
          assert Edge(g, w[k + 1], w[k + 2]);
        }
      }
      ClosedHoldsAll(disk, w[1..]);
    }
  }

  lemma NeededVia(registry: Registry, start: Disk, before: Disk, after: Disk, name: string, j: nat)
    requires name in registry && registry[name].Complete? && j < |registry[name].deps|
    requires Needed(registry, start, before, name) && Needed(registry, before, after, Name(registry[name].deps[j]))
    ensures Needed(registry, start, after, name)
  {
    var g := DependencyGraph(registry);
    var dep := Name(registry[name].deps[j]);
    assert g[name][j] == dep;
    assert Edge(g, name, dep);
    forall n | n in after && !(n in start && after[n] == start[n])
      ensures Reaches(g, name, n)
    {
      if !(n in before && after[n] == before[n]) {
        ReachesCons(g, name, dep, n);
      }
    }
  }
}
