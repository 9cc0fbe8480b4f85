/**
 * The grouping behind the shadow command: for every name that occurs in more
 * than one directory of the clean list, the directories holding it, in list
 * order. A program found through an earlier directory shadows the ones of the
 * same name further on. Reading a directory is the parameter `listing` (the
 * base names of the files the directory's glob yields, in its order), and the
 * command line's regular-expression filter is the parameter `keyMatches`.
 */
module Shadow {

  /** The directories recorded for `name` so far; a missing key reads as the empty slice. */
  function Get(m: map<string, seq<string>>, name: string): (r: seq<string>) {
    if name in m then m[name] else []
  }

  /** Records `dir` once for each selected name of `names`, in order. */
  function AddNames(m: map<string, seq<string>>, names: seq<string>, dir: string, keyMatches: string -> bool)
    : (r: map<string, seq<string>>)
    decreases |names|
  {
    if names == [] then m
    else
      var m' := AddNames(m, names[..|names| - 1], dir, keyMatches);
      var name := names[|names| - 1];
      if keyMatches(name) then m'[name := Get(m', name) + [dir]] else m'
  }

  /** The map the first loop of cmdShadow builds from the directories `dirs`. */
  function Groups(dirs: seq<string>, listing: string -> seq<string>, keyMatches: string -> bool)
    : (r: map<string, seq<string>>)
    decreases |dirs|
  {
    if dirs == [] then map[]
    else
      var dir := dirs[|dirs| - 1];
      AddNames(Groups(dirs[..|dirs| - 1], listing, keyMatches), listing(dir), dir, keyMatches)
  }

  /** The groups the second loop keeps: those of two directories or more. */
  function Shadowed(m: map<string, seq<string>>): (r: map<string, seq<string>>) {
    map name | name in m && |m[name]| >= 2 :: m[name]
  }

  /* ---------- an independent description of the groups ---------- */

  /** How often `name` occurs in `names`. */
  function Count(names: seq<string>, name: string): (r: nat)
    decreases |names|
  {
    if names == [] then 0
    else Count(names[..|names| - 1], name) + (if names[|names| - 1] == name then 1 else 0)
  }

  /** Every directory of `dirs` whose listing holds `name`, once per occurrence, in list order. */
  function DirsWith(dirs: seq<string>, listing: string -> seq<string>, name: string): (r: seq<string>)
    decreases |dirs|
  {
    if dirs == [] then []
    else
      var dir := dirs[|dirs| - 1];
      DirsWith(dirs[..|dirs| - 1], listing, name) + seq(Count(listing(dir), name), _ => dir)
  }

  lemma {:induction false} AddNamesGet(m: map<string, seq<string>>, names: seq<string>, dir: string,
                                       keyMatches: string -> bool, name: string)
    ensures Get(AddNames(m, names, dir, keyMatches), name)
      == Get(m, name) + (if keyMatches(name) then seq(Count(names, name), _ => dir) else [])
    ensures name in m ==> name in AddNames(m, names, dir, keyMatches)
    ensures name in AddNames(m, names, dir, keyMatches) ==> name in m || Get(AddNames(m, names, dir, keyMatches), name) != []
    decreases |names|
  {
    if names != [] {
      var init := names[..|names| - 1];
      AddNamesGet(m, init, dir, keyMatches, name);
      if keyMatches(name) {
        var n := Count(init, name);
        if names[|names| - 1] == name {
          assert seq(n, _ => dir) + [dir] == seq(n + 1, _ => dir);
        }
      }
    }
  }

  /** The first loop records, for every selected name, exactly the directories that hold it. */
  lemma {:induction false} GroupsAreDirsWith(dirs: seq<string>, listing: string -> seq<string>,
                                             keyMatches: string -> bool, name: string)
    ensures Get(Groups(dirs, listing, keyMatches), name) == if keyMatches(name) then DirsWith(dirs, listing, name) else []
    ensures name in Groups(dirs, listing, keyMatches) ==> Get(Groups(dirs, listing, keyMatches), name) != []
    decreases |dirs|
  {
    if dirs != [] {
      var init := dirs[..|dirs| - 1];
      var dir := dirs[|dirs| - 1];
      GroupsAreDirsWith(init, listing, keyMatches, name);
      AddNamesGet(Groups(init, listing, keyMatches), listing(dir), dir, keyMatches, name);
    }
  }

  /** Every directory listed for a name holds that name and is a directory of the list. */
  lemma {:induction false} DirsWithHold(dirs: seq<string>, listing: string -> seq<string>, name: string, x: string)
    requires x in DirsWith(dirs, listing, name)
    ensures x in dirs && Count(listing(x), name) > 0
    decreases |dirs|
  {
    var init := dirs[..|dirs| - 1];
    var dir := dirs[|dirs| - 1];
    if x in DirsWith(init, listing, name) {
      DirsWithHold(init, listing, name, x);
    }
  }

  /** What cmdShadow reports: a name exactly when the filter selects it and at least two
      directory listings (or two places in one) hold it, with those directories in list order. */
  lemma ShadowedNames(dirs: seq<string>, listing: string -> seq<string>, keyMatches: string -> bool, name: string)
    ensures var r := Shadowed(Groups(dirs, listing, keyMatches));
      && (name in r <==> keyMatches(name) && |DirsWith(dirs, listing, name)| >= 2)
      && (name in r ==> r[name] == DirsWith(dirs, listing, name))
  {
    GroupsAreDirsWith(dirs, listing, keyMatches, name);
  }

  /* ---------- the command ---------- */

  lemma GroupsStep(dirs: seq<string>, i: nat, listing: string -> seq<string>, keyMatches: string -> bool)
    requires i < |dirs|
    ensures Groups(dirs[..i + 1], listing, keyMatches)
      == AddNames(Groups(dirs[..i], listing, keyMatches), listing(dirs[i]), dirs[i], keyMatches)
  {
    assert dirs[..i + 1][..i] == dirs[..i];
  }

  lemma AddNamesStep(m: map<string, seq<string>>, names: seq<string>, k: nat, dir: string, keyMatches: string -> bool)
    requires k < |names|
    ensures var m' := AddNames(m, names[..k], dir, keyMatches);
      AddNames(m, names[..k + 1], dir, keyMatches)
        == if keyMatches(names[k]) then m'[names[k] := Get(m', names[k]) + [dir]] else m'
  {
    assert names[..k + 1][..k] == names[..k];
  }

  /** cmdShadow's two loops over the clean list `dirs`: build the map of names to
      directories, then delete the names held by fewer than two. */
  method ShadowGroups(dirs: seq<string>, listing: string -> seq<string>, keyMatches: string -> bool)
    returns (nameDirs: map<string, seq<string>>)
    ensures nameDirs == Shadowed(Groups(dirs, listing, keyMatches))
  {
    nameDirs := map[];
    for i := 0 to |dirs|
      invariant nameDirs == Groups(dirs[..i], listing, keyMatches)
    {
      var dir := dirs[i];
      var filePaths := listing(dir);
      GroupsStep(dirs, i, listing, keyMatches);
      ghost var before := nameDirs;
      assert filePaths[..0] == [];
      for k := 0 to |filePaths|
        invariant nameDirs == AddNames(before, filePaths[..k], dir, keyMatches)
      {
        AddNamesStep(before, filePaths, k, dir, keyMatches);
        var name := filePaths[k];
        if keyMatches(name) {
          nameDirs := nameDirs[name := Get(nameDirs, name) + [dir]];
        }
      }
      assert filePaths[..|filePaths|] == filePaths;
    }
    assert dirs[..|dirs|] == dirs;
    ghost var groups := nameDirs;
    var names := nameDirs.Keys;
    while names != {}
      invariant names <= groups.Keys
      invariant forall n :: n in nameDirs <==> n in groups && (n in names || |groups[n]| >= 2)
      invariant forall n :: n in nameDirs ==> nameDirs[n] == groups[n]
      decreases |names|
    {
      var name :| name in names;
      if |nameDirs[name]| < 2 {
        nameDirs := nameDirs - {name};
      }
      names := names - {name};
    }
  }
}
