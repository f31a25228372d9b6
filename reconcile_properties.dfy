/**
 * What `compareWithLayers` guarantees, proved about its definition in module
 * `Reconciler`: how the first recipe naming a package decides a layer, that
 * the found and missing dictionaries never share a key, that found packages
 * stay found, what an upgrade-only report contains, and exactly which
 * packages are reported missing.
 */
module ReconcileProperties {
  import opened Text
  import opened OrderedDict
  import opened Reconciler

  /** The name token of a recipe (`recipe.split("_")[0]`). */
  function Token(recipe: string): string {
    Split(recipe, "_")[0]
  }

  /** The key of a requirement specifier (`package[0]` after line 86). */
  function RequirementKey(requirement: string): string {
    PackageKey(Split(requirement, "==")[0])
  }

  /** Two package names share a key exactly when their lowered, `_`-to-`-` forms agree. */
  lemma SameKey(a: string, b: string)
    ensures PackageKey(a) == PackageKey(b) <==> Replace(Lower(a), '_', '-') == Replace(Lower(b), '_', '-')
  {
    if PackageKey(a) == PackageKey(b) {
      assert PackageKey(a)[8..] == Replace(Lower(a), '_', '-');
      assert PackageKey(b)[8..] == Replace(Lower(b), '_', '-');
    }
  }

  /** Names differing only in letter case share a key: `Requests` and `requests`. */
  lemma KeyIgnoresCase(name: string)
    ensures PackageKey(Lower(name)) == PackageKey(name)
  {
    assert forall i :: 0 <= i < |name| ==> Lower(Lower(name))[i] == Lower(name)[i];
    assert Lower(Lower(name)) == Lower(name);
  }

  /** Names differing only in `_` against `-` share a key: `ruamel_yaml` and `ruamel-yaml`. */
  lemma KeyIgnoresUnderscore(name: string)
    ensures PackageKey(Replace(name, '_', '-')) == PackageKey(name)
  {
    var r := Replace(name, '_', '-');
    assert forall i :: 0 <= i < |name| ==> Replace(Lower(r), '_', '-')[i] == Replace(Lower(name), '_', '-')[i];
    assert Replace(Lower(r), '_', '-') == Replace(Lower(name), '_', '-');
  }

  /** The recipe names of two runs of files, in order: the listing's order is kept. */
  lemma {:induction false} RecipeNamesAppend(a: seq<string>, b: seq<string>)
    ensures RecipeNames(a + b) == RecipeNames(a) + RecipeNames(b)
    decreases |a|
  {
    if a == [] {
      assert a + b == b;
    } else {
      var x := a[0];
      assert (a + b)[0] == x;
      assert (a + b)[1..] == a[1..] + b;
      RecipeNamesAppend(a[1..], b);
      var rest, tail := RecipeNames(a[1..]), RecipeNames(b);
      if EndsWith(x, ".bb") {
        assert [Strip(x, ".bb")] + (rest + tail) == ([Strip(x, ".bb")] + rest) + tail;
      } else {
        assert [] + (rest + tail) == rest + tail;
      }
    }
  }

  /** The file `f` is a recipe file whose recipe name is `n`. */
  predicate Yields(f: string, n: string) {
    EndsWith(f, ".bb") && n == Strip(f, ".bb")
  }

  /** The recipe names of a layer are exactly its `.bb` file names, each stripped of its `.b`-runs. */
  lemma {:induction false} RecipeNamesMembers(files: seq<string>, n: string)
    ensures n in RecipeNames(files) <==> exists i :: 0 <= i < |files| && Yields(files[i], n)
    decreases |files|
  {
    if files != [] {
      var rest := files[1..];
      RecipeNamesMembers(rest, n);
      assert n in RecipeNames(files) <==> Yields(files[0], n) || n in RecipeNames(rest);
      if exists i :: 0 <= i < |files| && Yields(files[i], n) {
        var i :| 0 <= i < |files| && Yields(files[i], n);
        if i > 0 {
          assert rest[i - 1] == files[i];
        }
      }
      if n in RecipeNames(rest) {
        var i :| 0 <= i < |rest| && Yields(rest[i], n);
        assert files[i + 1] == rest[i];
      }
    }
  }

  /** Position of the first `c` in `s`, or `|s|` when there is none. */
  function IndexOf(s: string, c: char): (i: nat)
    ensures i <= |s|
  {
    if s == [] then 0 else if s[0] == c then 0 else 1 + IndexOf(s[1..], c)
  }

  lemma {:induction false} IndexOfAfter(a: string, c: char, b: string)
    requires c !in a
    ensures IndexOf(a + [c] + b, c) == |a|
  {
    if a != [] {
      assert (a + [c] + b)[1..] == a[1..] + [c] + b;
      IndexOfAfter(a[1..], c, b);
    }
  }

  /**
   * Line 91 compares `name + "_" + version` strings. The package key and a
   * recipe's name token contain no `_`, so this is comparing the pairs.
   */
  lemma JoinedMatch(a: string, b: string, c: string, d: string)
    requires '_' !in a && '_' !in c
    ensures a + "_" + b == c + "_" + d <==> a == c && b == d
  {
    if a + "_" + b == c + "_" + d {
      IndexOfAfter(a, '_', b);
      IndexOfAfter(c, '_', d);
      var x := a + "_" + b;
      assert a == x[..|a|];
      assert c == x[..|c|];
      assert b == x[|a| + 1..];
      assert d == x[|c| + 1..];
    }
  }

  /** A recipe's name token has no `_`. */
  lemma TokenAvoidsUnderscore(recipe: string)
    ensures '_' !in Token(recipe)
  {
    SplitPiecesAvoidSep(recipe, '_');
  }

  /** The search examined recipes `[0, k)` and none of them names `key`. */
  predicate Passed(key: string, recipes: seq<string>, k: int)
    requires 0 <= k <= |recipes|
  {
    forall m :: 0 <= m < k ==> |Split(recipes[m], "_")| >= 2 && Token(recipes[m]) != key
  }

  lemma {:induction false} SkipPassed(s: Scan, key: string, spec: seq<string>, layer: string, recipes: seq<string>,
                                      k: nat, upgradeOnly: bool, newer: (string, string) -> bool)
    requires |spec| >= 2 && '_' !in key
    requires k <= |recipes| && Passed(key, recipes, k)
    ensures ScanRecipes(s, key, spec, layer, recipes, upgradeOnly, newer)
         == ScanRecipes(s, key, spec, layer, recipes[k..], upgradeOnly, newer)
    decreases k
  {
    if k > 0 {
      var recipe := Split(recipes[0], "_");
      TokenAvoidsUnderscore(recipes[0]);
      JoinedMatch(key, spec[1], recipe[0], recipe[1]);
      assert recipes[1..][k - 1..] == recipes[k..];
      assert Passed(key, recipes[1..], k - 1) by {
        forall m | 0 <= m < k - 1
          ensures |Split(recipes[1..][m], "_")| >= 2 && Token(recipes[1..][m]) != key
        {
          assert recipes[1..][m] == recipes[m + 1];
        }
      }
      SkipPassed(s, key, spec, layer, recipes[1..], k - 1, upgradeOnly, newer);
    }
  }

  /**
   * Within a layer the first recipe whose name token is the package key
   * decides everything, whatever the later recipes are: the package leaves
   * `missing` and enters `found`; an equal version writes an exact row
   * unless only upgrades are reported, even when the package was already
   * found in an earlier layer; a different version writes an outdated row
   * exactly when the required version is newer and the package was not found
   * before, whatever the upgrade flag.
   */
  lemma FirstNameMatchDecides(s: Scan, key: string, spec: seq<string>, layer: string, recipes: seq<string>,
                              k: nat, upgradeOnly: bool, newer: (string, string) -> bool)
    requires |spec| >= 2 && '_' !in key
    requires k < |recipes| && Passed(key, recipes, k)
    requires |Split(recipes[k], "_")| >= 2 && Token(recipes[k]) == key
    ensures var r := ScanRecipes(s, key, spec, layer, recipes, upgradeOnly, newer);
            var version := Split(recipes[k], "_")[1];
            && r.raised == s.raised
            && r.found == s.found[key := spec[1]]
            && r.missing == Del(s.missing, key)
            && (version == spec[1] ==>
                  r.rows == s.rows + (if upgradeOnly then [] else [Exact(key, spec[1], layer)]))
            && (version != spec[1] ==>
                  r.rows == s.rows + (if newer(spec[1], version) && key !in s.found
                                      then [Outdated(key, spec[1], version, layer)] else []))
  {
    SkipPassed(s, key, spec, layer, recipes, k, upgradeOnly, newer);
    var recipe := Split(recipes[k], "_");
    TokenAvoidsUnderscore(recipes[k]);
    JoinedMatch(key, spec[1], recipe[0], recipe[1]);
    assert recipes[k..][0] == recipes[k];
  }

  /**
   * When no recipe of the layer names the package (the `for ... else`), the
   * package is recorded as missing with the required version, unless it was
   * already found; nothing is written.
   */
  lemma NoNameMatch(s: Scan, key: string, spec: seq<string>, layer: string, recipes: seq<string>,
                    upgradeOnly: bool, newer: (string, string) -> bool)
    requires |spec| >= 2 && '_' !in key
    requires Passed(key, recipes, |recipes|)
    ensures ScanRecipes(s, key, spec, layer, recipes, upgradeOnly, newer)
         == if key in s.found then s else s.(missing := Put(s.missing, key, spec[1]))
  {
    SkipPassed(s, key, spec, layer, recipes, |recipes|, upgradeOnly, newer);
  }

  /** `missing` is a proper dictionary and shares no key with `found`. */
  ghost predicate Disjoint(s: Scan) {
    Valid(s.missing) && forall x :: x in Keys(s.missing) ==> x !in s.found
  }

  ghost predicate NoMissingRows(rows: seq<Row>) {
    forall i :: 0 <= i < |rows| ==> !rows[i].Missing?
  }

  ghost predicate OnlyUpgrades(rows: seq<Row>, newer: (string, string) -> bool) {
    forall i :: 0 <= i < |rows| ==> rows[i].Outdated? && newer(rows[i].required, rows[i].found)
  }

  /** What holds of the state between any two steps of the scan. */
  ghost predicate Sound(s: Scan, upgradeOnly: bool, newer: (string, string) -> bool) {
    Disjoint(s) && NoMissingRows(s.rows) && (upgradeOnly ==> OnlyUpgrades(s.rows, newer))
  }

  /** Found packages stay found, rows are only appended, and a raised error ends the run. */
  ghost predicate Grows(s: Scan, r: Scan) {
    s.found.Keys <= r.found.Keys && s.rows <= r.rows && (s.raised ==> r == s)
  }

  /** The package is either found or awaiting the missing report. */
  ghost predicate Settled(s: Scan, x: string) {
    x in Keys(s.missing) || x in s.found
  }

  ghost predicate OfferedIn(recipes: seq<string>, x: string) {
    exists m :: 0 <= m < |recipes| && Token(recipes[m]) == x
  }

  ghost predicate Offered(layers: seq<Layer>, x: string) {
    exists i :: 0 <= i < |layers| && OfferedIn(RecipeNames(layers[i].files), x)
  }

  ghost predicate Required(requirements: seq<string>, x: string) {
    exists j :: 0 <= j < |requirements| && RequirementKey(requirements[j]) == x
  }

  /** Past a recipe that does not name `x`, the rest of the layer offers `x` iff the layer does. */
  lemma OfferedCons(recipes: seq<string>, x: string)
    requires recipes != [] && Token(recipes[0]) != x
    ensures OfferedIn(recipes, x) <==> OfferedIn(recipes[1..], x)
  {
    if OfferedIn(recipes, x) {
      var m :| 0 <= m < |recipes| && Token(recipes[m]) == x;
      assert recipes[1..][m - 1] == recipes[m];
    }
    if OfferedIn(recipes[1..], x) {
      var m :| 0 <= m < |recipes[1..]| && Token(recipes[1..][m]) == x;
      assert recipes[m + 1] == recipes[1..][m];
    }
  }

  lemma RowsSound(rows: seq<Row>, added: seq<Row>, upgradeOnly: bool, newer: (string, string) -> bool)
    requires NoMissingRows(rows) && NoMissingRows(added)
    requires upgradeOnly ==> OnlyUpgrades(rows, newer) && OnlyUpgrades(added, newer)
    ensures NoMissingRows(rows + added) && (upgradeOnly ==> OnlyUpgrades(rows + added, newer))
  {
  }

  /** A match (exact or by name) keeps the state sound. */
  lemma MatchSound(s: Scan, key: string, version: string, added: seq<Row>, upgradeOnly: bool, newer: (string, string) -> bool)
    requires Sound(s, upgradeOnly, newer) && NoMissingRows(added) && (upgradeOnly ==> OnlyUpgrades(added, newer))
    ensures Sound(s.(missing := Del(s.missing, key), found := s.found[key := version], rows := s.rows + added),
                  upgradeOnly, newer)
  {
    DelValid(s.missing, key);
    RowsSound(s.rows, added, upgradeOnly, newer);
  }

  /** A miss in every recipe keeps the state sound. */
  lemma MissSound(s: Scan, key: string, version: string, upgradeOnly: bool, newer: (string, string) -> bool)
    requires Sound(s, upgradeOnly, newer) && key !in s.found
    ensures Sound(s.(missing := Put(s.missing, key, version)), upgradeOnly, newer)
  {
    PutValid(s.missing, key, version);
    PutKeys(s.missing, key, version);
  }

  /**
   * The shapes one requirement's scan of a layer can take: it raises; it
   * changes nothing because the package is already found; it records a miss
   * of a package the layer does not offer; or it matches, moving the package
   * from `missing` to `found` and appending rows that are never missing rows
   * and, in upgrade-only mode, only upgrades.
   */
  lemma {:induction false} StopCases(s: Scan, key: string, spec: seq<string>, layer: string, recipes: seq<string>,
                  upgradeOnly: bool, newer: (string, string) -> bool)
    requires '_' !in key
    ensures var r := ScanRecipes(s, key, spec, layer, recipes, upgradeOnly, newer);
            || r == s.(raised := true)
            || (r == s && key in s.found)
            || (|spec| >= 2 && key !in s.found && !OfferedIn(recipes, key)
                && r == s.(missing := Put(s.missing, key, spec[1])))
            || (|spec| >= 2 && s.rows <= r.rows && OfferedIn(recipes, key)
                && r == s.(missing := Del(s.missing, key), found := s.found[key := spec[1]], rows := r.rows)
                && NoMissingRows(r.rows[|s.rows|..])
                && (upgradeOnly ==> OnlyUpgrades(r.rows[|s.rows|..], newer)))
    decreases |recipes|
  {
    if recipes != [] && |spec| >= 2 {
      var recipe := Split(recipes[0], "_");
      if |recipe| >= 2 {
        TokenAvoidsUnderscore(recipes[0]);
        JoinedMatch(key, spec[1], recipe[0], recipe[1]);
        if key == recipe[0] {
          var r := ScanRecipes(s, key, spec, layer, recipes, upgradeOnly, newer);
          var added := if spec[1] == recipe[1] then (if upgradeOnly then [] else [Exact(key, spec[1], layer)])
                       else if newer(spec[1], recipe[1]) && key !in s.found
                       then [Outdated(key, spec[1], recipe[1], layer)] else [];
          assert r.rows == s.rows + added;
          assert r.rows[|s.rows|..] == added;
          assert Token(recipes[0]) == key;
        } else {
          StopCases(s, key, spec, layer, recipes[1..], upgradeOnly, newer);
          OfferedCons(recipes, key);
        }
      }
    }
  }

  /** `StopCases` for a whole specifier, including the case where an earlier error ended the run. */
  lemma RequirementCases(s: Scan, requirement: string, layer: string, recipes: seq<string>,
                         upgradeOnly: bool, newer: (string, string) -> bool)
    ensures var r := ScanRequirement(s, requirement, layer, recipes, upgradeOnly, newer);
            var key := RequirementKey(requirement);
            var spec := Split(requirement, "==");
            || (s.raised && r == s)
            || (!s.raised && r == s.(raised := true))
            || (!s.raised && r == s && key in s.found)
            || (!s.raised && |spec| >= 2 && key !in s.found && !OfferedIn(recipes, key)
                && r == s.(missing := Put(s.missing, key, spec[1])))
            || (!s.raised && |spec| >= 2 && s.rows <= r.rows && OfferedIn(recipes, key)
                && r == s.(missing := Del(s.missing, key), found := s.found[key := spec[1]], rows := r.rows)
                && NoMissingRows(r.rows[|s.rows|..])
                && (upgradeOnly ==> OnlyUpgrades(r.rows[|s.rows|..], newer)))
  {
    if !s.raised {
      var spec := Split(requirement, "==");
      StopCases(s, PackageKey(spec[0]), spec, layer, recipes, upgradeOnly, newer);
    }
  }

  /** One requirement against one layer keeps the state sound. */
  lemma RequirementSound(s: Scan, requirement: string, layer: string, recipes: seq<string>,
                         upgradeOnly: bool, newer: (string, string) -> bool)
    requires Sound(s, upgradeOnly, newer)
    ensures Sound(ScanRequirement(s, requirement, layer, recipes, upgradeOnly, newer), upgradeOnly, newer)
  {
    RequirementCases(s, requirement, layer, recipes, upgradeOnly, newer);
    var r := ScanRequirement(s, requirement, layer, recipes, upgradeOnly, newer);
    var key := RequirementKey(requirement);
    var spec := Split(requirement, "==");
    if |spec| >= 2 && r == s.(missing := Put(s.missing, key, spec[1])) && key !in s.found {
      MissSound(s, key, spec[1], upgradeOnly, newer);
    } else if |spec| >= 2 && s.rows <= r.rows
              && r == s.(missing := Del(s.missing, key), found := s.found[key := spec[1]], rows := r.rows) {
      var added := r.rows[|s.rows|..];
      assert r.rows == s.rows + added;
      MatchSound(s, key, spec[1], added, upgradeOnly, newer);
    }
  }

  /** One requirement against one layer only grows the state. */
  lemma RequirementGrows(s: Scan, requirement: string, layer: string, recipes: seq<string>,
                         upgradeOnly: bool, newer: (string, string) -> bool)
    ensures Grows(s, ScanRequirement(s, requirement, layer, recipes, upgradeOnly, newer))
  {
    RequirementCases(s, requirement, layer, recipes, upgradeOnly, newer);
  }

  /** One requirement against one layer only touches that requirement's key. */
  lemma RequirementFrame(s: Scan, requirement: string, layer: string, recipes: seq<string>,
                         upgradeOnly: bool, newer: (string, string) -> bool)
    ensures var r := ScanRequirement(s, requirement, layer, recipes, upgradeOnly, newer);
            var key := RequirementKey(requirement);
            && (forall x :: x in Keys(r.missing) ==> x in Keys(s.missing) || x == key)
            && (forall x :: x in r.found ==> x in s.found || x == key)
            && (key in r.found && key !in s.found ==> OfferedIn(recipes, key))
  {
    RequirementCases(s, requirement, layer, recipes, upgradeOnly, newer);
    var r := ScanRequirement(s, requirement, layer, recipes, upgradeOnly, newer);
    var key := RequirementKey(requirement);
    var spec := Split(requirement, "==");
    if |spec| >= 2 && r == s.(missing := Put(s.missing, key, spec[1])) {
      PutKeys(s.missing, key, spec[1]);
    } else if |spec| >= 2 && r == s.(missing := Del(s.missing, key), found := s.found[key := spec[1]], rows := r.rows) {
      assert Keys(r.missing) == Without(Keys(s.missing), key);
    }
  }

  /**
   * One requirement against one layer leaves every settled package settled,
   * settles its own key, and finds it when the layer offers it.
   */
  lemma RequirementSettle(s: Scan, requirement: string, layer: string, recipes: seq<string>,
                          upgradeOnly: bool, newer: (string, string) -> bool)
    ensures var r := ScanRequirement(s, requirement, layer, recipes, upgradeOnly, newer);
            var key := RequirementKey(requirement);
            && (forall x :: Settled(s, x) ==> Settled(r, x))
            && (!r.raised && !s.raised ==> Settled(r, key))
            && (!r.raised && !s.raised && OfferedIn(recipes, key) ==> key in r.found)
  {
    RequirementCases(s, requirement, layer, recipes, upgradeOnly, newer);
    var spec := Split(requirement, "==");
    if |spec| >= 2 {
      PutKeys(s.missing, RequirementKey(requirement), spec[1]);
    }
  }

  lemma {:induction false} RequirementsSound(s: Scan, requirements: seq<string>, layer: string, recipes: seq<string>,
                                             upgradeOnly: bool, newer: (string, string) -> bool)
    requires Sound(s, upgradeOnly, newer)
    ensures Sound(ScanRequirements(s, requirements, layer, recipes, upgradeOnly, newer), upgradeOnly, newer)
    decreases |requirements|
  {
    if requirements != [] {
      var n := |requirements| - 1;
      var t := ScanRequirements(s, requirements[..n], layer, recipes, upgradeOnly, newer);
      RequirementsSound(s, requirements[..n], layer, recipes, upgradeOnly, newer);
      RequirementSound(t, requirements[n], layer, recipes, upgradeOnly, newer);
    }
  }

  lemma {:induction false} RequirementsGrows(s: Scan, requirements: seq<string>, layer: string, recipes: seq<string>,
                                             upgradeOnly: bool, newer: (string, string) -> bool)
    ensures Grows(s, ScanRequirements(s, requirements, layer, recipes, upgradeOnly, newer))
    decreases |requirements|
  {
    if requirements != [] {
      var n := |requirements| - 1;
      var t := ScanRequirements(s, requirements[..n], layer, recipes, upgradeOnly, newer);
      RequirementsGrows(s, requirements[..n], layer, recipes, upgradeOnly, newer);
      RequirementGrows(t, requirements[n], layer, recipes, upgradeOnly, newer);
    }
  }

  lemma RequiredPrefix(requirements: seq<string>, n: nat)
    requires n <= |requirements|
    ensures forall x :: Required(requirements[..n], x) ==> Required(requirements, x)
    ensures n < |requirements| ==> Required(requirements, RequirementKey(requirements[n]))
  {
    forall x | Required(requirements[..n], x) ensures Required(requirements, x) {
      var j :| 0 <= j < n && RequirementKey(requirements[..n][j]) == x;
      assert requirements[j] == requirements[..n][j];
    }
  }

  lemma {:induction false} RequirementsFrame(s: Scan, requirements: seq<string>, layer: string, recipes: seq<string>,
                                             upgradeOnly: bool, newer: (string, string) -> bool)
    ensures var r := ScanRequirements(s, requirements, layer, recipes, upgradeOnly, newer);
            && (forall x :: x in Keys(r.missing) ==> x in Keys(s.missing) || Required(requirements, x))
            && (forall x :: x in r.found ==> x in s.found || Required(requirements, x))
            && (forall x :: x in r.found && x !in s.found ==> OfferedIn(recipes, x))
    decreases |requirements|
  {
    if requirements != [] {
      var n := |requirements| - 1;
      var front := requirements[..n];
      var t := ScanRequirements(s, front, layer, recipes, upgradeOnly, newer);
      var r := ScanRequirement(t, requirements[n], layer, recipes, upgradeOnly, newer);
      assert ScanRequirements(s, requirements, layer, recipes, upgradeOnly, newer) == r;
      RequirementsFrame(s, front, layer, recipes, upgradeOnly, newer);
      RequirementFrame(t, requirements[n], layer, recipes, upgradeOnly, newer);
      RequiredPrefix(requirements, n);
    }
  }

  /** Settled packages stay settled through a layer. */
  lemma {:induction false} RequirementsKeep(s: Scan, requirements: seq<string>, layer: string, recipes: seq<string>,
                                            upgradeOnly: bool, newer: (string, string) -> bool)
    ensures forall x :: Settled(s, x) ==> Settled(ScanRequirements(s, requirements, layer, recipes, upgradeOnly, newer), x)
    decreases |requirements|
  {
    if requirements != [] {
      var n := |requirements| - 1;
      var t := ScanRequirements(s, requirements[..n], layer, recipes, upgradeOnly, newer);
      RequirementsKeep(s, requirements[..n], layer, recipes, upgradeOnly, newer);
      RequirementSettle(t, requirements[n], layer, recipes, upgradeOnly, newer);
    }
  }

  /** After a layer that raises nothing, every requirement's package is settled. */
  lemma {:induction false} RequirementsSettle(s: Scan, requirements: seq<string>, layer: string, recipes: seq<string>,
                                              upgradeOnly: bool, newer: (string, string) -> bool)
    ensures var r := ScanRequirements(s, requirements, layer, recipes, upgradeOnly, newer);
            !r.raised ==> forall j :: 0 <= j < |requirements| ==> Settled(r, RequirementKey(requirements[j]))
    decreases |requirements|
  {
    if requirements != [] {
      var n := |requirements| - 1;
      var front := requirements[..n];
      var t := ScanRequirements(s, front, layer, recipes, upgradeOnly, newer);
      var r := ScanRequirement(t, requirements[n], layer, recipes, upgradeOnly, newer);
      assert ScanRequirements(s, requirements, layer, recipes, upgradeOnly, newer) == r;
      RequirementsSettle(s, front, layer, recipes, upgradeOnly, newer);
      RequirementSettle(t, requirements[n], layer, recipes, upgradeOnly, newer);
      if !r.raised {
        forall j | 0 <= j < |requirements| ensures Settled(r, RequirementKey(requirements[j])) {
          if j < n {
            assert requirements[j] == front[j];
          }
        }
      }
    }
  }

  /** After a layer that raises nothing, every requirement the layer offers is found. */
  lemma {:induction false} RequirementsFind(s: Scan, requirements: seq<string>, layer: string, recipes: seq<string>,
                                            upgradeOnly: bool, newer: (string, string) -> bool)
    ensures var r := ScanRequirements(s, requirements, layer, recipes, upgradeOnly, newer);
            !r.raised ==> forall x :: Required(requirements, x) && OfferedIn(recipes, x) ==> x in r.found
    decreases |requirements|
  {
    if requirements != [] {
      var n := |requirements| - 1;
      var front := requirements[..n];
      var t := ScanRequirements(s, front, layer, recipes, upgradeOnly, newer);
      var r := ScanRequirement(t, requirements[n], layer, recipes, upgradeOnly, newer);
      assert ScanRequirements(s, requirements, layer, recipes, upgradeOnly, newer) == r;
      RequirementsFind(s, front, layer, recipes, upgradeOnly, newer);
      RequirementSettle(t, requirements[n], layer, recipes, upgradeOnly, newer);
      RequirementGrows(t, requirements[n], layer, recipes, upgradeOnly, newer);
      if !r.raised {
        forall x | Required(requirements, x) && OfferedIn(recipes, x) ensures x in r.found {
          var j :| 0 <= j < |requirements| && RequirementKey(requirements[j]) == x;
          if j < n {
            assert requirements[j] == front[j];
            assert Required(front, x);
          }
        }
      }
    }
  }

  lemma {:induction false} LayersSound(s: Scan, requirements: seq<string>, layers: seq<Layer>,
                                       upgradeOnly: bool, newer: (string, string) -> bool)
    requires Sound(s, upgradeOnly, newer)
    ensures Sound(ScanLayers(s, requirements, layers, upgradeOnly, newer), upgradeOnly, newer)
    decreases |layers|
  {
    if layers != [] {
      var n := |layers| - 1;
      LayersSound(s, requirements, layers[..n], upgradeOnly, newer);
      var t := ScanLayers(s, requirements, layers[..n], upgradeOnly, newer);
      RequirementsSound(t, requirements, layers[n].name, RecipeNames(layers[n].files), upgradeOnly, newer);
    }
  }

  lemma {:induction false} LayersGrows(s: Scan, requirements: seq<string>, layers: seq<Layer>,
                                       upgradeOnly: bool, newer: (string, string) -> bool)
    ensures Grows(s, ScanLayers(s, requirements, layers, upgradeOnly, newer))
    decreases |layers|
  {
    if layers != [] {
      var n := |layers| - 1;
      LayersGrows(s, requirements, layers[..n], upgradeOnly, newer);
      var t := ScanLayers(s, requirements, layers[..n], upgradeOnly, newer);
      RequirementsGrows(t, requirements, layers[n].name, RecipeNames(layers[n].files), upgradeOnly, newer);
    }
  }

  lemma {:induction false} LayersFrame(s: Scan, requirements: seq<string>, layers: seq<Layer>,
                                       upgradeOnly: bool, newer: (string, string) -> bool)
    ensures var r := ScanLayers(s, requirements, layers, upgradeOnly, newer);
            && (forall x :: x in Keys(r.missing) ==> x in Keys(s.missing) || Required(requirements, x))
            && (forall x :: x in r.found ==> x in s.found || Required(requirements, x))
            && (forall x :: x in r.found && x !in s.found ==> Offered(layers, x))
    decreases |layers|
  {
    if layers != [] {
      var n := |layers| - 1;
      var front := layers[..n];
      var t := ScanLayers(s, requirements, front, upgradeOnly, newer);
      var r := ScanLayers(s, requirements, layers, upgradeOnly, newer);
      LayersFrame(s, requirements, front, upgradeOnly, newer);
      RequirementsFrame(t, requirements, layers[n].name, RecipeNames(layers[n].files), upgradeOnly, newer);
      forall x | x in r.found && x !in s.found ensures Offered(layers, x) {
        if x in t.found {
          var i :| 0 <= i < |front| && OfferedIn(RecipeNames(front[i].files), x);
          assert front[i] == layers[i];
        } else {
          assert OfferedIn(RecipeNames(layers[n].files), x);
        }
      }
    }
  }

  /** After a run over at least one layer, every required package is settled. */
  lemma LayersSettle(s: Scan, requirements: seq<string>, layers: seq<Layer>,
                     upgradeOnly: bool, newer: (string, string) -> bool)
    requires layers != []
    ensures var r := ScanLayers(s, requirements, layers, upgradeOnly, newer);
            !r.raised ==> forall j :: 0 <= j < |requirements| ==> Settled(r, RequirementKey(requirements[j]))
  {
    var n := |layers| - 1;
    var t := ScanLayers(s, requirements, layers[..n], upgradeOnly, newer);
    var r := ScanRequirements(t, requirements, layers[n].name, RecipeNames(layers[n].files), upgradeOnly, newer);
    assert ScanLayers(s, requirements, layers, upgradeOnly, newer) == r;
    RequirementsSettle(t, requirements, layers[n].name, RecipeNames(layers[n].files), upgradeOnly, newer);
  }

  /** A required package that some layer offers is found by a run that raises nothing. */
  lemma {:induction false} LayersFind(s: Scan, requirements: seq<string>, layers: seq<Layer>,
                                      upgradeOnly: bool, newer: (string, string) -> bool)
    ensures var r := ScanLayers(s, requirements, layers, upgradeOnly, newer);
            !r.raised ==> forall x :: Required(requirements, x) && Offered(layers, x) ==> x in r.found
    decreases |layers|
  {
    if layers != [] {
      var n := |layers| - 1;
      var front := layers[..n];
      var recipes := RecipeNames(layers[n].files);
      var t := ScanLayers(s, requirements, front, upgradeOnly, newer);
      var r := ScanRequirements(t, requirements, layers[n].name, recipes, upgradeOnly, newer);
      assert ScanLayers(s, requirements, layers, upgradeOnly, newer) == r;
      LayersFind(s, requirements, front, upgradeOnly, newer);
      RequirementsGrows(t, requirements, layers[n].name, recipes, upgradeOnly, newer);
      RequirementsFind(t, requirements, layers[n].name, recipes, upgradeOnly, newer);
      OfferedSplit(layers);
    }
  }

  /** A package offered by some layer is offered by the last one or by one before it. */
  lemma OfferedSplit(layers: seq<Layer>)
    requires layers != []
    ensures forall x :: Offered(layers, x) ==>
              Offered(layers[..|layers| - 1], x) || OfferedIn(RecipeNames(layers[|layers| - 1].files), x)
  {
    var n := |layers| - 1;
    forall x | Offered(layers, x)
      ensures Offered(layers[..n], x) || OfferedIn(RecipeNames(layers[n].files), x)
    {
      var i :| 0 <= i < |layers| && OfferedIn(RecipeNames(layers[i].files), x);
      if i < n {
        assert layers[..n][i] == layers[i];
      }
    }
  }

  lemma StartSound(upgradeOnly: bool, newer: (string, string) -> bool)
    ensures Sound(Start, upgradeOnly, newer)
  {
    assert Keys(Start.missing) == [];
  }

  /**
   * Once a package has been found in the first `i` layers it stays found and
   * never re-enters `missing`; `found` and `missing` never share a key.
   */
  lemma FoundStaysFound(requirements: seq<string>, layers: seq<Layer>, i: nat,
                        upgradeOnly: bool, newer: (string, string) -> bool)
    requires i <= |layers|
    ensures var before := ScanLayers(Start, requirements, layers[..i], upgradeOnly, newer);
            var after := ScanLayers(Start, requirements, layers, upgradeOnly, newer);
            && Disjoint(after)
            && forall x :: x in before.found ==> x in after.found && x !in Keys(after.missing)
  {
    StartSound(upgradeOnly, newer);
    var before := ScanLayers(Start, requirements, layers[..i], upgradeOnly, newer);
    LayersSound(Start, requirements, layers[..i], upgradeOnly, newer);
    LayersSound(before, requirements, layers[i..], upgradeOnly, newer);
    LayersGrows(before, requirements, layers[i..], upgradeOnly, newer);
    LayersAppend(Start, requirements, layers[..i], layers[i..], upgradeOnly, newer);
    assert layers[..i] + layers[i..] == layers;
  }

  /** Scanning two runs of layers is scanning one after the other. */
  lemma {:induction false} LayersAppend(s: Scan, requirements: seq<string>, a: seq<Layer>, b: seq<Layer>,
                                        upgradeOnly: bool, newer: (string, string) -> bool)
    ensures ScanLayers(s, requirements, a + b, upgradeOnly, newer)
         == ScanLayers(ScanLayers(s, requirements, a, upgradeOnly, newer), requirements, b, upgradeOnly, newer)
    decreases |b|
  {
    if b == [] {
      assert a + b == a;
    } else {
      var n := |b| - 1;
      assert (a + b)[..|a + b| - 1] == a + b[..n];
      LayersAppend(s, requirements, a, b[..n], upgradeOnly, newer);
    }
  }

  /** With the upgrade flag set, every row written is an outdated row whose required version is newer. */
  lemma UpgradeOnlyReport(requirements: seq<string>, layers: seq<Layer>, newer: (string, string) -> bool)
    ensures var rows := Reconcile(requirements, layers, true, newer).rows;
            forall i :: 0 <= i < |rows| ==> rows[i].Outdated? && newer(rows[i].required, rows[i].found)
  {
    StartSound(true, newer);
    LayersSound(Start, requirements, layers, true, newer);
  }

  /** The outdated rows of a row log, in order: what line 109 writes whatever the flag. */
  function OutdatedOnly(rows: seq<Row>): (r: seq<Row>)
    ensures |r| <= |rows|
    ensures forall i :: 0 <= i < |r| ==> r[i].Outdated?
  {
    if rows == [] then []
    else
      var n := |rows| - 1;
      OutdatedOnly(rows[..n]) + (if rows[n].Outdated? then [rows[n]] else [])
  }

  /** Filtering a log written in two parts filters each part. */
  lemma {:induction false} OutdatedOnlyAppend(a: seq<Row>, b: seq<Row>)
    ensures OutdatedOnly(a + b) == OutdatedOnly(a) + OutdatedOnly(b)
    decreases |b|
  {
    if b == [] {
      assert a + b == a;
    } else {
      var n := |b| - 1;
      var last := if b[n].Outdated? then [b[n]] else [];
      assert (a + b)[..|a| + n] == a + b[..n];
      assert (a + b)[|a| + n] == b[n];
      OutdatedOnlyAppend(a, b[..n]);
      assert OutdatedOnly(a) + (OutdatedOnly(b[..n]) + last) == (OutdatedOnly(a) + OutdatedOnly(b[..n])) + last;
    }
  }

  /** The flush writes no outdated row. */
  lemma OutdatedOnlyMissing(d: seq<(string, string)>)
    ensures OutdatedOnly(MissingRows(d)) == []
  {
    var rows := MissingRows(d);
    if OutdatedOnly(rows) != [] {
      OutdatedFrom(rows, 0);
    }
  }

  /** Every row the filter keeps is a row of the log. */
  lemma {:induction false} OutdatedFrom(rows: seq<Row>, i: nat)
    requires i < |OutdatedOnly(rows)|
    ensures OutdatedOnly(rows)[i] in rows
    decreases |rows|
  {
    var n := |rows| - 1;
    if i < |OutdatedOnly(rows[..n])| {
      OutdatedFrom(rows[..n], i);
    }
  }

  /**
   * An upgrade-only scan `t` beside a full scan `f` of the same input: the
   * same dictionaries and the same `IndexError`, and `t` has written exactly
   * the outdated rows of `f`.
   */
  ghost predicate Filtered(t: Scan, f: Scan) {
    t.missing == f.missing && t.found == f.found && t.raised == f.raised && t.rows == OutdatedOnly(f.rows)
  }

  lemma {:induction false} RecipesFiltered(t: Scan, f: Scan, key: string, spec: seq<string>, layer: string,
                                           recipes: seq<string>, newer: (string, string) -> bool)
    requires Filtered(t, f)
    ensures Filtered(ScanRecipes(t, key, spec, layer, recipes, true, newer),
                     ScanRecipes(f, key, spec, layer, recipes, false, newer))
    decreases |recipes|
  {
    if recipes != [] && |spec| >= 2 {
      var recipe := Split(recipes[0], "_");
      if |recipe| >= 2 {
        if key + "_" + spec[1] == recipe[0] + "_" + recipe[1] {
          OutdatedOnlyAppend(f.rows, [Exact(key, spec[1], layer)]);
          assert OutdatedOnly([Exact(key, spec[1], layer)]) == [];
          assert t.rows + [] == t.rows;
        } else if key == recipe[0] {
          var added := if newer(spec[1], recipe[1]) && key !in f.found then [Outdated(key, spec[1], recipe[1], layer)] else [];
          OutdatedOnlyAppend(f.rows, added);
          assert OutdatedOnly(added) == added;
        } else {
          RecipesFiltered(t, f, key, spec, layer, recipes[1..], newer);
        }
      }
    }
  }

  lemma {:induction false} RequirementsFiltered(t: Scan, f: Scan, requirements: seq<string>, layer: string,
                                                recipes: seq<string>, newer: (string, string) -> bool)
    requires Filtered(t, f)
    ensures Filtered(ScanRequirements(t, requirements, layer, recipes, true, newer),
                     ScanRequirements(f, requirements, layer, recipes, false, newer))
    decreases |requirements|
  {
    if requirements != [] {
      var n := |requirements| - 1;
      RequirementsFiltered(t, f, requirements[..n], layer, recipes, newer);
      var t' := ScanRequirements(t, requirements[..n], layer, recipes, true, newer);
      var f' := ScanRequirements(f, requirements[..n], layer, recipes, false, newer);
      if !f'.raised {
        var spec := Split(requirements[n], "==");
        RecipesFiltered(t', f', PackageKey(spec[0]), spec, layer, recipes, newer);
      }
    }
  }

  lemma {:induction false} LayersFiltered(t: Scan, f: Scan, requirements: seq<string>, layers: seq<Layer>,
                                          newer: (string, string) -> bool)
    requires Filtered(t, f)
    ensures Filtered(ScanLayers(t, requirements, layers, true, newer),
                     ScanLayers(f, requirements, layers, false, newer))
    decreases |layers|
  {
    if layers != [] {
      var n := |layers| - 1;
      LayersFiltered(t, f, requirements, layers[..n], newer);
      RequirementsFiltered(ScanLayers(t, requirements, layers[..n], true, newer),
                           ScanLayers(f, requirements, layers[..n], false, newer),
                           requirements, layers[n].name, RecipeNames(layers[n].files), newer);
    }
  }

  /**
   * The upgrade flag is a filter (line 15: "only print packages which need
   * upgrading"): an upgrade-only run writes exactly the outdated rows of the
   * full run on the same input, in the same order, and raises exactly when
   * the full run does.
   */
  lemma UpgradeOnlyFilters(requirements: seq<string>, layers: seq<Layer>, newer: (string, string) -> bool)
    ensures var full := Reconcile(requirements, layers, false, newer);
            Reconcile(requirements, layers, true, newer) == Report(OutdatedOnly(full.rows), full.raised)
  {
    assert Filtered(Start, Start);
    LayersFiltered(Start, Start, requirements, layers, newer);
    var f := ScanLayers(Start, requirements, layers, false, newer);
    if !f.raised {
      OutdatedOnlyAppend(f.rows, MissingRows(f.missing));
      OutdatedOnlyMissing(f.missing);
      assert OutdatedOnly(f.rows) + [] == OutdatedOnly(f.rows);
    }
  }

  /**
   * The flush after a scan that left `missing` a proper dictionary and wrote
   * no missing row: a package has a missing row iff it is a key of
   * `missing`, at most one, and the missing rows come last.
   */
  lemma FlushRows(s: Scan, rows: seq<Row>)
    requires Valid(s.missing) && NoMissingRows(s.rows)
    requires rows == s.rows + MissingRows(s.missing)
    ensures forall x :: (exists i :: 0 <= i < |rows| && rows[i].Missing? && rows[i].package == x) <==> x in Keys(s.missing)
    ensures forall i, j :: 0 <= i < j < |rows| && rows[i].Missing? && rows[j].Missing? ==> rows[i].package != rows[j].package
    ensures forall i, j :: 0 <= i < j < |rows| && rows[i].Missing? ==> rows[j].Missing?
  {
    var tail := MissingRows(s.missing);
    KeysAt(s.missing);
    assert forall i :: 0 <= i < |rows| ==> (rows[i].Missing? <==> i >= |s.rows|);
    forall x
      ensures (exists i :: 0 <= i < |rows| && rows[i].Missing? && rows[i].package == x) <==> x in Keys(s.missing)
    {
      if exists i :: 0 <= i < |rows| && rows[i].Missing? && rows[i].package == x {
        var i :| 0 <= i < |rows| && rows[i].Missing? && rows[i].package == x;
        assert rows[i] == tail[i - |s.rows|];
      }
      if x in Keys(s.missing) {
        var m :| 0 <= m < |s.missing| && Keys(s.missing)[m] == x;
        assert rows[|s.rows| + m] == tail[m];
      }
    }
    forall i, j | 0 <= i < j < |rows| && rows[i].Missing? && rows[j].Missing?
      ensures rows[i].package != rows[j].package
    {
      assert rows[i] == tail[i - |s.rows|] && rows[j] == tail[j - |s.rows|];
      assert Keys(s.missing)[i - |s.rows|] != Keys(s.missing)[j - |s.rows|];
    }
  }

  /**
   * After a run over at least one layer that raises nothing, the packages
   * left in `missing` are exactly those some requirement names and no layer
   * has a recipe for.
   */
  lemma MissingKeys(requirements: seq<string>, layers: seq<Layer>, upgradeOnly: bool, newer: (string, string) -> bool)
    requires layers != []
    requires !ScanLayers(Start, requirements, layers, upgradeOnly, newer).raised
    ensures var s := ScanLayers(Start, requirements, layers, upgradeOnly, newer);
            forall x :: x in Keys(s.missing) <==> Required(requirements, x) && !Offered(layers, x)
  {
    StartSound(upgradeOnly, newer);
    LayersSound(Start, requirements, layers, upgradeOnly, newer);
    LayersFrame(Start, requirements, layers, upgradeOnly, newer);
    LayersSettle(Start, requirements, layers, upgradeOnly, newer);
    LayersFind(Start, requirements, layers, upgradeOnly, newer);
    var s := ScanLayers(Start, requirements, layers, upgradeOnly, newer);
    forall x | Required(requirements, x) && !Offered(layers, x)
      ensures x in Keys(s.missing)
    {
      var j :| 0 <= j < |requirements| && RequirementKey(requirements[j]) == x;
      assert Settled(s, RequirementKey(requirements[j]));
    }
  }

  /**
   * A full run without the upgrade flag, over at least one layer: a package
   * is reported missing exactly when some requirement names it and no layer
   * has a recipe for it; it is reported at most once; missing rows come after
   * every other row.
   */
  lemma MissingReport(requirements: seq<string>, layers: seq<Layer>, newer: (string, string) -> bool)
    requires layers != []
    requires !Reconcile(requirements, layers, false, newer).raised
    ensures var rows := Reconcile(requirements, layers, false, newer).rows;
            && (forall x :: (exists i :: 0 <= i < |rows| && rows[i].Missing? && rows[i].package == x) <==>
                             Required(requirements, x) && !Offered(layers, x))
            && (forall i, j :: 0 <= i < j < |rows| && rows[i].Missing? && rows[j].Missing? ==>
                                 rows[i].package != rows[j].package)
            && (forall i, j :: 0 <= i < j < |rows| && rows[i].Missing? ==> rows[j].Missing?)
  {
    var s := ScanLayers(Start, requirements, layers, false, newer);
    StartSound(false, newer);
    LayersSound(Start, requirements, layers, false, newer);
    MissingKeys(requirements, layers, false, newer);
    FlushRows(s, Reconcile(requirements, layers, false, newer).rows);
  }
}
