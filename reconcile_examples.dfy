/**
 * The reconciler on one requirement and one or two layers, for any
 * package name and versions of the plain form below. They pin down the
 * string rules (specifier and recipe splitting, the `.bb` character strip,
 * key normalisation) and the rows written across layers, including the
 * cases where the script writes more rows than a first-match-wins reading
 * suggests, and those where it raises.
 */
module ReconcileExamples {
  import opened Text
  import opened OrderedDict
  import opened Reconciler
  import opened ReconcileProperties

  /** A package name in lower case without `_` or `=`, such as `requests`. */
  predicate PlainName(name: string) {
    '_' !in name && '=' !in name && forall i :: 0 <= i < |name| ==> !IsUpper(name[i])
  }

  /** A version without `_` or `=` that does not end in `.` or `b`, such as `2.31.0`. */
  predicate PlainVersion(v: string) {
    v != [] && '_' !in v && '=' !in v && v[|v| - 1] !in ".bb"
  }

  /** The file name of the recipe for `name` at `version`: `python3-name_version.bb`. */
  function RecipeFile(name: string, version: string): string {
    "python3-" + name + "_" + version + ".bb"
  }

  /** `name==version` with no `=` in either part splits into exactly the two parts. */
  lemma SpecifierSplit(name: string, version: string)
    requires '=' !in name && '=' !in version
    ensures Split(name + "==" + version, "==") == [name, version]
  {
    SplitAtFirst(name, "==", version);
    SplitWithoutSep(version, "==");
  }

  /** `token_version` with no `_` in either part splits into exactly the two parts. */
  lemma RecipeSplit(token: string, version: string)
    requires '_' !in token && '_' !in version
    ensures Split(token + "_" + version, "_") == [token, version]
  {
    SplitAtFirst(token, "_", version);
    SplitWithoutSep(version, "_");
  }

  /** A plain name only gains the `python3-` prefix. */
  lemma KeyOfPlainName(name: string)
    requires PlainName(name)
    ensures PackageKey(name) == "python3-" + name
  {
    LowerFixed(name);
    ReplaceFixed(name, '_', '-');
  }

  /** A requirement `name==version` is looked up by `python3-name` and asks for `version`. */
  lemma PlainRequirement(name: string, version: string)
    requires PlainName(name) && PlainVersion(version)
    ensures Split(name + "==" + version, "==") == [name, version]
    ensures PackageKey(name) == "python3-" + name
  {
    SpecifierSplit(name, version);
    KeyOfPlainName(name);
  }

  /** The recipe names of a single file. */
  lemma RecipeNamesOne(f: string)
    ensures RecipeNames([f]) == if EndsWith(f, ".bb") then [Strip(f, ".bb")] else []
  {
    var files: seq<string> := [f];
    assert files[1..] == [];
  }

  /** A layer holding one `.bb` file has one recipe name: the file name with the `.b`-run stripped. */
  lemma OneRecipe(stem: string)
    requires stem != [] && stem[0] !in ".bb" && stem[|stem| - 1] !in ".bb"
    ensures RecipeNames([stem + ".bb"]) == [stem]
  {
    StripSuffix(stem, ".bb", ".bb");
    var f := stem + ".bb";
    assert f[|f| - 3..] == ".bb";
    RecipeNamesOne(f);
  }

  /** The recipe `python3-name_version.bb` is named `python3-name_version` and splits into the key and the version. */
  lemma PlainRecipe(name: string, version: string)
    requires PlainName(name) && PlainVersion(version)
    ensures RecipeNames([RecipeFile(name, version)]) == ["python3-" + name + "_" + version]
    ensures Split("python3-" + name + "_" + version, "_") == ["python3-" + name, version]
  {
    var stem := "python3-" + name + "_" + version;
    assert RecipeFile(name, version) == stem + ".bb";
    assert stem[0] == 'p' && stem[|stem| - 1] == version[|version| - 1];
    OneRecipe(stem);
    KeyOfPlainName(name);
    RecipeSplit(PackageKey(name), version);
  }

  /**
   * A version ending in `b` loses that letter: `strip(".bb")` removes any
   * run of `.` and `b` at either end of the file name, not the suffix.
   */
  lemma BetaLosesItsLetter(name: string, version: string)
    requires PlainName(name) && PlainVersion(version)
    ensures RecipeNames([RecipeFile(name, version + "b")]) == ["python3-" + name + "_" + version]
  {
    var stem := "python3-" + name + "_" + version;
    var f := stem + "b.bb";
    assert RecipeFile(name, version + "b") == f;
    assert stem[0] == 'p' && stem[|stem| - 1] == version[|version| - 1];
    StripSuffix(stem, "b.bb", ".bb");
    assert f[|f| - 3..] == ".bb";
    RecipeNamesOne(f);
  }

  /** One requirement against one layer. */
  lemma LayersOne(s: Scan, q: string, l: Layer, upgradeOnly: bool, newer: (string, string) -> bool)
    ensures ScanLayers(s, [q], [l], upgradeOnly, newer) == ScanRequirement(s, q, l.name, RecipeNames(l.files), upgradeOnly, newer)
  {
    var qs: seq<string> := [q];
    var ls: seq<Layer> := [l];
    assert qs[..0] == [] && ls[..0] == [];
    assert ScanLayers(s, qs, ls[..0], upgradeOnly, newer) == s;
    assert ScanRequirements(s, qs[..0], l.name, RecipeNames(l.files), upgradeOnly, newer) == s;
    assert ScanRequirements(s, qs, l.name, RecipeNames(l.files), upgradeOnly, newer)
        == ScanRequirement(s, q, l.name, RecipeNames(l.files), upgradeOnly, newer);
  }

  /** One requirement against two layers. */
  lemma LayersTwo(s: Scan, q: string, l1: Layer, l2: Layer, upgradeOnly: bool, newer: (string, string) -> bool)
    ensures ScanLayers(s, [q], [l1, l2], upgradeOnly, newer)
         == ScanRequirement(ScanRequirement(s, q, l1.name, RecipeNames(l1.files), upgradeOnly, newer),
                            q, l2.name, RecipeNames(l2.files), upgradeOnly, newer)
  {
    var ls: seq<Layer> := [l1, l2];
    assert ls[..1] == [l1];
    LayersOne(s, q, l1, upgradeOnly, newer);
    var t := ScanRequirement(s, q, l1.name, RecipeNames(l1.files), upgradeOnly, newer);
    assert ScanLayers(s, [q], ls, upgradeOnly, newer) == ScanLayer(t, [q], l2, upgradeOnly, newer);
    var qs: seq<string> := [q];
    assert qs[..0] == [];
    assert ScanRequirements(t, qs[..0], l2.name, RecipeNames(l2.files), upgradeOnly, newer) == t;
  }

  /** A plain requirement against a layer with one recipe `token_version`. */
  lemma RequirementOneRecipe(s: Scan, name: string, required: string, layer: string, recipe: string,
                             token: string, version: string, upgradeOnly: bool, newer: (string, string) -> bool)
    requires PlainName(name) && PlainVersion(required) && !s.raised
    requires '_' !in token && Split(recipe, "_") == [token, version]
    ensures var key := "python3-" + name;
            (ScanRequirement(s, name + "==" + required, layer, [recipe], upgradeOnly, newer)
             == if key != token then (if key in s.found then s else s.(missing := Put(s.missing, key, required)))
                else s.(missing := Del(s.missing, key), found := s.found[key := required],
                        rows := s.rows + if version == required then (if upgradeOnly then [] else [Exact(key, required, layer)])
                                         else if newer(required, version) && key !in s.found
                                         then [Outdated(key, required, version, layer)] else []))
  {
    PlainRequirement(name, required);
    var key := "python3-" + name;
    var spec := [name, required];
    assert '_' !in key;
    JoinedMatch(key, required, token, version);
    var rs: seq<string> := [recipe];
    assert rs[1..] == [];
    assert ScanRequirement(s, name + "==" + required, layer, rs, upgradeOnly, newer)
        == ScanRecipes(s, key, spec, layer, rs, upgradeOnly, newer);
    if key != token {
      assert ScanRecipes(s, key, spec, layer, rs, upgradeOnly, newer)
          == ScanRecipes(s, key, spec, layer, [], upgradeOnly, newer);
    }
  }

  /** A layer whose one recipe is an older version of a package not yet found writes an outdated row. */
  lemma OutdatedStep(s: Scan, name: string, required: string, older: string, layer: string,
                     upgradeOnly: bool, newer: (string, string) -> bool)
    requires PlainName(name) && PlainVersion(required) && PlainVersion(older) && !s.raised
    requires older != required && newer(required, older) && "python3-" + name !in s.found
    ensures var key := "python3-" + name;
            (ScanRequirement(s, name + "==" + required, layer, RecipeNames([RecipeFile(name, older)]), upgradeOnly, newer)
             == s.(missing := Del(s.missing, key), found := s.found[key := required],
                   rows := s.rows + [Outdated(key, required, older, layer)]))
  {
    KeyOfPlainName(name);
    PlainRecipe(name, older);
    var key := "python3-" + name;
    RequirementOneRecipe(s, name, required, layer, key + "_" + older, key, older, upgradeOnly, newer);
  }

  /** A layer whose one recipe is the required version writes an exact row, unless only upgrades are reported. */
  lemma ExactStep(s: Scan, name: string, required: string, layer: string,
                  upgradeOnly: bool, newer: (string, string) -> bool)
    requires PlainName(name) && PlainVersion(required) && !s.raised
    ensures var key := "python3-" + name;
            (ScanRequirement(s, name + "==" + required, layer, RecipeNames([RecipeFile(name, required)]), upgradeOnly, newer)
             == s.(missing := Del(s.missing, key), found := s.found[key := required],
                   rows := s.rows + (if upgradeOnly then [] else [Exact(key, required, layer)])))
  {
    KeyOfPlainName(name);
    PlainRecipe(name, required);
    var key := "python3-" + name;
    RequirementOneRecipe(s, name, required, layer, key + "_" + required, key, required, upgradeOnly, newer);
  }

  /** A layer whose one recipe is another version of a package already found writes nothing. */
  lemma FoundStep(s: Scan, name: string, required: string, other: string, layer: string,
                  upgradeOnly: bool, newer: (string, string) -> bool)
    requires PlainName(name) && PlainVersion(required) && PlainVersion(other) && !s.raised
    requires other != required && "python3-" + name in s.found
    ensures var key := "python3-" + name;
            (ScanRequirement(s, name + "==" + required, layer, RecipeNames([RecipeFile(name, other)]), upgradeOnly, newer)
             == s.(missing := Del(s.missing, key), found := s.found[key := required]))
  {
    KeyOfPlainName(name);
    PlainRecipe(name, other);
    var key := "python3-" + name;
    RequirementOneRecipe(s, name, required, layer, key + "_" + other, key, other, upgradeOnly, newer);
  }

  /**
   * A requirement against a layer `base` holding an older version and a later
   * layer `extra` holding the required one: `base` writes an outdated row,
   * and `extra`, whose recipe is an exact match, still writes an exact row,
   * since the exact branch does not consult `foundRecipesList`.
   */
  lemma OutdatedThenExact(name: string, required: string, older: string, base: string, extra: string,
                          upgradeOnly: bool, newer: (string, string) -> bool)
    requires PlainName(name) && PlainVersion(required) && PlainVersion(older)
    requires older != required && newer(required, older)
    ensures var key := "python3-" + name;
            (Reconcile([name + "==" + required],
                       [Layer(base, [RecipeFile(name, older)]), Layer(extra, [RecipeFile(name, required)])], upgradeOnly, newer)
             == Report([Outdated(key, required, older, base)] + (if upgradeOnly then [] else [Exact(key, required, extra)]), false))
  {
    var key := "python3-" + name;
    var q := name + "==" + required;
    var l1 := Layer(base, [RecipeFile(name, older)]);
    var l2 := Layer(extra, [RecipeFile(name, required)]);
    var s1 := Start.(missing := Del(Start.missing, key), found := Start.found[key := required],
                     rows := Start.rows + [Outdated(key, required, older, base)]);
    var s2 := s1.(missing := Del(s1.missing, key), found := s1.found[key := required],
                  rows := s1.rows + (if upgradeOnly then [] else [Exact(key, required, extra)]));
    assert ScanLayers(Start, [q], [l1, l2], upgradeOnly, newer) == s2 by {
      LayersTwo(Start, q, l1, l2, upgradeOnly, newer);
      OutdatedStep(Start, name, required, older, base, upgradeOnly, newer);
      ExactStep(s1, name, required, extra, upgradeOnly, newer);
    }
    assert Del([], key) == [] && s2.missing == [];
    assert MissingRows(s2.missing) == [];
    assert s2.rows == [Outdated(key, required, older, base)] + (if upgradeOnly then [] else [Exact(key, required, extra)]);
    assert !s2.raised;
  }

  /**
   * The first layer with a recipe for the package decides: a later layer's
   * recipe that is not an exact match writes nothing, whether it is newer or
   * older, because the package is already found.
   */
  lemma FirstLayerWins(name: string, required: string, first: string, later: string, l1: string, l2: string,
                       upgradeOnly: bool, newer: (string, string) -> bool)
    requires PlainName(name) && PlainVersion(required) && PlainVersion(first) && PlainVersion(later)
    requires first != required && later != required && newer(required, first)
    ensures Reconcile([name + "==" + required],
                      [Layer(l1, [RecipeFile(name, first)]), Layer(l2, [RecipeFile(name, later)])], upgradeOnly, newer)
         == Report([Outdated("python3-" + name, required, first, l1)], false)
  {
    var key := "python3-" + name;
    var q := name + "==" + required;
    var a := Layer(l1, [RecipeFile(name, first)]);
    var b := Layer(l2, [RecipeFile(name, later)]);
    var s1 := Start.(missing := Del(Start.missing, key), found := Start.found[key := required],
                     rows := Start.rows + [Outdated(key, required, first, l1)]);
    var s2 := s1.(missing := Del(s1.missing, key), found := s1.found[key := required]);
    LayersTwo(Start, q, a, b, upgradeOnly, newer);
    OutdatedStep(Start, name, required, first, l1, upgradeOnly, newer);
    FoundStep(s1, name, required, later, l2, upgradeOnly, newer);
    assert ScanLayers(Start, [q], [a, b], upgradeOnly, newer) == s2;
    assert Del([], key) == [] && s2.missing == [];
    assert MissingRows(s2.missing) == [];
    assert s2.rows == [Outdated(key, required, first, l1)];
    assert !s2.raised;
  }

  /** An exact match in the first layer is final: an older recipe in a later layer writes nothing. */
  lemma ExactThenOlder(name: string, required: string, older: string, l1: string, l2: string,
                       newer: (string, string) -> bool)
    requires PlainName(name) && PlainVersion(required) && PlainVersion(older)
    requires older != required
    ensures Reconcile([name + "==" + required],
                      [Layer(l1, [RecipeFile(name, required)]), Layer(l2, [RecipeFile(name, older)])], false, newer)
         == Report([Exact("python3-" + name, required, l1)], false)
  {
    var key := "python3-" + name;
    var q := name + "==" + required;
    var a := Layer(l1, [RecipeFile(name, required)]);
    var b := Layer(l2, [RecipeFile(name, older)]);
    var s1 := Start.(missing := Del(Start.missing, key), found := Start.found[key := required],
                     rows := Start.rows + [Exact(key, required, l1)]);
    var s2 := s1.(missing := Del(s1.missing, key), found := s1.found[key := required]);
    LayersTwo(Start, q, a, b, false, newer);
    ExactStep(Start, name, required, l1, false, newer);
    FoundStep(s1, name, required, older, l2, false, newer);
    assert ScanLayers(Start, [q], [a, b], false, newer) == s2;
    assert Del([], key) == [] && s2.missing == [];
    assert MissingRows(s2.missing) == [];
    assert s2.rows == [Exact(key, required, l1)];
    assert !s2.raised;
  }

  /** The required version in two layers writes two exact rows, one per layer. */
  lemma ExactInBoth(name: string, required: string, l1: string, l2: string, newer: (string, string) -> bool)
    requires PlainName(name) && PlainVersion(required)
    ensures Reconcile([name + "==" + required],
                      [Layer(l1, [RecipeFile(name, required)]), Layer(l2, [RecipeFile(name, required)])], false, newer)
         == Report([Exact("python3-" + name, required, l1), Exact("python3-" + name, required, l2)], false)
  {
    var key := "python3-" + name;
    var q := name + "==" + required;
    var a := Layer(l1, [RecipeFile(name, required)]);
    var b := Layer(l2, [RecipeFile(name, required)]);
    var s1 := Start.(missing := Del(Start.missing, key), found := Start.found[key := required],
                     rows := Start.rows + [Exact(key, required, l1)]);
    var s2 := s1.(missing := Del(s1.missing, key), found := s1.found[key := required],
                  rows := s1.rows + [Exact(key, required, l2)]);
    assert ScanLayers(Start, [q], [a, b], false, newer) == s2 by {
      LayersTwo(Start, q, a, b, false, newer);
      ExactStep(Start, name, required, l1, false, newer);
      ExactStep(s1, name, required, l2, false, newer);
    }
    assert Del([], key) == [] && s2.missing == [];
    assert MissingRows(s2.missing) == [];
    assert s2.rows == [Exact(key, required, l1), Exact(key, required, l2)];
    assert !s2.raised;
  }

  /**
   * A package no layer has a recipe for is reported missing with the
   * required version, after the scan, unless only upgrades are reported.
   */
  lemma NoRecipeMissing(name: string, required: string, other: string, version: string, layer: string,
                        upgradeOnly: bool, newer: (string, string) -> bool)
    requires PlainName(name) && PlainName(other) && PlainVersion(required) && PlainVersion(version)
    requires other != name
    ensures Reconcile([name + "==" + required], [Layer(layer, [RecipeFile(other, version)])], upgradeOnly, newer)
         == Report(if upgradeOnly then [] else [Missing("python3-" + name, required)], false)
  {
    var key := "python3-" + name;
    var token := "python3-" + other;
    var q := name + "==" + required;
    var a := Layer(layer, [RecipeFile(other, version)]);
    PlainRecipe(other, version);
    KeyOfPlainName(other);
    LayersOne(Start, q, a, upgradeOnly, newer);
    assert token != key by {
      assert other == token[8..] && name == key[8..];
    }
    RequirementOneRecipe(Start, name, required, layer, token + "_" + version, token, version, upgradeOnly, newer);
    assert ScanLayers(Start, [q], [a], upgradeOnly, newer) == Start.(missing := [(key, required)]);
  }

  /** A specifier without `==` raises as soon as the layer has a recipe to compare it with. */
  lemma SpecifierWithoutVersionRaises(name: string, other: string, version: string, layer: string,
                                      upgradeOnly: bool, newer: (string, string) -> bool)
    requires PlainName(name) && PlainName(other) && PlainVersion(version)
    ensures Reconcile([name], [Layer(layer, [RecipeFile(other, version)])], upgradeOnly, newer) == Report([], true)
  {
    var a := Layer(layer, [RecipeFile(other, version)]);
    SplitWithoutSep(name, "==");
    PlainRecipe(other, version);
    LayersOne(Start, name, a, upgradeOnly, newer);
  }

  /** A recipe name without `_` raises when the search reaches it. */
  lemma RecipeWithoutVersionRaises(name: string, required: string, stem: string, layer: string,
                                   upgradeOnly: bool, newer: (string, string) -> bool)
    requires PlainName(name) && PlainVersion(required)
    requires stem != [] && '_' !in stem && stem[0] !in ".bb" && stem[|stem| - 1] !in ".bb"
    ensures Reconcile([name + "==" + required], [Layer(layer, [stem + ".bb"])], upgradeOnly, newer) == Report([], true)
  {
    var q := name + "==" + required;
    var a := Layer(layer, [stem + ".bb"]);
    PlainRequirement(name, required);
    OneRecipe(stem);
    SplitWithoutSep(stem, "_");
    LayersOne(Start, q, a, upgradeOnly, newer);
  }
}
