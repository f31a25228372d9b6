/**
 * The layered reconciler of the script (`compareWithLayers`).
 *
 * For every layer in priority order, for every requirement specifier
 * `name==version`, the recipes of the layer are searched for the first one
 * whose name token is the package's key. Exact matches, name-only matches
 * and misses update two dictionaries that persist across layers
 * (`missingRecipesList`, insertion-ordered, and `foundRecipesList`) and write
 * rows. After the last layer the still-missing packages are written.
 *
 * The functions below define that computation step by step (`ScanRecipes`
 * for one requirement against one layer, up to `Reconcile` for the whole run);
 * the method `CompareWithLayers` is the loop nest of the script, proved to
 * compute exactly `Reconcile`.
 *
 * Version order is a parameter: `newer(a, b)` stands for
 * `version.parse(a) > version.parse(b)`.
 */
module Reconciler {
  import opened Text
  import opened OrderedDict

  /** A layer: its path and the names of the regular files in it, in scan order. */
  datatype Layer = Layer(name: string, files: seq<string>)

  /** A row written to the package report. */
  datatype Row =
    | Exact(package: string, version: string, layer: string)
    | Outdated(package: string, required: string, found: string, layer: string)
    | Missing(package: string, required: string)

  /**
   * The four CSV cells that lines 98, 109 and 120 write for a row: package,
   * required version, found version, layer. The rest of the model works on
   * rows; this function only fixes how each row is laid out in the report.
   */
  function Cells(row: Row): (cells: seq<string>)
    ensures |cells| == 4 && cells[0] == row.package
    ensures cells[1] == if row.Exact? then row.version else row.required
    ensures row.Exact? ==> cells[2] == row.version
    ensures row.Outdated? ==> cells[2] == row.found
    ensures !row.Missing? ==> cells[3] == row.layer
    ensures row.Missing? ==> cells[2] == "-" && cells[3] == "-"
  {
    match row
    case Exact(p, v, l) => [p, v, v, l]
    case Outdated(p, r, f, l) => [p, r, f, l]
    case Missing(p, r) => [p, r, "-", "-"]
  }

  /**
   * The state the script's loops carry: `missingRecipesList`,
   * `foundRecipesList`, the rows written so far, and whether an `IndexError`
   * has been raised (which ends the run, leaving the rows already written).
   */
  datatype Scan = Scan(missing: seq<(string, string)>, found: map<string, string>, rows: seq<Row>, raised: bool)

  const Start := Scan([], map[], [], false)

  /** The outcome of a run: the rows written and whether it ended in an `IndexError`. */
  datatype Report = Report(rows: seq<Row>, raised: bool)

  /** Line 86: the key a package name is looked up by. */
  function PackageKey(name: string): (key: string)
    ensures |key| == 8 + |name| && key[..8] == "python3-"
    ensures '_' !in key
    ensures forall i :: 0 <= i < |key| ==> !IsUpper(key[i])
  {
    "python3-" + Replace(Lower(name), '_', '-')
  }

  /** After the prefix, the key is the name with each letter lowered and each `_` turned into `-`. */
  lemma KeyChars(name: string)
    ensures forall i :: 0 <= i < |name| ==>
      PackageKey(name)[8 + i] == (if name[i] == '_' then '-' else LowerChar(name[i]))
  {
  }

  /** Lines 77-81 on the file names of a layer: the `.bb` files, each put through `strip(".bb")`. */
  function RecipeNames(files: seq<string>): (names: seq<string>)
    ensures |names| <= |files|
  {
    if files == [] then []
    else (if EndsWith(files[0], ".bb") then [Strip(files[0], ".bb")] else []) + RecipeNames(files[1..])
  }

  /**
   * Lines 88-116 for one requirement, split into `spec` and keyed by `key`,
   * against the recipes of one layer still to be examined.
   */
  function ScanRecipes(s: Scan, key: string, spec: seq<string>, layer: string, recipes: seq<string>,
                       upgradeOnly: bool, newer: (string, string) -> bool): Scan
    decreases |recipes|
  {
    if recipes == [] then
      // the `else` of the `for` loop: no recipe of this layer names the package
      if key in s.found then s
      else if |spec| < 2 then s.(raised := true)
      else s.(missing := Put(s.missing, key, spec[1]))
    else if |spec| < 2 then s.(raised := true)
    else
      var recipe := Split(recipes[0], "_");
      if |recipe| < 2 then s.(raised := true)
      else if key + "_" + spec[1] == recipe[0] + "_" + recipe[1] then
        s.(missing := Del(s.missing, key), found := s.found[key := spec[1]],
           rows := s.rows + (if upgradeOnly then [] else [Exact(key, spec[1], layer)]))
      else if key == recipe[0] then
        s.(missing := Del(s.missing, key), found := s.found[key := spec[1]],
           rows := s.rows + (if newer(spec[1], recipe[1]) && key !in s.found
                             then [Outdated(key, spec[1], recipe[1], layer)] else []))
      else ScanRecipes(s, key, spec, layer, recipes[1..], upgradeOnly, newer)
  }

  /** Lines 84-116: one requirement against one layer. */
  function ScanRequirement(s: Scan, requirement: string, layer: string, recipes: seq<string>,
                           upgradeOnly: bool, newer: (string, string) -> bool): Scan
  {
    if s.raised then s
    else
      var spec := Split(requirement, "==");
      ScanRecipes(s, PackageKey(spec[0]), spec, layer, recipes, upgradeOnly, newer)
  }

  /** Lines 83-116: every requirement, in order, against one layer. */
  function ScanRequirements(s: Scan, requirements: seq<string>, layer: string, recipes: seq<string>,
                            upgradeOnly: bool, newer: (string, string) -> bool): Scan
  {
    if requirements == [] then s
    else
      var n := |requirements| - 1;
      ScanRequirement(ScanRequirements(s, requirements[..n], layer, recipes, upgradeOnly, newer),
                      requirements[n], layer, recipes, upgradeOnly, newer)
  }

  /** Lines 76-116: one layer. */
  function ScanLayer(s: Scan, requirements: seq<string>, layer: Layer,
                     upgradeOnly: bool, newer: (string, string) -> bool): Scan
  {
    ScanRequirements(s, requirements, layer.name, RecipeNames(layer.files), upgradeOnly, newer)
  }

  /** Lines 75-116: every layer, in priority order. */
  function ScanLayers(s: Scan, requirements: seq<string>, layers: seq<Layer>,
                      upgradeOnly: bool, newer: (string, string) -> bool): Scan
  {
    if layers == [] then s
    else
      var n := |layers| - 1;
      ScanLayer(ScanLayers(s, requirements, layers[..n], upgradeOnly, newer),
                requirements, layers[n], upgradeOnly, newer)
  }

  /** Lines 119-120: one row per entry of `missingRecipesList`, in dictionary order. */
  function MissingRows(d: seq<(string, string)>): (rows: seq<Row>)
    ensures |rows| == |d|
    ensures forall i :: 0 <= i < |d| ==> rows[i] == Missing(d[i].0, d[i].1)
  {
    seq(|d|, i requires 0 <= i < |d| => Missing(d[i].0, d[i].1))
  }

  /** The whole of `compareWithLayers`. */
  function Reconcile(requirements: seq<string>, layers: seq<Layer>,
                     upgradeOnly: bool, newer: (string, string) -> bool): Report
  {
    var s := ScanLayers(Start, requirements, layers, upgradeOnly, newer);
    if s.raised then Report(s.rows, true)
    else Report(s.rows + (if upgradeOnly then [] else MissingRows(s.missing)), false)
  }

  /** A raised error ends the run of a layer. */
  lemma {:induction false} RequirementsRaisedSticky(s: Scan, requirements: seq<string>, j: nat, layer: string,
                                                    recipes: seq<string>, upgradeOnly: bool, newer: (string, string) -> bool)
    requires j <= |requirements|
    requires ScanRequirements(s, requirements[..j], layer, recipes, upgradeOnly, newer).raised
    ensures ScanRequirements(s, requirements, layer, recipes, upgradeOnly, newer)
         == ScanRequirements(s, requirements[..j], layer, recipes, upgradeOnly, newer)
    decreases |requirements|
  {
    if j < |requirements| {
      var n := |requirements| - 1;
      assert requirements[..n][..j] == requirements[..j];
      RequirementsRaisedSticky(s, requirements[..n], j, layer, recipes, upgradeOnly, newer);
    } else {
      assert requirements[..j] == requirements;
    }
  }

  /** A raised error ends the run of all layers. */
  lemma {:induction false} LayersRaisedSticky(s: Scan, requirements: seq<string>, layers: seq<Layer>, i: nat,
                                              upgradeOnly: bool, newer: (string, string) -> bool)
    requires i <= |layers|
    requires ScanLayers(s, requirements, layers[..i], upgradeOnly, newer).raised
    ensures ScanLayers(s, requirements, layers, upgradeOnly, newer)
         == ScanLayers(s, requirements, layers[..i], upgradeOnly, newer)
    decreases |layers|
  {
    if i < |layers| {
      var n := |layers| - 1;
      assert layers[..n][..i] == layers[..i];
      LayersRaisedSticky(s, requirements, layers[..n], i, upgradeOnly, newer);
      var t := ScanLayers(s, requirements, layers[..n], upgradeOnly, newer);
      RequirementsRaisedSticky(t, requirements, 0, layers[n].name, RecipeNames(layers[n].files), upgradeOnly, newer);
    } else {
      assert layers[..i] == layers;
    }
  }

  /**
   * Lines 84-116: one requirement against the recipes of one layer, on the
   * two dictionaries and the rows so far. The recipe loop stops at the first
   * recipe whose name token is the package key; `raised` reports an
   * `IndexError` (a specifier without `==`, or a recipe without `_` reached
   * by the search).
   */
  method MatchRequirement(missing: seq<(string, string)>, found: map<string, string>, rows: seq<Row>,
                          requirement: string, layer: string, recipes: seq<string>,
                          upgradeOnly: bool, newer: (string, string) -> bool)
    returns (missing': seq<(string, string)>, found': map<string, string>, rows': seq<Row>, raised: bool)
    ensures Scan(missing', found', rows', raised)
         == ScanRequirement(Scan(missing, found, rows, false), requirement, layer, recipes, upgradeOnly, newer)
  {
    missing', found', rows', raised := missing, found, rows, false;
    var spec := Split(requirement, "==");
    var key := PackageKey(spec[0]);
    ghost var goal := ScanRecipes(Scan(missing, found, rows, false), key, spec, layer, recipes, upgradeOnly, newer);
    var k := 0;
    while k < |recipes|
      invariant 0 <= k <= |recipes|
      invariant missing' == missing && found' == found && rows' == rows && !raised
      invariant goal == ScanRecipes(Scan(missing, found, rows, false), key, spec, layer, recipes[k..], upgradeOnly, newer)
    {
      if |spec| < 2 {
        raised := true;
        return;
      }
      var recipe := Split(recipes[k], "_");
      if |recipe| < 2 {
        raised := true;
        return;
      }
      if key + "_" + spec[1] == recipe[0] + "_" + recipe[1] {
        missing' := Del(missing', key);
        found' := found'[key := spec[1]];
        if !upgradeOnly {
          rows' := rows' + [Exact(key, spec[1], layer)];
        }
        break;
      } else if key == recipe[0] {
        missing' := Del(missing', key);
        if newer(spec[1], recipe[1]) && key !in found' {
          rows' := rows' + [Outdated(key, spec[1], recipe[1], layer)];
        }
        found' := found'[key := spec[1]];
        break;
      }
      assert recipes[k..][1..] == recipes[k + 1..];
      k := k + 1;
    }
    if k == |recipes| {
      // the `else` of the `for` loop
      if key !in found' {
        if |spec| < 2 {
          raised := true;
          return;
        }
        missing' := Put(missing', key, spec[1]);
      }
    }
  }

  /**
   * `compareWithLayers` as the script runs it: the layer and requirement
   * loops, then the flush of the missing packages. `raised` reports an
   * `IndexError`; the rows written until then are kept.
   */
  method CompareWithLayers(requirements: seq<string>, layers: seq<Layer>,
                           upgradeOnly: bool, newer: (string, string) -> bool)
    returns (rows: seq<Row>, raised: bool)
    ensures Report(rows, raised) == Reconcile(requirements, layers, upgradeOnly, newer)
  {
    var missing: seq<(string, string)> := [];
    var found: map<string, string> := map[];
    rows := [];
    raised := false;
    var i := 0;
    while i < |layers|
      invariant 0 <= i <= |layers|
      invariant ScanLayers(Start, requirements, layers[..i], upgradeOnly, newer) == Scan(missing, found, rows, false)
    {
      assert layers[..i + 1][..i] == layers[..i];
      var layer := layers[i];
      var recipes := RecipeNames(layer.files);
      ghost var atLayer := Scan(missing, found, rows, false);
      var j := 0;
      while j < |requirements|
        invariant 0 <= j <= |requirements|
        invariant ScanRequirements(atLayer, requirements[..j], layer.name, recipes, upgradeOnly, newer)
               == Scan(missing, found, rows, false)
      {
        assert requirements[..j + 1][..j] == requirements[..j];
        missing, found, rows, raised := MatchRequirement(missing, found, rows, requirements[j], layer.name, recipes, upgradeOnly, newer);
        if raised {
          RequirementsRaisedSticky(atLayer, requirements, j + 1, layer.name, recipes, upgradeOnly, newer);
          LayersRaisedSticky(Start, requirements, layers, i + 1, upgradeOnly, newer);
          return;
        }
        j := j + 1;
      }
      assert requirements[..j] == requirements;
      i := i + 1;
    }
    assert layers[..i] == layers;
    if !upgradeOnly {
      ghost var scanned := rows;
      var m := 0;
      while m < |missing|
        invariant 0 <= m <= |missing|
        invariant rows == scanned + MissingRows(missing[..m])
      {
        assert MissingRows(missing[..m + 1]) == MissingRows(missing[..m]) + [Missing(missing[m].0, missing[m].1)];
        rows := rows + [Missing(missing[m].0, missing[m].1)];
        m := m + 1;
      }
      assert missing[..m] == missing;
    }
  }
}
