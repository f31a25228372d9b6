# Requirement/recipe reconciliation of `parse-requirement.py`

This project models the decision logic of `scripts/parse-requirement.py` in Dafny and proves properties of it. The script checks the Python requirements of Home Assistant components against the `python3-*` build recipes of an ordered list of Yocto layers. It has two parts:

- **`getUniquePythonRequirements`** walks the component → manifest dictionary. For every component whose manifest has a `"requirements"` key, it writes one component row: the slug of the name and the specifier list. It returns every specifier string once.
- **`compareWithLayers`** scans the layers in priority order. For each layer it takes each requirement, and for each requirement it takes the layer's recipe names, stopping at the first recipe whose name token is the package key. It keeps two dictionaries that persist across layers: `missingRecipesList`, which is insertion-ordered, and `foundRecipesList`. It writes exact and outdated rows while scanning. After all layers it writes one missing row per entry left in `missingRecipesList`.

The model is split into five modules:

- `Text` (`text.dfy`): the Python string operations the script relies on.
  - `lower` is ASCII only.
  - `replace` works on one character.
  - `split` cuts left to right without overlap and always returns at least one piece.
  - `strip` removes a *character set* from both ends.
  - `endswith`.
- `OrderedDict` (`ordered_dict.dfy`): a Python `dict` with its insertion order, as a sequence of entries.
  - Assigning to a present key keeps its position; assigning to an absent key appends it.
  - `del` removes the key. The script's `try: del … except: pass` becomes a `Del` that does nothing on an absent key.
- `Requirements` (`requirements.dfy`): the manifest data and `getUniquePythonRequirements`. It is written as a `method` with the source's loop, proved against the specification functions `ComponentRows` and `Concatenated`.
- `Reconciler` (`reconcile.dfy`): `compareWithLayers`.
  - The specification is a set of functions over a scan state `Scan(missing, found, rows, raised)`.
  - `ScanRecipes` covers the recipe loop with its `break` and `for … else`. `ScanRequirement` and `ScanRequirements` cover the requirement loop, `ScanLayers` the layer loop, and `Reconcile` the whole run with the final flush.
  - The methods `MatchRequirement` and `CompareWithLayers` are the script's nested loops over local dictionaries and a row log. They are proved equal to those functions.
  - The CSV writer is an append-only `seq<Row>`.
  - An `IndexError`, from a specifier without `==` or a recipe name without `_` that the search reaches, sets `raised`. That ends the run and keeps the rows written so far.
- `ReconcileProperties` (`reconcile_properties.dfy`) and `ReconcileExamples` (`reconcile_examples.dfy`): the properties of the scan, and worked cases of the reconciler on one requirement and one or two layers, proved for any package name and versions of a plain form.

The following are parameters of the model:

- `newer(a, b)`: the version order of `packaging.version`, "`a` is a later version than `b`".
- `upgradeOnly`: the flag `upgrade_only == 'y'`.
- each layer's file names, which stand in for the directory listing.

### Behaviour of the script that a first-match-wins reading does not predict

The model follows the code. These points differ from a description of the tool as "first matching layer wins, exactly one result per requirement":

- **Later exact matches still write rows.** An exact match in a later layer writes an exact row even when an earlier layer has already matched. The exact branch (lines 91-99) does not consult `foundRecipesList`.
  - An older version in `base` and the required one in `extra` give an outdated row for `base` *and* an exact row for `extra`: `ReconcileExamples.OutdatedThenExact`.
  - The required version in both layers gives two exact rows: `ReconcileExamples.ExactInBoth`.
  - A later recipe that is not an exact match writes nothing: `FirstLayerWins` and `ExactThenOlder`.
- **A name-matching recipe whose version string differs and is not older writes no row.** It still marks the package found (lines 108-110).
- **Recipe names are split by their first tokens.** A recipe name is cut at *every* `_`, and only tokens `[0]` and `[1]` are used (line 89). A name with a `_` in its version part therefore compares only its first two tokens. The version is not the last token.
- **`strip(".bb")` strips characters, not the suffix.** It removes every leading and trailing `.` and `b`. A version ending in `b` loses that letter: `ReconcileExamples.BetaLosesItsLetter`.
- **Malformed input raises.** A specifier without `==` raises an `IndexError` as soon as it is compared with a recipe, or when it misses in a layer. So does a recipe name without `_` that the search reaches. The entry is not dropped, and the run stops: `SpecifierWithoutVersionRaises` and `RecipeWithoutVersionRaises`.
- **Specifiers are deduplicated as raw strings.** `Requests==1.0` and `requests==1.0` are two entries. In both dictionaries they share the key `python3-requests`: `ReconcileProperties.KeyIgnoresCase`, and `KeyIgnoresUnderscore` for `_` against `-`.

## Model

| member | source | states |
|---|---|---|
| Text.Lower | scripts/parse-requirement.py:86 | `lower` keeps the length and leaves no upper-case letter |
| Text.LowerFixed | scripts/parse-requirement.py:86 | a name without upper-case letters is unchanged by `lower` |
| Text.Replace | scripts/parse-requirement.py:86 | a one-character `replace` keeps the length and removes every occurrence of the replaced character |
| Text.ReplaceFixed | scripts/parse-requirement.py:86 | replacing a character that does not occur changes nothing |
| Text.EndsWith | scripts/parse-requirement.py:80 | definition, no contract: `s.endswith(suffix)`, the last characters of the string are the suffix |
| Text.Split | scripts/parse-requirement.py:85 | `split` always yields at least one piece, so `package[0]` and `recipe[0]` exist |
| Text.SplitJoin | scripts/parse-requirement.py:85-89 | joining the pieces of `split(sep)` with `sep` gives back the string |
| Text.SplitPiecesAvoidSep | scripts/parse-requirement.py:89 | no piece of `split("_")` contains `_` |
| Text.SplitWithoutSep | scripts/parse-requirement.py:85-89 | a string that does not contain the separator's first character splits into itself alone (the `IndexError` case for the one-character `_` and for `==`) |
| Text.SplitAtFirst | scripts/parse-requirement.py:85-89 | a separator after a head that does not contain the separator's first character cuts exactly after the head (a head such as `a=` before `==` is not cut there: `a===b` splits into `a` and `=b`) |
| Text.LStrip | scripts/parse-requirement.py:78 | the result is a suffix of the input, and only characters of the set were dropped |
| Text.RStrip | scripts/parse-requirement.py:78 | the result is a prefix of the input, and only characters of the set were dropped |
| Text.Strip | scripts/parse-requirement.py:78 | the result neither starts nor ends with a character of the set |
| Text.StripSuffix | scripts/parse-requirement.py:78 | a non-empty stem that neither starts nor ends with a character of the set, followed by set characters, strips back to the stem |
| Text.StripIdempotent | scripts/parse-requirement.py:78 | stripping twice is stripping once |
| OrderedDict.Put | scripts/parse-requirement.py:116 | after `d[k] = v`, the entry `(k, v)` is present, every entry with another key is kept, and nothing else is added |
| OrderedDict.PutKeys | scripts/parse-requirement.py:116 | assignment keeps the key order when the key is present and appends the key otherwise |
| OrderedDict.Del | scripts/parse-requirement.py:93-95 | `del d[k]` (ignoring a missing key) removes exactly the entries with key `k` and keeps the order of the others |
| OrderedDict.KeysAt | scripts/parse-requirement.py:119 | iterating the dictionary visits the entries' keys in entry order |
| OrderedDict.PutValid | scripts/parse-requirement.py:116 | assignment keeps the keys distinct |
| OrderedDict.DelValid | scripts/parse-requirement.py:103-105 | deletion keeps the keys distinct |
| OrderedDict.WithoutDistinct | scripts/parse-requirement.py:93 | removing a key from distinct keys leaves them distinct |
| Requirements.Slug | scripts/parse-requirement.py:65 | the component slug has the name's length; each space becomes `-` and each other character its lower-case form, so no space and no upper-case letter remain |
| Requirements.SlugIdempotent | scripts/parse-requirement.py:65 | a slug is its own slug |
| Requirements.RowsOf | scripts/parse-requirement.py:63-65 | definition, no contract: one component's rows, a single (slug, list) row when its manifest has a `"requirements"` key and none otherwise |
| Requirements.ComponentRows | scripts/parse-requirement.py:63-65 | definition, no contract: one row (slug, specifier list) per component with a `"requirements"` key, in dictionary order |
| Requirements.Concatenated | scripts/parse-requirement.py:62-66 | definition, no contract: the specifier lists of the components with requirements, concatenated in order |
| Requirements.ComponentRowsAppend | scripts/parse-requirement.py:63-66 | the component rows of two runs of components are concatenated in order |
| Requirements.ComponentRowsSingle | scripts/parse-requirement.py:64-65 | a component yields exactly one row if it has requirements and none otherwise |
| Requirements.ComponentRowsMembers | scripts/parse-requirement.py:63-66 | a row is written iff some component with requirements has that slug and that list |
| Requirements.ConcatenatedMembers | scripts/parse-requirement.py:66 | a specifier is in the concatenation iff some component declares it |
| Requirements.Unique | scripts/parse-requirement.py:67 | `list(set(xs))` has no duplicates and exactly the elements of `xs` |
| Requirements.GetUniquePythonRequirements | scripts/parse-requirement.py:60-68 | the rows written are the component rows in dictionary order; the result has no duplicates and holds exactly the specifiers some component declares |
| Reconciler.Cells | scripts/parse-requirement.py:98-120 | the four CSV cells of a row: the package, then the required version, then the found version (the required one again for an exact row, `-` for a missing row), then the layer (`-` for a missing row) |
| Reconciler.PackageKey | scripts/parse-requirement.py:86 | the key is `python3-` followed by as many characters as the name has, none of them `_` or an upper-case letter; the characters themselves are stated by `Reconciler.KeyChars` |
| Reconciler.KeyChars | scripts/parse-requirement.py:86 | after `python3-`, the key is the name character by character, each `_` turned into `-` and each letter lowered |
| Reconciler.RecipeNames | scripts/parse-requirement.py:77-81 | a layer has at most as many recipe names as files; which names and in what order are stated by `ReconcileProperties.RecipeNamesMembers` and `RecipeNamesAppend` |
| Reconciler.ScanRecipes | scripts/parse-requirement.py:88-116 | definition, no contract: the recipe loop for one requirement, stopping at the first recipe whose name token is the key, with the `for … else` miss and the `IndexError` cases |
| Reconciler.ScanRequirement | scripts/parse-requirement.py:84-116 | definition, no contract: one specifier split at `==` and keyed by `PackageKey`, then `ScanRecipes`; nothing happens after an earlier error |
| Reconciler.ScanRequirements | scripts/parse-requirement.py:83-116 | definition, no contract: every requirement of the list, in order, against one layer |
| Reconciler.ScanLayer | scripts/parse-requirement.py:76-116 | definition, no contract: one layer, its recipe names taken from its files |
| Reconciler.ScanLayers | scripts/parse-requirement.py:75-116 | definition, no contract: every layer, in priority order, the state carried from one to the next |
| Reconciler.Reconcile | scripts/parse-requirement.py:71-120 | definition, no contract: the scan from empty dictionaries, then the missing rows unless the upgrade flag is set; an error keeps the rows written so far |
| Reconciler.MissingRows | scripts/parse-requirement.py:118-120 | one missing row per dictionary entry, in dictionary order, with the entry's key and version |
| Reconciler.RequirementsRaisedSticky | scripts/parse-requirement.py:83-116 | once a requirement raises, the layer's remaining requirements change nothing |
| Reconciler.LayersRaisedSticky | scripts/parse-requirement.py:75-116 | once a layer raises, the remaining layers change nothing |
| Reconciler.MatchRequirement | scripts/parse-requirement.py:84-116 | the recipe loop with `break` and `for … else`, on the two dictionaries and the row log, gives the state `ScanRequirement` defines, including the `IndexError` cases |
| Reconciler.CompareWithLayers | scripts/parse-requirement.py:71-120 | the nested loops and the final flush write the rows `Reconcile` defines and raise exactly when it does |
| ReconcileProperties.SameKey | scripts/parse-requirement.py:86 | two names share a key exactly when their lowered, `_`-to-`-` forms are equal |
| ReconcileProperties.KeyIgnoresCase | scripts/parse-requirement.py:86 | a name and its lower-case form share a key |
| ReconcileProperties.KeyIgnoresUnderscore | scripts/parse-requirement.py:86 | a name and the same name with `_` turned into `-` share a key |
| ReconcileProperties.RecipeNamesAppend | scripts/parse-requirement.py:77-81 | the recipe names of two runs of files are the names of the first run followed by those of the second, so the listing order is kept |
| ReconcileProperties.RecipeNamesMembers | scripts/parse-requirement.py:77-81 | a name is a recipe name of a layer iff it is `strip(".bb")` of one of its files ending in `.bb` |
| ReconcileProperties.JoinedMatch | scripts/parse-requirement.py:91 | comparing `key + "_" + version` strings is comparing the pairs, since neither name part contains `_` |
| ReconcileProperties.TokenAvoidsUnderscore | scripts/parse-requirement.py:89 | a recipe's name token has no `_` |
| ReconcileProperties.SkipPassed | scripts/parse-requirement.py:88-112 | recipes before the first one naming the package are skipped without effect |
| ReconcileProperties.FirstNameMatchDecides | scripts/parse-requirement.py:88-111 | the first recipe whose name token is the key decides the layer. The key leaves `missing` and enters `found`. An equal version writes an exact row iff the upgrade flag is off. Any other version writes an outdated row iff the required version is newer and the key was not yet found, whatever the flag. Later recipes are ignored |
| ReconcileProperties.NoNameMatch | scripts/parse-requirement.py:113-116 | when no recipe names the package, it is put in `missing` with the required version unless already found, and no row is written |
| ReconcileProperties.OfferedCons | scripts/parse-requirement.py:88 | past a recipe that does not name the package, the rest of the layer offers it iff the layer does |
| ReconcileProperties.RowsSound | scripts/parse-requirement.py:97-109 | appending rows keeps "no missing row yet" and, with the flag set, "only upgrade rows" |
| ReconcileProperties.MatchSound | scripts/parse-requirement.py:91-111 | a match keeps `missing` a proper dictionary disjoint from `found` |
| ReconcileProperties.MissSound | scripts/parse-requirement.py:113-116 | a miss of a package not found keeps `missing` proper and disjoint from `found` |
| ReconcileProperties.StopCases | scripts/parse-requirement.py:88-116 | one requirement's recipe search either raises; or changes nothing for a found package; or records a miss of a package the layer does not offer; or matches a recipe the layer offers, moving the key from `missing` to `found` and appending only non-missing rows (only upgrade rows when the flag is set) |
| ReconcileProperties.RequirementCases | scripts/parse-requirement.py:84-116 | `StopCases`' four outcomes for a whole specifier, plus the case where an earlier error changed nothing |
| ReconcileProperties.RequirementSound | scripts/parse-requirement.py:84-116 | one requirement keeps the scan invariant: `missing` proper and disjoint from `found`, no missing row before the flush, only upgrade rows with the flag |
| ReconcileProperties.RequirementGrows | scripts/parse-requirement.py:84-116 | one requirement only adds found keys and appends rows, and a raised error is final |
| ReconcileProperties.RequirementFrame | scripts/parse-requirement.py:84-116 | one requirement only adds its own key to either dictionary, and finds it only if the layer offers it |
| ReconcileProperties.RequirementSettle | scripts/parse-requirement.py:84-116 | one requirement keeps settled packages settled and settles its own key, finding it if the layer offers it |
| ReconcileProperties.RequirementsSound | scripts/parse-requirement.py:83-116 | a layer keeps the scan invariant |
| ReconcileProperties.RequirementsGrows | scripts/parse-requirement.py:83-116 | a layer only grows the state |
| ReconcileProperties.RequiredPrefix | scripts/parse-requirement.py:83 | a package required by a prefix of the requirements is required by all of them |
| ReconcileProperties.RequirementsFrame | scripts/parse-requirement.py:83-116 | a layer only adds required keys, and finds only keys it offers |
| ReconcileProperties.RequirementsKeep | scripts/parse-requirement.py:83-116 | a layer keeps settled packages settled |
| ReconcileProperties.RequirementsSettle | scripts/parse-requirement.py:83-116 | after a layer that raises nothing, every required package is found or missing |
| ReconcileProperties.RequirementsFind | scripts/parse-requirement.py:83-116 | after a layer that raises nothing, every required package it offers is found |
| ReconcileProperties.LayersSound | scripts/parse-requirement.py:75-116 | every prefix of the layers keeps the scan invariant |
| ReconcileProperties.LayersGrows | scripts/parse-requirement.py:75-116 | the layers only grow the state |
| ReconcileProperties.LayersFrame | scripts/parse-requirement.py:75-116 | the layers only add required keys, and find only keys some layer offers |
| ReconcileProperties.LayersSettle | scripts/parse-requirement.py:75-116 | after at least one layer and no error, every required package is found or missing |
| ReconcileProperties.LayersFind | scripts/parse-requirement.py:75-116 | after no error, every required package some layer offers is found |
| ReconcileProperties.OfferedSplit | scripts/parse-requirement.py:75 | a package offered by some layer is offered by the last layer or an earlier one |
| ReconcileProperties.StartSound | scripts/parse-requirement.py:72-74 | the empty dictionaries and log satisfy the scan invariant |
| ReconcileProperties.FoundStaysFound | scripts/parse-requirement.py:93-116 | `found` and `missing` never share a key, and a package found after some layers stays found and never re-enters `missing` |
| ReconcileProperties.LayersAppend | scripts/parse-requirement.py:75 | scanning two runs of layers is scanning one after the other |
| ReconcileProperties.UpgradeOnlyReport | scripts/parse-requirement.py:97-120 | with the upgrade flag, every row written is an outdated row whose required version is newer than the found one; `UpgradeOnlyFilters` says which rows |
| ReconcileProperties.OutdatedOnlyMissing | scripts/parse-requirement.py:119-120 | the flush writes no outdated row |
| ReconcileProperties.RecipesFiltered | scripts/parse-requirement.py:88-116 | one recipe search with the upgrade flag leaves the same dictionaries and error as without it, and writes exactly the outdated rows the search without it writes |
| ReconcileProperties.RequirementsFiltered | scripts/parse-requirement.py:83-116 | the same for every requirement against one layer |
| ReconcileProperties.LayersFiltered | scripts/parse-requirement.py:75-116 | the same for every layer |
| ReconcileProperties.UpgradeOnlyFilters | scripts/parse-requirement.py:97-120 | the upgrade flag (help text at line 15: only packages which need upgrading) only filters: an upgrade-only run writes exactly the outdated rows of the full run on the same input, in order, and raises exactly when the full run does |
| ReconcileProperties.FlushRows | scripts/parse-requirement.py:118-120 | after a scan that left `missing` proper and wrote no missing row, the flush gives a package a missing row iff it is a key of `missing`, at most one, and after all other rows |
| ReconcileProperties.MissingKeys | scripts/parse-requirement.py:75-116 | after at least one layer and no error, `missing` holds exactly the packages some requirement names and no layer has a recipe for |
| ReconcileProperties.MissingReport | scripts/parse-requirement.py:113-120 | without the flag and without error, a package gets a missing row iff some requirement names it and no layer has a recipe for it. It gets at most one, and missing rows come after all other rows |
| ReconcileExamples.SpecifierSplit | scripts/parse-requirement.py:85 | `name==version`, with no `=` in the name or the version, splits into exactly the name and the version |
| ReconcileExamples.RecipeSplit | scripts/parse-requirement.py:89 | `token_version`, with no `_` in the token or the version, splits into exactly the token and the version |
| ReconcileExamples.KeyOfPlainName | scripts/parse-requirement.py:86 | a lower-case name without `_` only gains the `python3-` prefix |
| ReconcileExamples.PlainRequirement | scripts/parse-requirement.py:85-86 | a plain specifier yields its key and version |
| ReconcileExamples.RecipeNamesOne | scripts/parse-requirement.py:77-81 | a single file yields its stripped name iff it ends in `.bb` |
| ReconcileExamples.OneRecipe | scripts/parse-requirement.py:77-81 | a `.bb` file whose stem is non-empty and neither starts nor ends with `.` or `b` yields that stem (other stems lose those characters, see `BetaLosesItsLetter`) |
| ReconcileExamples.PlainRecipe | scripts/parse-requirement.py:77-89 | `python3-name_version.bb`, for a lower-case name without `_` or `=` and a non-empty version without `_` or `=` that does not end in `.` or `b`, yields the key and the version |
| ReconcileExamples.BetaLosesItsLetter | scripts/parse-requirement.py:78 | a version ending in `b` loses that letter to `strip(".bb")` |
| ReconcileExamples.LayersOne | scripts/parse-requirement.py:75-83 | one requirement against one layer is one requirement scan |
| ReconcileExamples.LayersTwo | scripts/parse-requirement.py:75-83 | one requirement against two layers is two requirement scans in order |
| ReconcileExamples.RequirementOneRecipe | scripts/parse-requirement.py:84-116 | a plain requirement against a single recipe: a miss, an exact row or an outdated row, as the versions and `found` decide |
| ReconcileExamples.OutdatedStep | scripts/parse-requirement.py:101-111 | an older recipe of a package not yet found writes an outdated row |
| ReconcileExamples.ExactStep | scripts/parse-requirement.py:91-99 | the required version writes an exact row unless the flag is set |
| ReconcileExamples.FoundStep | scripts/parse-requirement.py:101-111 | another version of a package already found writes nothing |
| ReconcileExamples.OutdatedThenExact | scripts/parse-requirement.py:75-111 | an older version in the first layer and the required one in the second give an outdated and an exact row |
| ReconcileExamples.FirstLayerWins | scripts/parse-requirement.py:75-111 | after an outdated match, another version in a later layer writes nothing |
| ReconcileExamples.ExactThenOlder | scripts/parse-requirement.py:75-111 | after an exact match, an older version in a later layer writes nothing |
| ReconcileExamples.ExactInBoth | scripts/parse-requirement.py:91-99 | the required version in two layers gives two exact rows |
| ReconcileExamples.NoRecipeMissing | scripts/parse-requirement.py:113-120 | a package without a recipe is reported missing with its version, unless the flag is set |
| ReconcileExamples.SpecifierWithoutVersionRaises | scripts/parse-requirement.py:85-91 | a specifier without `==` raises once there is a recipe to compare it with |
| ReconcileExamples.RecipeWithoutVersionRaises | scripts/parse-requirement.py:89-91 | a recipe name without `_` raises when the search reaches it |

## Left out

- `parseArguments`, `getRepo`, `parseManifests` and `main`: command-line parsing, the git checkout, reading the manifest JSON files, opening the CSV files, and the list of layer paths. The manifest dictionary is an input (`ManifestInfo`, its entries in dictionary order). The `"dependencies"` list is carried but not used, as in the script.
- `os.path.join`, `os.scandir` and `is_file` (lines 76-81): each layer is given as its name and the names of its files. Every name is taken to be a regular file; the `.endswith(".bb")` filter and the strip are modelled.
- `packaging.version.parse` (line 108): the PEP 440 order is the abstract parameter `newer`. An `InvalidVersion` error is not modelled.
- `str.lower`: only ASCII letters are folded.
- The CSV writer: rows are datatype values in an append-only log. Quoting and the Python text of a component's specifier list are not modelled.
- Exceptions other than the `IndexError` of a missing `==` or `_` are not modelled: in particular `InvalidVersion` from `version.parse` at line 108 on a string that is not a PEP 440 version, and `OSError` from `os.scandir` at line 79 for a layer path that does not exist.
- Requirements.Unique: Python leaves the order of `list(set(…))` unspecified. The method keeps first occurrences, and its contract states only "no duplicates, same elements".
- ReconcileProperties.MissingReport: does not state the order of the missing rows (by first insertion, since a key leaves `missing` only when found and never returns) or which requirement's version a row carries when two specifiers share a key. The per-step dictionary order is stated by `OrderedDict.PutKeys` and `OrderedDict.Del`, and the flush order by `Reconciler.MissingRows`.
- ReconcileProperties.MissingReport and ReconcileProperties.LayersSettle: require at least one layer. With no layer the script writes nothing, and the model agrees (`ScanLayers` returns the start state).
