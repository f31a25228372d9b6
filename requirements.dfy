/**
 * The requirement extractor of the script (`getUniquePythonRequirements`):
 * it walks the component manifests in dictionary order, writes one row per
 * component that declares requirements, and returns the declared specifier
 * strings without duplicates.
 */
module Requirements {
  import opened Text
  import OrderedDict

  datatype Option<T> = None | Some(value: T)

  /**
   * What the manifest reader keeps of one `manifest.json`: its optional
   * `"dependencies"` and `"requirements"` lists.
   */
  datatype Manifest = Manifest(dependencies: Option<seq<string>>, requirements: Option<seq<string>>)

  /** The `manifestInfo` dictionary, as (domain, manifest) pairs in iteration order. */
  type ManifestInfo = seq<(string, Manifest)>

  /** A row of the component report: the component's name and its specifier list. */
  datatype ComponentRow = ComponentRow(component: string, requirements: seq<string>)

  /** `component.lower().replace(" ", "-")`. */
  function Slug(name: string): (slug: string)
    ensures |slug| == |name|
    ensures ' ' !in slug
    ensures forall i :: 0 <= i < |slug| ==> !IsUpper(slug[i])
    ensures forall i :: 0 <= i < |name| ==> slug[i] == (if name[i] == ' ' then '-' else LowerChar(name[i]))
    ensures forall i :: 0 <= i < |name| && name[i] != ' ' && !IsUpper(name[i]) ==> slug[i] == name[i]
  {
    Replace(Lower(name), ' ', '-')
  }

  /** A name already in slug form is its own slug. */
  lemma SlugIdempotent(name: string)
    ensures Slug(Slug(name)) == Slug(name)
  {
    var s := Slug(name);
    assert forall i :: 0 <= i < |s| ==> Slug(s)[i] == s[i];
  }

  /** The rows one component contributes: one row if it has a `"requirements"` key. */
  function RowsOf(c: (string, Manifest)): seq<ComponentRow> {
    match c.1.requirements
    case None => []
    case Some(reqs) => [ComponentRow(Slug(c.0), reqs)]
  }

  /** The component rows for the components of `info`, in order. */
  function ComponentRows(info: ManifestInfo): seq<ComponentRow> {
    if info == [] then []
    else ComponentRows(info[..|info| - 1]) + RowsOf(info[|info| - 1])
  }

  /** The specifiers of the components of `info`, concatenated in order. */
  function Concatenated(info: ManifestInfo): seq<string> {
    if info == [] then []
    else
      var c := info[|info| - 1];
      Concatenated(info[..|info| - 1]) + (if c.1.requirements.Some? then c.1.requirements.value else [])
  }

  /** The component rows of two runs of components follow one another. */
  lemma {:induction false} ComponentRowsAppend(a: ManifestInfo, b: ManifestInfo)
    ensures ComponentRows(a + b) == ComponentRows(a) + ComponentRows(b)
    decreases |b|
  {
    if b == [] {
      assert a + b == a;
    } else {
      var b' := b[..|b| - 1];
      assert (a + b)[..|a + b| - 1] == a + b';
      ComponentRowsAppend(a, b');
    }
  }

  /** Exactly one row for a component with requirements, none for one without. */
  lemma ComponentRowsSingle(c: (string, Manifest))
    ensures |ComponentRows([c])| == (if c.1.requirements.Some? then 1 else 0)
    ensures c.1.requirements.Some? ==> ComponentRows([c])[0] == ComponentRow(Slug(c.0), c.1.requirements.value)
  {
    assert [c][..0] == [];
  }

  /** Every row comes from a component with requirements, and every such component has a row. */
  lemma {:induction false} ComponentRowsMembers(info: ManifestInfo, row: ComponentRow)
    ensures row in ComponentRows(info) <==>
      exists i :: 0 <= i < |info| && info[i].1.requirements == Some(row.requirements) && row.component == Slug(info[i].0)
  {
    if info != [] {
      var n := |info| - 1;
      ComponentRowsMembers(info[..n], row);
      if row in ComponentRows(info) && row !in ComponentRows(info[..n]) {
        assert info[n].1.requirements == Some(row.requirements) && row.component == Slug(info[n].0);
      }
      if exists i :: 0 <= i < |info| && info[i].1.requirements == Some(row.requirements) && row.component == Slug(info[i].0) {
        var i :| 0 <= i < |info| && info[i].1.requirements == Some(row.requirements) && row.component == Slug(info[i].0);
        if i < n {
          assert info[..n][i] == info[i];
        }
      }
    }
  }

  /** A specifier occurs in the concatenation iff some component declares it. */
  lemma {:induction false} ConcatenatedMembers(info: ManifestInfo, x: string)
    ensures x in Concatenated(info) <==>
      exists i :: 0 <= i < |info| && info[i].1.requirements.Some? && x in info[i].1.requirements.value
  {
    if info != [] {
      var n := |info| - 1;
      ConcatenatedMembers(info[..n], x);
      if exists i :: 0 <= i < |info| && info[i].1.requirements.Some? && x in info[i].1.requirements.value {
        var i :| 0 <= i < |info| && info[i].1.requirements.Some? && x in info[i].1.requirements.value;
        if i < n {
          assert info[..n][i] == info[i];
        }
      }
    }
  }

  /**
   * `list(set(xs))`: the elements of `xs`, each once. Python leaves the order
   * unspecified; this keeps first occurrences, which is one admissible order.
   */
  method Unique(xs: seq<string>) returns (r: seq<string>)
    ensures OrderedDict.Distinct(r)
    ensures forall x :: x in r <==> x in xs
  {
    r := [];
    var i := 0;
    while i < |xs|
      invariant 0 <= i <= |xs|
      invariant OrderedDict.Distinct(r)
      invariant forall x :: x in r <==> x in xs[..i]
    {
      if xs[i] !in r {
        r := r + [xs[i]];
      }
      assert xs[..i + 1] == xs[..i] + [xs[i]];
      i := i + 1;
    }
    assert xs[..i] == xs;
  }

  /**
   * `getUniquePythonRequirements`: writes one component row per component
   * with requirements, in order, and returns every declared specifier once.
   */
  method GetUniquePythonRequirements(info: ManifestInfo) returns (rows: seq<ComponentRow>, requirements: seq<string>)
    ensures rows == ComponentRows(info)
    ensures OrderedDict.Distinct(requirements)
    ensures forall x :: x in requirements <==>
      exists i :: 0 <= i < |info| && info[i].1.requirements.Some? && x in info[i].1.requirements.value
  {
    var all: seq<string> := [];
    rows := [];
    var i := 0;
    while i < |info|
      invariant 0 <= i <= |info|
      invariant rows == ComponentRows(info[..i])
      invariant all == Concatenated(info[..i])
    {
      assert info[..i + 1][..i] == info[..i];
      var component := info[i];
      if component.1.requirements.Some? {
        rows := rows + [ComponentRow(Slug(component.0), component.1.requirements.value)];
        all := all + component.1.requirements.value;
      }
      i := i + 1;
    }
    assert info[..i] == info;
    requirements := Unique(all);
    forall x
      ensures x in requirements <==>
        exists i :: 0 <= i < |info| && info[i].1.requirements.Some? && x in info[i].1.requirements.value
    {
      ConcatenatedMembers(info, x);
    }
  }
}
