/**
 * A Python `dict` with its insertion order: a sequence of key/value entries
 * whose keys are distinct. Assigning to a present key keeps its position;
 * assigning to an absent key appends it; `del` removes it. Keys and values
 * are strings, as in the script.
 */
module OrderedDict {

  function Keys(d: seq<(string, string)>): (ks: seq<string>)
    ensures |ks| == |d|
  {
    if d == [] then [] else [d[0].0] + Keys(d[1..])
  }

  /** The `i`-th key is the key of the `i`-th entry. */
  lemma {:induction false} KeysAt(d: seq<(string, string)>)
    ensures forall i :: 0 <= i < |d| ==> Keys(d)[i] == d[i].0
    decreases |d|
  {
    if d != [] {
      KeysAt(d[1..]);
      assert forall i :: 0 < i < |d| ==> d[1..][i - 1] == d[i];
    }
  }

  predicate Distinct(ks: seq<string>) {
    forall i, j :: 0 <= i < j < |ks| ==> ks[i] != ks[j]
  }

  predicate Valid(d: seq<(string, string)>) {
    Distinct(Keys(d))
  }

  /** The keys of `ks` other than `k`, in order. */
  function Without(ks: seq<string>, k: string): (r: seq<string>)
    ensures forall x :: x in r <==> x in ks && x != k
  {
    if ks == [] then []
    else (if ks[0] == k then [] else [ks[0]]) + Without(ks[1..], k)
  }

  lemma {:induction false} KeysCons(e: (string, string), d: seq<(string, string)>)
    ensures Keys([e] + d) == [e.0] + Keys(d)
  {
    assert ([e] + d)[1..] == d;
  }

  lemma DistinctTail(ks: seq<string>)
    requires |ks| > 0 && Distinct(ks)
    ensures Distinct(ks[1..]) && ks[0] !in ks[1..]
  {
  }

  lemma DistinctCons(k: string, ks: seq<string>)
    requires Distinct(ks) && k !in ks
    ensures Distinct([k] + ks)
  {
  }

  /** `d[k] = v`. */
  function Put(d: seq<(string, string)>, k: string, v: string): (r: seq<(string, string)>)
    ensures (k, v) in r
    ensures forall e :: e in d && e.0 != k ==> e in r
    ensures forall e :: e in r ==> e == (k, v) || e in d
  {
    if d == [] then [(k, v)]
    else if d[0].0 == k then [(k, v)] + d[1..]
    else [d[0]] + Put(d[1..], k, v)
  }

  /** Assignment keeps the position of a present key and appends an absent one. */
  lemma {:induction false} PutKeys(d: seq<(string, string)>, k: string, v: string)
    ensures Keys(Put(d, k, v)) == if k in Keys(d) then Keys(d) else Keys(d) + [k]
    decreases |d|
  {
    if d != [] {
      assert d == [d[0]] + d[1..];
      KeysCons(d[0], d[1..]);
      if d[0].0 == k {
        KeysCons((k, v), d[1..]);
      } else {
        PutKeys(d[1..], k, v);
        KeysCons(d[0], Put(d[1..], k, v));
        assert [d[0].0] + (Keys(d[1..]) + [k]) == Keys(d) + [k];
      }
    }
  }

  /** `del d[k]`, doing nothing when `k` is absent (the script's `try/except: pass`). */
  function Del(d: seq<(string, string)>, k: string): (r: seq<(string, string)>)
    ensures Keys(r) == Without(Keys(d), k)
    ensures forall e :: e in r <==> e in d && e.0 != k
  {
    if d == [] then []
    else
      assert d == [d[0]] + d[1..];
      KeysCons(d[0], d[1..]);
      var rest := Del(d[1..], k);
      if d[0].0 == k then rest
      else
        KeysCons(d[0], rest);
        [d[0]] + rest
  }

  lemma {:induction false} WithoutDistinct(ks: seq<string>, k: string)
    requires Distinct(ks)
    ensures Distinct(Without(ks, k))
    decreases |ks|
  {
    if ks != [] {
      DistinctTail(ks);
      WithoutDistinct(ks[1..], k);
      if ks[0] != k {
        DistinctCons(ks[0], Without(ks[1..], k));
      }
    }
  }

  /** Assignment keeps the keys distinct. */
  lemma PutValid(d: seq<(string, string)>, k: string, v: string)
    requires Valid(d)
    ensures Valid(Put(d, k, v))
  {
    PutKeys(d, k, v);
    var ks := Keys(d);
    if k !in ks {
      assert forall i :: 0 <= i < |ks| ==> (ks + [k])[i] == ks[i];
    }
  }

  /** Deletion keeps the keys distinct. */
  lemma DelValid(d: seq<(string, string)>, k: string)
    requires Valid(d)
    ensures Valid(Del(d, k))
  {
    WithoutDistinct(Keys(d), k);
  }
}
