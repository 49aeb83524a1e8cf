/**
 * The request record the HTTP steps build (its `Method` is the field
 * `verb`), and the header dictionary it carries: a
 * `Dictionary<string, string>` compared with
 * `StringComparer.OrdinalIgnoreCase`, whose indexer overwrites the value of
 * an existing key (keeping the key's first spelling) and otherwise appends.
 * Enumeration follows insertion order, since nothing is ever removed.
 */
module HttpMessage {
  import opened Common

  type Dict = seq<(string, string)>

  /** The position of the key that matches `name` ignoring case, or -1. */
  function Find(d: Dict, name: string): (r: int)
    ensures -1 <= r < |d|
    ensures r >= 0 ==> EqualsIgnoreCase(d[r].0, name)
    ensures forall j :: 0 <= j < |d| && (r == -1 || j < r) ==> !EqualsIgnoreCase(d[j].0, name)
  {
    if |d| == 0 then -1
    else
      var i := Find(d[..|d| - 1], name);
      if i >= 0 then i
      else if EqualsIgnoreCase(d[|d| - 1].0, name) then |d| - 1
      else -1
  }

  /** TryGetValue: the value stored under a key matching `name`. */
  function Get(d: Dict, name: string): (r: Option<string>)
    ensures r.None? <==> forall j :: 0 <= j < |d| ==> !EqualsIgnoreCase(d[j].0, name)
  {
    var i := Find(d, name);
    if i < 0 then None else Some(d[i].1)
  }

  /** The indexer `d[name] = value`. */
  function Set(d: Dict, name: string, value: string): (r: Dict)
    ensures Find(d, name) >= 0 ==> |r| == |d|
    ensures Find(d, name) < 0 ==> r == d + [(name, value)]
  {
    var i := Find(d, name);
    if i >= 0 then d[i := (d[i].0, value)] else d + [(name, value)]
  }

  /** No two keys are equal ignoring case. */
  predicate DistinctKeys(d: Dict)
  {
    forall i, j :: 0 <= i < j < |d| ==> !EqualsIgnoreCase(d[i].0, d[j].0)
  }

  /** The keys of `d`, in order. */
  function Keys(d: Dict): (r: seq<string>)
    ensures |r| == |d| && forall i :: 0 <= i < |d| ==> r[i] == d[i].0
  {
    seq(|d|, i requires 0 <= i < |d| => d[i].0)
  }

  /** Find only depends on the keys. */
  lemma {:induction false} FindKeys(d: Dict, e: Dict, name: string)
    requires Keys(d) == Keys(e)
    ensures Find(d, name) == Find(e, name)
  {
    if |d| > 0 {
      assert Keys(d[..|d| - 1]) == Keys(e[..|e| - 1]);
      FindKeys(d[..|d| - 1], e[..|e| - 1], name);
      assert d[|d| - 1].0 == Keys(d)[|d| - 1];
    }
  }

  /** After `d[name] = value` the key reads back `value`. */
  lemma SetGet(d: Dict, name: string, value: string)
    ensures Get(Set(d, name, value), name) == Some(value)
  {
    var i := Find(d, name);
    var r := Set(d, name, value);
    if i >= 0 {
      assert Keys(r) == Keys(d);
      FindKeys(r, d, name);
    } else {
      assert Find(r, name) == |d| by {
        assert r[..|r| - 1] == d;
      }
    }
  }

  /** Any other key reads back what it did before. */
  lemma SetOther(d: Dict, name: string, value: string, other: string)
    requires !EqualsIgnoreCase(name, other)
    ensures Get(Set(d, name, value), other) == Get(d, other)
  {
    var i := Find(d, name);
    var r := Set(d, name, value);
    if i >= 0 {
      assert Keys(r) == Keys(d);
      FindKeys(r, d, other);
      assert Find(d, other) != i;
    } else {
      assert r[..|r| - 1] == d;
    }
  }

  /** The indexer keeps the keys distinct, and the first spelling of each key. */
  lemma SetDistinct(d: Dict, name: string, value: string)
    requires DistinctKeys(d)
    ensures DistinctKeys(Set(d, name, value))
    ensures Find(d, name) >= 0 ==> Keys(Set(d, name, value)) == Keys(d)
    ensures Find(d, name) < 0 ==> Keys(Set(d, name, value)) == Keys(d) + [name]
  {
    var r := Set(d, name, value);
    if Find(d, name) < 0 {
      forall i, j | 0 <= i < j < |r|
        ensures !EqualsIgnoreCase(r[i].0, r[j].0)
      {
        if j == |d| {
          assert !EqualsIgnoreCase(d[i].0, name);
        }
      }
    } else {
      assert Keys(r) == Keys(d);
    }
  }

  /** Storing the entries of a dictionary one by one into an empty one rebuilds it. */
  function CopyInto(target: Dict, source: Dict): Dict
  {
    if |source| == 0 then target
    else Set(CopyInto(target, source[..|source| - 1]), source[|source| - 1].0, source[|source| - 1].1)
  }

  lemma {:induction false} CopyDistinct(source: Dict)
    requires DistinctKeys(source)
    ensures CopyInto([], source) == source
  {
    if |source| > 0 {
      var init := source[..|source| - 1];
      CopyDistinct(init);
      var last := source[|source| - 1];
      forall j | 0 <= j < |init|
        ensures !EqualsIgnoreCase(init[j].0, last.0)
      {
        assert init[j] == source[j];
      }
      assert Find(init, last.0) == -1;
      assert init + [last] == source;
    }
  }

  /** The request record of an HTTP step. */
  datatype Request = Request(verb: string, path: string, version: string, headers: Dict, body: Option<Bytes>)
}
