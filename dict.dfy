/** An insertion-ordered dictionary from strings to strings, as Python's
    dict behaves: assigning an existing key replaces its value and keeps its
    position, assigning a new key appends it, iteration follows insertion
    order. The header map and the container's attribute set are of this kind. */
module OrderedDict {
  import opened Base

  datatype Dict = Dict(keys: seq<string>, values: map<string, string>)

  predicate Distinct(ks: seq<string>) {
    forall i, j :: 0 <= i < j < |ks| ==> ks[i] != ks[j]
  }

  /** Keys are distinct and are exactly the domain of the value map. */
  predicate Wf(d: Dict) {
    && Distinct(d.keys)
    && d.values.Keys == (set k | k in d.keys)
  }

  const Empty: Dict := Dict([], map[])

  /** d[k] = v */
  function Put(d: Dict, k: string, v: string): (r: Dict)
    ensures r.values == d.values[k := v]
    ensures r.keys == if k in d.values then d.keys else d.keys + [k]
  {
    if k in d.values then Dict(d.keys, d.values[k := v])
    else Dict(d.keys + [k], d.values[k := v])
  }

  /** Assignment keeps a dictionary well formed. */
  lemma PutWf(d: Dict, k: string, v: string)
    requires Wf(d)
    ensures Wf(Put(d, k, v))
  {
    if k !in d.values {
      var ks := d.keys + [k];
      assert k !in d.keys;
      forall i, j | 0 <= i < j < |ks|
        ensures ks[i] != ks[j]
      {
        if j < |d.keys| {
          assert ks[i] == d.keys[i] && ks[j] == d.keys[j];
        } else {
          assert ks[i] == d.keys[i];
        }
      }
      assert (set x | x in ks) == (set x | x in d.keys) + {k};
    }
  }

  /** d.get(k) */
  function Get(d: Dict, k: string): Option<string> {
    if k in d.values then Some(d.values[k]) else None
  }

  function RemoveFrom(ks: seq<string>, k: string): (r: seq<string>)
    ensures forall x :: x in r <==> x in ks && x != k
    ensures Distinct(ks) ==> Distinct(r)
  {
    if ks == [] then []
    else
      var rest := RemoveFrom(ks[1..], k);
      assert Distinct(ks) ==> Distinct(ks[1..]) && ks[0] !in ks[1..];
      if ks[0] == k then rest else [ks[0]] + rest
  }

  /** del d[k] when k is present; d unchanged otherwise (the KeyError the
      caller catches). The remaining keys keep their order. */
  function Remove(d: Dict, k: string): (r: Dict)
    requires Wf(d)
    ensures Wf(r)
    ensures k !in r.values
    ensures forall x :: x != k ==> Get(r, x) == Get(d, x)
  {
    var ks := RemoveFrom(d.keys, k);
    assert forall i :: 0 <= i < |ks| ==> ks[i] in ks;
    Dict(ks, d.values - {k})
  }

  lemma {:induction false} RemoveFromAbsent(ks: seq<string>, k: string)
    requires k !in ks
    ensures RemoveFrom(ks, k) == ks
  {
    if ks != [] {
      RemoveFromAbsent(ks[1..], k);
    }
  }

  /** Deleting a key that is not there leaves the dictionary as it was. */
  lemma RemoveAbsent(d: Dict, k: string)
    requires Wf(d) && k !in d.values
    ensures Remove(d, k) == d
  {
    RemoveFromAbsent(d.keys, k);
    assert d.values - {k} == d.values;
  }

  /** d.items() in iteration order. */
  function Items(d: Dict): (r: seq<(string, string)>)
    requires Wf(d)
    ensures |r| == |d.keys|
    ensures forall i :: 0 <= i < |r| ==> r[i] == (d.keys[i], d.values[d.keys[i]])
  {
    seq(|d.keys|, i requires 0 <= i < |d.keys| => (d.keys[i], d.values[d.keys[i]]))
  }

  /** The dictionary built by assigning the pairs one after another. */
  function FromItems(items: seq<(string, string)>): Dict {
    if items == [] then Empty
    else
      var last := items[|items| - 1];
      Put(FromItems(items[..|items| - 1]), last.0, last.1)
  }

  lemma {:induction false} FromItemsWf(items: seq<(string, string)>)
    ensures Wf(FromItems(items))
  {
    if items != [] {
      var last := items[|items| - 1];
      FromItemsWf(items[..|items| - 1]);
      PutWf(FromItems(items[..|items| - 1]), last.0, last.1);
    }
  }

  /** Pairs with distinct keys are stored in order, each with its own value. */
  lemma {:induction false} FromItemsFresh(items: seq<(string, string)>)
    requires forall i, j :: 0 <= i < j < |items| ==> items[i].0 != items[j].0
    ensures |FromItems(items).keys| == |items|
    ensures forall i :: 0 <= i < |items| ==> FromItems(items).keys[i] == items[i].0
    ensures forall i :: 0 <= i < |items| ==> Get(FromItems(items), items[i].0) == Some(items[i].1)
  {
    if items != [] {
      var n := |items| - 1;
      var pre := items[..n];
      var (k, v) := items[n];
      FromItemsFresh(pre);
      FromItemsWf(pre);
      var p := FromItems(pre);
      assert k !in p.keys by {
        forall i | 0 <= i < |p.keys|
          ensures p.keys[i] != k
        {
          assert p.keys[i] == pre[i].0 == items[i].0;
        }
      }
      assert k !in p.values;
      var r := Put(p, k, v);
      assert FromItems(items) == r;
      assert r.keys == p.keys + [k];
      forall i | 0 <= i < |items|
        ensures r.keys[i] == items[i].0 && Get(r, items[i].0) == Some(items[i].1)
      {
        if i < n {
          assert pre[i] == items[i];
          assert items[i].0 != k;
        }
      }
    }
  }

  /** Rebuilding a dictionary from its items in iteration order gives it back. */
  lemma FromItemsOfItems(d: Dict)
    requires Wf(d)
    ensures FromItems(Items(d)) == d
  {
    var its := Items(d);
    FromItemsFresh(its);
    FromItemsWf(its);
    var r := FromItems(its);
    assert r.keys == d.keys;
    forall k | k in d.values
      ensures k in r.values && r.values[k] == d.values[k]
    {
      assert k in d.keys;
      var i :| 0 <= i < |d.keys| && d.keys[i] == k;
      assert Get(r, its[i].0) == Some(its[i].1);
    }
    assert r.values == d.values;
  }

  /** Assigning more pairs never reorders or drops the keys already present. */
  lemma {:induction false} FromItemsKeysGrow(s: seq<(string, string)>, t: seq<(string, string)>)
    ensures FromItems(s).keys <= FromItems(s + t).keys
  {
    if t == [] {
      AppendEmpty(s);
    } else {
      var n := |t| - 1;
      SnocSplit(s, t);
      FromItemsKeysGrow(s, t[..n]);
      var q := FromItems(s + t[..n]);
      var last := t[n];
      assert FromItems(s + t) == Put(q, last.0, last.1);
      PutKeysGrow(q, last.0, last.1);
      PrefixTrans(FromItems(s).keys, q.keys, FromItems(s + t).keys);
    }
  }

  lemma PutKeysGrow(d: Dict, k: string, v: string)
    ensures d.keys <= Put(d, k, v).keys
  {
  }

  lemma PrefixTrans<T>(a: seq<T>, b: seq<T>, c: seq<T>)
    requires a <= b && b <= c
    ensures a <= c
  {
    assert a == b[..|a|];
    assert b[..|a|] == c[..|b|][..|a|];
  }
}
