/**
 * A Python `dict`: a map that remembers the order in which keys were first
 * inserted. Assigning to a key already present replaces its value and keeps
 * its place; assigning to a new key appends it.
 */
module OrderedDict {
  import opened Frame

  datatype Dict<V> = Dict(keys: seq<string>, values: map<string, V>)

  /** Each key is listed once, and the listed keys are exactly the mapped ones. */
  predicate Valid<V>(d: Dict<V>) {
    Distinct(d.keys) && Elems(d.keys) == d.values.Keys
  }

  function Empty<V>(): (d: Dict<V>)
    ensures Valid(d) && d.keys == []
  {
    Dict([], map[])
  }

  /** `d[k] = v` */
  function Put<V>(d: Dict<V>, k: string, v: V): (r: Dict<V>)
    requires Valid(d)
    ensures Valid(r)
    ensures r.values == d.values[k := v]
    ensures r.keys == if k in d.values then d.keys else d.keys + [k]
  {
    if k in d.values then Dict(d.keys, d.values[k := v])
    else
      assert k !in Elems(d.keys);
      Dict(d.keys + [k], d.values[k := v])
  }

  /** The keys of a list of entries. */
  function EntryKeys<V>(es: seq<(string, V)>): (ks: set<string>)
    ensures forall j | 0 <= j < |es| :: es[j].0 in ks
    ensures forall k | k in ks :: exists j | 0 <= j < |es| :: es[j].0 == k
    decreases |es|
  {
    if es == [] then {}
    else
      var rest := EntryKeys(es[1..]);
      assert forall k | k in rest :: exists j | 0 < j < |es| :: es[j].0 == k by {
        forall k | k in rest ensures exists j | 0 < j < |es| :: es[j].0 == k {
          var j :| 0 <= j < |es[1..]| && es[1..][j].0 == k;
          assert es[j + 1].0 == k;
        }
      }
      {es[0].0} + rest
  }

  /** `for k, v in es: d[k] = v` */
  function PutAll<V>(d: Dict<V>, es: seq<(string, V)>): (r: Dict<V>)
    requires Valid(d)
    ensures Valid(r)
    decreases |es|
  {
    if es == [] then d
    else PutAll(Put(d, es[0].0, es[0].1), es[1..])
  }

  /** Storing one more entry after a list of entries is one more `Put`. */
  lemma {:induction false} PutAllAppend<V>(d: Dict<V>, es: seq<(string, V)>, k: string, v: V)
    requires Valid(d)
    ensures PutAll(d, es + [(k, v)]) == Put(PutAll(d, es), k, v)
    decreases |es|
  {
    if es == [] {
      assert [] + [(k, v)] == [(k, v)];
    } else {
      assert (es + [(k, v)])[1..] == es[1..] + [(k, v)];
      PutAllAppend(Put(d, es[0].0, es[0].1), es[1..], k, v);
    }
  }

  /** The step of a loop that stores the entries one by one: the next entry after a prefix is one more `Put`. */
  lemma PutAllStep<V>(d: Dict<V>, es: seq<(string, V)>, i: nat)
    requires Valid(d) && i < |es|
    ensures PutAll(d, es[..i + 1]) == Put(PutAll(d, es[..i]), es[i].0, es[i].1)
  {
    assert es[..i + 1] == es[..i] + [(es[i].0, es[i].1)];
    PutAllAppend(d, es[..i], es[i].0, es[i].1);
  }

  /** The keys of `es` not listed in `ks`, each once, in the order of their first occurrence. */
  function Fresh<V>(ks: seq<string>, es: seq<(string, V)>): seq<string>
    decreases |es|
  {
    if es == [] then []
    else if es[0].0 in ks then Fresh(ks, es[1..])
    else [es[0].0] + Fresh(ks + [es[0].0], es[1..])
  }

  /**
   * After `PutAll`, the old keys still come first, the mapped keys are the old
   * ones and the stored ones, and a key no entry names keeps its old value.
   */
  lemma {:induction false} PutAllKeys<V>(d: Dict<V>, es: seq<(string, V)>)
    requires Valid(d)
    ensures d.keys <= PutAll(d, es).keys
    ensures PutAll(d, es).values.Keys == d.values.Keys + EntryKeys(es)
    ensures forall k | k in d.values && k !in EntryKeys(es) :: PutAll(d, es).values[k] == d.values[k]
    decreases |es|
  {
    if es != [] {
      var d' := Put(d, es[0].0, es[0].1);
      PutAllKeys(d', es[1..]);
    }
  }

  /** After `PutAll`, the keys are the old keys followed by the new ones, each once, in order of first insertion. */
  lemma {:induction false} PutAllOrder<V>(d: Dict<V>, es: seq<(string, V)>)
    requires Valid(d)
    ensures PutAll(d, es).keys == d.keys + Fresh(d.keys, es)
    decreases |es|
  {
    if es == [] {
      assert d.keys + [] == d.keys;
    } else {
      var k := es[0].0;
      var d' := Put(d, k, es[0].1);
      PutAllOrder(d', es[1..]);
      Listed(d, k);
      FreshStep(d.keys, es);
    }
  }

  /** A key is mapped exactly when it is listed. */
  lemma Listed<V>(d: Dict<V>, k: string)
    requires Valid(d)
    ensures k in d.values <==> k in d.keys
  {
    assert k in Elems(d.keys) <==> k in d.keys;
  }

  /** Listing the first entry's key, when new, moves it from the fresh keys to the listed ones. */
  lemma FreshStep<V>(ks: seq<string>, es: seq<(string, V)>)
    requires es != []
    ensures var ks' := if es[0].0 in ks then ks else ks + [es[0].0];
      ks' + Fresh(ks', es[1..]) == ks + Fresh(ks, es)
  {
    var k := es[0].0;
    if k !in ks {
      var rest := Fresh(ks + [k], es[1..]);
      assert Fresh(ks, es) == [k] + rest;
      assert (ks + [k]) + rest == ks + ([k] + rest);
    }
  }

  /**
   * When the same key occurs several times among the entries, the last
   * occurrence is the value that remains, and the key is listed once.
   */
  lemma {:induction false} PutAllLastWins<V>(d: Dict<V>, es: seq<(string, V)>, j: nat)
    requires Valid(d)
    requires j < |es|
    requires forall l | j < l < |es| :: es[l].0 != es[j].0
    ensures es[j].0 in PutAll(d, es).values
    ensures PutAll(d, es).values[es[j].0] == es[j].1
    ensures |set i | 0 <= i < |PutAll(d, es).keys| && PutAll(d, es).keys[i] == es[j].0| == 1
    decreases |es|
  {
    var d' := Put(d, es[0].0, es[0].1);
    if j == 0 {
      assert es[0].0 !in EntryKeys(es[1..]) by {
        forall l | 0 <= l < |es[1..]| ensures es[1..][l].0 != es[0].0 {
          assert es[1..][l] == es[l + 1];
        }
      }
      PutAllKeys(d', es[1..]);
    } else {
      PutAllLastWins(d', es[1..], j - 1);
    }
    var r := PutAll(d, es);
    var k := es[j].0;
    OccursOnce(r.keys, k);
  }

  /** In a list without repeats, a member occurs at exactly one position. */
  lemma OccursOnce(s: seq<string>, k: string)
    requires Distinct(s) && k in s
    ensures |set i | 0 <= i < |s| && s[i] == k| == 1
  {
    var i :| 0 <= i < |s| && s[i] == k;
    assert (set i' | 0 <= i' < |s| && s[i'] == k) == {i};
  }
}
