/** A Python dict with string keys: iteration follows first insertion, assignment keeps the key's place. */
module OrderedDict {
  ghost predicate Distinct(keys: seq<string>) {
    forall i, j :: 0 <= i < j < |keys| ==> keys[i] != keys[j]
  }

  datatype Dict<V(!new)> = Dict(keys: seq<string>, values: map<string, V>)
  {
    ghost predicate Valid() {
      && Distinct(keys)
      && (forall k :: k in keys <==> k in values)
    }

    function Put(k: string, v: V): (d: Dict<V>)
      requires Valid()
      ensures d.Valid() && d.values == values[k := v]
      ensures d.keys == if k in values then keys else keys + [k]
    {
      if k in values then Dict(keys, values[k := v]) else Dict(keys + [k], values[k := v])
    }

    function Remove(k: string): (d: Dict<V>)
      requires Valid()
      ensures d.Valid() && d.values == values - {k}
    {
      WithoutKey(keys, k);
      Dict(Without(keys, k), values - {k})
    }

    /** The values in iteration order. */
    function Items(): (items: seq<V>)
      requires Valid()
      ensures |items| == |keys|
      ensures forall i :: 0 <= i < |keys| ==> items[i] == values[keys[i]]
      ensures forall v :: v in items <==> exists k :: k in values && values[k] == v
    {
      var items := seq(|keys|, i requires 0 <= i < |keys| => assert keys[i] in keys; values[keys[i]]);
      assert forall v | v in items :: exists k :: k in values && values[k] == v by {
        forall v | v in items ensures exists k :: k in values && values[k] == v {
          var i :| 0 <= i < |items| && items[i] == v;
          assert keys[i] in keys;
        }
      }
      assert forall k | k in values :: values[k] in items by {
        forall k | k in values ensures values[k] in items {
          var i :| 0 <= i < |keys| && keys[i] == k;
          assert items[i] == values[k];
        }
      }
      items
    }
  }

  function Without(keys: seq<string>, k: string): seq<string> {
    if keys == [] then [] else (if keys[0] == k then [] else [keys[0]]) + Without(keys[1..], k)
  }

  lemma {:induction false} WithoutMember(keys: seq<string>, k: string, x: string)
    ensures x in Without(keys, k) <==> x in keys && x != k
  {
    if keys == [] {
    } else {
      WithoutMember(keys[1..], k, x);
    }
  }

  lemma {:induction false} WithoutDistinct(keys: seq<string>, k: string)
    requires Distinct(keys)
    ensures Distinct(Without(keys, k))
  {
    if keys == [] {
    } else {
      var tail := Without(keys[1..], k);
      WithoutDistinct(keys[1..], k);
      forall j | 0 <= j < |tail| ensures tail[j] != keys[0] {
        WithoutMember(keys[1..], k, tail[j]);
      }
    }
  }

  lemma WithoutKey(keys: seq<string>, k: string)
    requires Distinct(keys)
    ensures forall x :: x in Without(keys, k) <==> x in keys && x != k
    ensures Distinct(Without(keys, k))
  {
    WithoutDistinct(keys, k);
    forall x ensures x in Without(keys, k) <==> x in keys && x != k {
      WithoutMember(keys, k, x);
    }
  }

  function Empty<V(!new)>(): (d: Dict<V>)
    ensures d.Valid()
  {
    Dict([], map[])
  }
}
