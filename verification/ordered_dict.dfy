/** Python's `collections.OrderedDict` as a sequence of key/value entries
    in insertion order, with no key listed twice. */
module OrderedDicts {
  import opened Occurrences

  type OrderedDict<K, V> = seq<(K, V)>

  /** The keys of `d`, in order. */
  function Keys<K, V>(d: OrderedDict<K, V>): seq<K> {
    seq(|d|, i requires 0 <= i < |d| => d[i].0)
  }

  /** `d[k] = v`: a key already present keeps its position and takes the
      new value; a new key is appended at the end. Nothing else changes. */
  function Put<K(==), V>(d: OrderedDict<K, V>, k: K, v: V): (r: OrderedDict<K, V>)
    requires Distinct(Keys(d))
    ensures Distinct(Keys(r))
    ensures k !in Keys(d) ==> r == d + [(k, v)]
    ensures k in Keys(d) ==> |r| == |d|
    ensures k in Keys(d) ==>
      forall i :: 0 <= i < |d| ==> r[i] == (if d[i].0 == k then (k, v) else d[i])
  {
    if |d| == 0 then [(k, v)]
    else
      assert Keys(d[1..]) == Keys(d)[1..];
      assert Keys(d)[0] == d[0].0;
      if d[0].0 == k then
        assert forall i :: 0 < i < |d| ==> d[i].0 == Keys(d)[i] != k;
        var r := [(k, v)] + d[1..];
        assert Keys(r) == Keys(d);
        r
      else
        var tail := Put(d[1..], k, v);
        assert d[0].0 !in Keys(d[1..]) by {
          assert forall i :: 0 < i < |d| ==> d[i].0 == Keys(d)[i] != Keys(d)[0];
        }
        assert d[0].0 !in Keys(tail) by {
          if k !in Keys(d[1..]) {
            assert Keys(tail) == Keys(d[1..]) + [k];
          } else {
            assert Keys(tail) == Keys(d[1..]);
          }
        }
        var r := [d[0]] + tail;
        assert Keys(r) == [d[0].0] + Keys(tail);
        r
  }

  /** The keys after `d[k] = v`: unchanged when `k` is present, else `k`
      appended. */
  lemma PutKeys<K, V>(d: OrderedDict<K, V>, k: K, v: V)
    requires Distinct(Keys(d))
    ensures Keys(Put(d, k, v)) == if k in Keys(d) then Keys(d) else Keys(d) + [k]
  {
    var r := Put(d, k, v);
    if k in Keys(d) {
      assert forall i :: 0 <= i < |d| ==> Keys(r)[i] == Keys(d)[i];
    } else {
      assert forall i :: 0 <= i < |d| ==> Keys(r)[i] == Keys(d)[i];
    }
  }

  /** The entries after `d[k] = v`: an entry under `k` holds `v`, and every
      other entry is the one `d` holds at the same position. */
  lemma PutEntries<K, V>(d: OrderedDict<K, V>, k: K, v: V)
    requires Distinct(Keys(d))
    ensures var r := Put(d, k, v);
      forall i :: 0 <= i < |r| ==>
        (r[i].0 == k ==> r[i].1 == v) && (r[i].0 != k ==> i < |d| && r[i] == d[i])
  {
    var r := Put(d, k, v);
    if k !in Keys(d) {
      forall i | 0 <= i < |d| ensures d[i].0 != k {
        assert d[i].0 == Keys(d)[i];
      }
    }
  }
}
