/**
 * Python's `dict` as the engine uses it: key/value pairs kept in
 * first-insertion order, where assigning to an existing key replaces its
 * value in place and assigning to a new key appends it.
 */
module OrderedDict {
  import opened Options

  type Dict<K, V> = seq<(K, V)>

  function Keys<K, V>(d: Dict<K, V>): (ks: seq<K>)
    ensures |ks| == |d|
    ensures forall i | 0 <= i < |d| :: ks[i] == d[i].0
  {
    if |d| == 0 then [] else [d[0].0] + Keys(d[1..])
  }

  ghost predicate UniqueKeys<K, V>(d: Dict<K, V>) {
    forall i, j | 0 <= i < j < |d| :: d[i].0 != d[j].0
  }

  /** `d.get(k)`. */
  function Get<K(==), V>(d: Dict<K, V>, k: K): (r: Option<V>)
    ensures r.None? <==> k !in Keys(d)
    ensures r.Some? ==> (k, r.value) in d
  {
    if |d| == 0 then None
    else if d[0].0 == k then Some(d[0].1)
    else Get(d[1..], k)
  }

  /** `d[k] = v`: replaces the value of a present key in place, or appends a new key. */
  function Put<K(==,!new), V>(d: Dict<K, V>, k: K, v: V): Dict<K, V>
  {
    if |d| == 0 then [(k, v)]
    else if d[0].0 == k then [(k, v)] + d[1..]
    else [d[0]] + Put(d[1..], k, v)
  }

  /** After `d[k] = v`, `k` reads as `v` and every other key reads as before. */
  lemma {:induction false} PutGet<K(!new), V>(d: Dict<K, V>, k: K, v: V, k': K)
    ensures Get(Put(d, k, v), k') == if k' == k then Some(v) else Get(d, k')
  {
    if |d| > 0 {
      var r := Put(d, k, v);
      if d[0].0 == k {
        assert r[1..] == d[1..];
      } else {
        assert r[1..] == Put(d[1..], k, v);
        PutGet(d[1..], k, v, k');
      }
    }
  }

  /** Assignment to a present key keeps the key order; to a new key, appends it. */
  lemma {:induction false} PutKeys<K(!new), V>(d: Dict<K, V>, k: K, v: V)
    ensures Keys(Put(d, k, v)) == if k in Keys(d) then Keys(d) else Keys(d) + [k]
  {
    if |d| > 0 && d[0].0 != k {
      PutKeys(d[1..], k, v);
      assert Put(d, k, v) == [d[0]] + Put(d[1..], k, v);
      assert Keys(d) == [d[0].0] + Keys(d[1..]);
    }
  }

  /** Assigning a new key appends the pair at the end. */
  lemma PutNew<K(!new), V>(d: Dict<K, V>, k: K, v: V)
    requires k !in Keys(d)
    ensures Put(d, k, v) == d + [(k, v)]
  {
    assert forall i | 0 <= i < |d| :: Keys(d)[i] == d[i].0;
    PutAppend(d, k, v);
  }

  lemma {:induction false} PutAppend<K(!new), V>(d: Dict<K, V>, k: K, v: V)
    requires forall i | 0 <= i < |d| :: d[i].0 != k
    ensures Put(d, k, v) == d + [(k, v)]
  {
    if |d| > 0 {
      assert forall i | 0 <= i < |d| - 1 :: d[1..][i] == d[i + 1];
      PutAppend(d[1..], k, v);
      assert d == [d[0]] + d[1..];
    }
  }

  /** Assignment keeps keys distinct. */
  lemma PutUnique<K(!new), V>(d: Dict<K, V>, k: K, v: V)
    requires UniqueKeys(d)
    ensures UniqueKeys(Put(d, k, v))
  {
    var r := Put(d, k, v);
    PutKeys(d, k, v);
    if k !in Keys(d) {
      forall i, j | 0 <= i < j < |r| ensures r[i].0 != r[j].0 {
        assert Keys(r)[i] == r[i].0 && Keys(r)[j] == r[j].0;
      }
    } else {
      forall i, j | 0 <= i < j < |r| ensures r[i].0 != r[j].0 {
        assert Keys(r)[i] == r[i].0 && Keys(r)[j] == r[j].0;
        assert Keys(d)[i] == d[i].0 && Keys(d)[j] == d[j].0;
      }
    }
  }

  /** Assigning each pair of `ps` in turn: `for k, v in ps: d[k] = v`. */
  function PutAll<K(==,!new), V>(d: Dict<K, V>, ps: seq<(K, V)>): (r: Dict<K, V>)
  {
    if |ps| == 0 then d
    else Put(PutAll(d, ps[..|ps| - 1]), ps[|ps| - 1].0, ps[|ps| - 1].1)
  }

  /** The value the last pair with key `k` carries, scanning `ps` from its end. */
  function LastValue<K(==), V>(ps: seq<(K, V)>, k: K): Option<V>
  {
    if |ps| == 0 then None
    else if ps[|ps| - 1].0 == k then Some(ps[|ps| - 1].1)
    else LastValue(ps[..|ps| - 1], k)
  }

  /** After a run of assignments the last one written to a key wins; untouched keys keep their value. */
  lemma {:induction false} PutAllGet<K(!new), V>(d: Dict<K, V>, ps: seq<(K, V)>, k: K)
    ensures Get(PutAll(d, ps), k) == if LastValue(ps, k).Some? then LastValue(ps, k) else Get(d, k)
  {
    if |ps| > 0 {
      var n := |ps| - 1;
      PutAllGet(d, ps[..n], k);
      PutGet(PutAll(d, ps[..n]), ps[n].0, ps[n].1, k);
    }
  }

  /** The pair at index `j` is the last one written for its key. */
  lemma {:induction false} LastValueAt<K, V>(ps: seq<(K, V)>, j: nat)
    requires j < |ps|
    requires forall j' | j < j' < |ps| :: ps[j'].0 != ps[j].0
    ensures LastValue(ps, ps[j].0) == Some(ps[j].1)
  {
    if j < |ps| - 1 {
      var front := ps[..|ps| - 1];
      assert front[j] == ps[j];
      LastValueAt(front, j);
    }
  }

  /** A key that no pair mentions has no last value. */
  lemma {:induction false} LastValueAbsent<K, V>(ps: seq<(K, V)>, k: K)
    ensures LastValue(ps, k).None? <==> forall j | 0 <= j < |ps| :: ps[j].0 != k
  {
    if |ps| > 0 {
      var front := ps[..|ps| - 1];
      LastValueAbsent(front, k);
      assert forall j | 0 <= j < |front| :: front[j] == ps[j];
    }
  }

  /** Assigning pairs with distinct keys to an empty dict yields exactly those pairs, in order. */
  lemma {:induction false} PutAllFresh<K(!new), V>(ps: seq<(K, V)>)
    requires UniqueKeys(ps)
    ensures PutAll([], ps) == ps
  {
    if |ps| > 0 {
      var n := |ps| - 1;
      var front := ps[..n];
      assert UniqueKeys(front);
      PutAllFresh(front);
      assert ps[n].0 !in Keys(front) by {
        forall j | 0 <= j < n ensures Keys(front)[j] != ps[n].0 {
          assert front[j] == ps[j];
        }
      }
      PutNew(front, ps[n].0, ps[n].1);
      assert front + [ps[n]] == ps;
    }
  }

  /** A run of assignments keeps keys distinct. */
  lemma {:induction false} PutAllUnique<K(!new), V>(d: Dict<K, V>, ps: seq<(K, V)>)
    requires UniqueKeys(d)
    ensures UniqueKeys(PutAll(d, ps))
  {
    if |ps| > 0 {
      PutAllUnique(d, ps[..|ps| - 1]);
      PutUnique(PutAll(d, ps[..|ps| - 1]), ps[|ps| - 1].0, ps[|ps| - 1].1);
    }
  }
}
