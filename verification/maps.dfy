/** Building a map by successive `put`s, as the Java constructors and loops
    over configuration entries do with a `HashMap`. */
module Maps {

  /** Every key that some entry of `kvs` sets. */
  function KeysOf<K, V>(kvs: seq<(K, V)>): set<K>
  {
    set i | 0 <= i < |kvs| :: kvs[i].0
  }

  /** No entry after position `i` puts the same key again. */
  predicate LastFor<K(==), V>(kvs: seq<(K, V)>, i: int)
    requires 0 <= i < |kvs|
  {
    forall j :: i < j < |kvs| ==> kvs[j].0 != kvs[i].0
  }

  /** `m.put(k, v)` for each entry in order. A key put more than once keeps
      the value of its last entry; keys no entry puts keep their old value. */
  function PutAll<K(==), V>(m: map<K, V>, kvs: seq<(K, V)>): (r: map<K, V>)
    ensures r.Keys == m.Keys + KeysOf(kvs)
    ensures forall k :: k in m && k !in KeysOf(kvs) ==> r[k] == m[k]
    ensures forall i :: 0 <= i < |kvs| && LastFor(kvs, i) ==> r[kvs[i].0] == kvs[i].1
    decreases |kvs|
  {
    if |kvs| == 0 then m
    else
      var rest := kvs[1..];
      var r := PutAll(m[kvs[0].0 := kvs[0].1], rest);
      assert KeysOf(kvs) == {kvs[0].0} + KeysOf(rest) by {
        forall k | k in KeysOf(kvs) ensures k in {kvs[0].0} + KeysOf(rest) {
          var i :| 0 <= i < |kvs| && kvs[i].0 == k;
          if i > 0 { assert rest[i - 1] == kvs[i]; }
        }
        forall k | k in KeysOf(rest) ensures k in KeysOf(kvs) {
          var i :| 0 <= i < |rest| && rest[i].0 == k;
          assert kvs[i + 1] == rest[i];
        }
      }
      assert forall i :: 1 <= i < |kvs| && LastFor(kvs, i) ==> LastFor(rest, i - 1) by {
        forall i | 1 <= i < |kvs| && LastFor(kvs, i) ensures LastFor(rest, i - 1) {
          forall j | i - 1 < j < |rest| ensures rest[j].0 != rest[i - 1].0 {
            assert rest[j] == kvs[j + 1];
          }
        }
      }
      assert LastFor(kvs, 0) ==> kvs[0].0 !in KeysOf(rest) by {
        forall j | 0 <= j < |rest| ensures rest[j] == kvs[j + 1] { }
      }
      r
  }

  /** One more `put` after the others. */
  lemma {:induction false} PutAllSnoc<K, V>(m: map<K, V>, kvs: seq<(K, V)>, k: K, v: V)
    ensures PutAll(m, kvs + [(k, v)]) == PutAll(m, kvs)[k := v]
    decreases |kvs|
  {
    if |kvs| > 0 {
      assert (kvs + [(k, v)])[1..] == kvs[1..] + [(k, v)];
      PutAllSnoc(m[kvs[0].0 := kvs[0].1], kvs[1..], k, v);
    }
  }
}
