/** PHP's `$array[$key] = $value` applied pair by pair, seen as a map:
    a later pair for a key overwrites an earlier one, keys from the starting
    array that no pair names survive untouched. (The order PHP keeps its
    keys in is not modelled.) */
module PhpArray {

  function Store<K, V>(base: map<K, V>, kvs: seq<(K, V)>): map<K, V>
    decreases |kvs|
  {
    if kvs == [] then base
    else Store(base, kvs[..|kvs| - 1])[kvs[|kvs| - 1].0 := kvs[|kvs| - 1].1]
  }

  /** The keys are the starting keys plus every key a pair names. */
  lemma {:induction false} StoreKeys<K, V>(base: map<K, V>, kvs: seq<(K, V)>)
    ensures Store(base, kvs).Keys == base.Keys + set i | 0 <= i < |kvs| :: kvs[i].0
    decreases |kvs|
  {
    if kvs != [] {
      var init := kvs[..|kvs| - 1];
      StoreKeys(base, init);
      assert (set i | 0 <= i < |kvs| :: kvs[i].0) == (set i | 0 <= i < |init| :: init[i].0) + {kvs[|kvs| - 1].0};
    }
  }

  /** Storing one more pair is one more assignment. */
  lemma StoreSnoc<K, V>(base: map<K, V>, kvs: seq<(K, V)>, kv: (K, V))
    ensures Store(base, kvs + [kv]) == Store(base, kvs)[kv.0 := kv.1]
  {
    assert (kvs + [kv])[..|kvs|] == kvs;
  }

  /** The value of a key is the value of the LAST pair that names it. */
  lemma {:induction false} StoreLastWins<K, V>(base: map<K, V>, kvs: seq<(K, V)>, i: nat)
    requires i < |kvs|
    requires forall j :: i < j < |kvs| ==> kvs[j].0 != kvs[i].0
    ensures kvs[i].0 in Store(base, kvs) && Store(base, kvs)[kvs[i].0] == kvs[i].1
    decreases |kvs|
  {
    if i < |kvs| - 1 {
      var init := kvs[..|kvs| - 1];
      StoreLastWins(base, init, i);
    }
  }

  /** A key that no pair names keeps the value it had in the starting array. */
  lemma {:induction false} StoreUntouched<K, V>(base: map<K, V>, kvs: seq<(K, V)>, k: K)
    requires k in base
    requires forall j :: 0 <= j < |kvs| ==> kvs[j].0 != k
    ensures k in Store(base, kvs) && Store(base, kvs)[k] == base[k]
    decreases |kvs|
  {
    if kvs != [] {
      StoreUntouched(base, kvs[..|kvs| - 1], k);
    }
  }

  /** Growing a prefix by one element. */
  lemma TakeSnoc<T>(s: seq<T>, i: nat)
    requires i < |s|
    ensures s[..i + 1] == s[..i] + [s[i]]
  {
  }
}
