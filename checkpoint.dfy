/**
 * The key renaming in `load_model` (app.py line 20): the checkpoint's
 * `state_dict` is rebuilt with every key `k` replaced by `k[6:]`, dropping
 * the six-character prefix (such as "model.") that the training wrapper put
 * in front of the network's parameter names.
 *
 * A Python dict remembers the order in which keys were first inserted, and
 * the comprehension inserts in the order `items()` yields, so a dict is
 * modelled as a sequence of (key, value) entries with distinct keys.
 * Parameter tensors are an opaque value type V.
 */
module Checkpoint {
  import opened Wrappers

  /** Length of the prefix removed from every key. */
  const PrefixLength: nat := 6

  type Dict<V> = seq<(string, V)>

  /** The keys of a dict, in insertion order. */
  function Keys<V>(d: Dict<V>): (ks: seq<string>)
    ensures |ks| == |d| && forall n :: 0 <= n < |d| ==> ks[n] == d[n].0
  {
    if d == [] then [] else [d[0].0] + Keys(d[1..])
  }

  /** No key occurs twice, as in every Python dict. */
  predicate DistinctKeys<V>(d: Dict<V>) {
    forall n, n' :: 0 <= n < n' < |d| ==> d[n].0 != d[n'].0
  }

  /** `d.get(k)`. */
  function Get<V>(d: Dict<V>, k: string): (r: Option<V>)
    ensures r.Some? <==> k in Keys(d)
    ensures DistinctKeys(d) ==> forall n :: 0 <= n < |d| && d[n].0 == k ==> r == Some(d[n].1)
  {
    if d == [] then None
    else if d[0].0 == k then Some(d[0].1)
    else Get(d[1..], k)
  }

  /**
   * `d[k] = v`: an existing key keeps its position and takes the new value,
   * a new key is appended.
   */
  function Set<V>(d: Dict<V>, k: string, v: V): (r: Dict<V>)
    ensures |r| == if k in Keys(d) then |d| else |d| + 1
    ensures forall n :: 0 <= n < |d| ==> r[n].0 == d[n].0
    ensures forall n :: 0 <= n < |d| && d[n].0 != k ==> r[n].1 == d[n].1
    ensures k !in Keys(d) ==> r[|d|] == (k, v)
  {
    if d == [] then [(k, v)]
    else if d[0].0 == k then [(k, v)] + d[1..]
    else [d[0]] + Set(d[1..], k, v)
  }

  /** `k[6:]`: Python slicing of a key shorter than the prefix gives "". */
  function Strip(k: string): (s: string)
    ensures |s| == if |k| >= PrefixLength then |k| - PrefixLength else 0
  {
    if |k| >= PrefixLength then k[PrefixLength..] else ""
  }

  /** A key long enough to carry the prefix is the prefix followed by its stripped name. */
  lemma PrefixThenStripped(k: string)
    requires |k| >= PrefixLength
    ensures k == k[..PrefixLength] + Strip(k)
  {
  }

  /** `{k[6:]: v for (k, v) in d.items()}`, entries inserted in order. */
  function StripKeys<V>(d: Dict<V>): (r: Dict<V>)
    ensures |r| <= |d|
  {
    if d == [] then []
    else
      var (k, v) := d[|d| - 1];
      Set(StripKeys(d[..|d| - 1]), Strip(k), v)
  }

  /**
   * Reference definition of what the comprehension stores under `s`: the
   * value of the LAST entry whose key strips to `s`, since each later
   * assignment overwrites the earlier one.
   */
  function LastStrippedTo<V>(d: Dict<V>, s: string): (r: Option<V>)
    ensures r.Some? <==> exists n :: 0 <= n < |d| && Strip(d[n].0) == s
  {
    if d == [] then None
    else if Strip(d[|d| - 1].0) == s then Some(d[|d| - 1].1)
    else
      var r := LastStrippedTo(d[..|d| - 1], s);
      assert forall n :: 0 <= n < |d| - 1 ==> d[..|d| - 1][n] == d[n];
      r
  }

  /** Setting a key never introduces a duplicate key. */
  lemma {:induction false} SetDistinct<V>(d: Dict<V>, k: string, v: V)
    requires DistinctKeys(d)
    ensures DistinctKeys(Set(d, k, v))
  {
    if d != [] && d[0].0 != k {
      SetDistinct(d[1..], k, v);
      var r := Set(d, k, v);
      forall n, n' | 0 <= n < n' < |r|
        ensures r[n].0 != r[n'].0
      {
        if n == 0 {
          assert r[n'].0 == Set(d[1..], k, v)[n' - 1].0;
          if n' - 1 < |d[1..]| {
            assert r[n'].0 == d[n'].0;
          } else {
            assert r[n'].0 == k;
          }
        }
      }
    }
  }

  /** After `d[k] = v`, looking up k gives v and every other key is untouched. */
  lemma {:induction false} GetSet<V>(d: Dict<V>, k: string, v: V, k': string)
    ensures Get(Set(d, k, v), k') == if k' == k then Some(v) else Get(d, k')
  {
    if d != [] && d[0].0 != k {
      GetSet(d[1..], k, v, k');
    }
  }

  /** Setting a key the dict does not hold appends it. */
  lemma {:induction false} SetNew<V>(d: Dict<V>, k: string, v: V)
    requires k !in Keys(d)
    ensures Set(d, k, v) == d + [(k, v)]
  {
    if d != [] {
      assert Keys(d) == [d[0].0] + Keys(d[1..]);
      SetNew(d[1..], k, v);
      assert d == [d[0]] + d[1..];
    }
  }

  /** The comprehension builds a dict: its keys are distinct. */
  lemma {:induction false} StripKeysDistinct<V>(d: Dict<V>)
    ensures DistinctKeys(StripKeys(d))
  {
    if d != [] {
      StripKeysDistinct(d[..|d| - 1]);
      SetDistinct(StripKeys(d[..|d| - 1]), Strip(d[|d| - 1].0), d[|d| - 1].1);
    }
  }

  /**
   * What the renamed dict stores under `s` is the value of the last input
   * entry whose key strips to `s`, carried over unchanged; and `s` is a key
   * of the output exactly when some input key strips to it.
   */
  lemma {:induction false} StripKeysGet<V>(d: Dict<V>, s: string)
    ensures Get(StripKeys(d), s) == LastStrippedTo(d, s)
  {
    if d != [] {
      var front := d[..|d| - 1];
      StripKeysGet(front, s);
      GetSet(StripKeys(front), Strip(d[|d| - 1].0), d[|d| - 1].1, s);
    }
  }

  /**
   * Every output key is some input key with its prefix dropped, and every
   * input key, stripped, is an output key.
   */
  lemma {:induction false} StripKeysKeys<V>(d: Dict<V>, s: string)
    ensures s in Keys(StripKeys(d)) <==> exists n :: 0 <= n < |d| && Strip(d[n].0) == s
  {
    StripKeysGet(d, s);
  }

  /** No two keys strip to the same name. */
  predicate StripsApart<V>(d: Dict<V>) {
    forall n, n' :: 0 <= n < n' < |d| ==> Strip(d[n].0) != Strip(d[n'].0)
  }

  /** Every entry with its key stripped, in the same order, nothing merged. */
  function StripEach<V>(d: Dict<V>): (r: Dict<V>)
    ensures |r| == |d|
  {
    seq(|d|, n requires 0 <= n < |d| => (Strip(d[n].0), d[n].1))
  }

  /** Without collisions nothing is lost: the output has one entry per input entry, in the same order. */
  lemma {:induction false} StripKeysNoCollision<V>(d: Dict<V>)
    requires StripsApart(d)
    ensures StripKeys(d) == StripEach(d)
  {
    if d != [] {
      var front := d[..|d| - 1];
      StripsApartFront(d);
      StripKeysNoCollision(front);
      LastStripsFresh(d, StripEach(front));
      SetNew(StripEach(front), Strip(d[|d| - 1].0), d[|d| - 1].1);
      StripEachSnoc(d);
    }
  }

  /** StripEach of a dict is StripEach of all but its last entry, then that entry stripped. */
  lemma StripEachSnoc<V>(d: Dict<V>)
    requires d != []
    ensures StripEach(d) == StripEach(d[..|d| - 1]) + [(Strip(d[|d| - 1].0), d[|d| - 1].1)]
  {
  }

  /** Dropping the last entry keeps the stripped keys apart. */
  lemma StripsApartFront<V>(d: Dict<V>)
    requires d != [] && StripsApart(d)
    ensures StripsApart(d[..|d| - 1])
  {
    var front := d[..|d| - 1];
    forall n, n' | 0 <= n < n' < |front|
      ensures Strip(front[n].0) != Strip(front[n'].0)
    {
      assert front[n] == d[n] && front[n'] == d[n'];
    }
  }

  /** The last key, stripped, is not among the stripped keys before it. */
  lemma LastStripsFresh<V>(d: Dict<V>, sk: Dict<V>)
    requires d != [] && StripsApart(d)
    requires |sk| == |d| - 1 && forall n :: 0 <= n < |sk| ==> sk[n].0 == Strip(d[n].0)
    ensures Strip(d[|d| - 1].0) !in Keys(sk)
  {
    forall n | 0 <= n < |sk|
      ensures Keys(sk)[n] != Strip(d[|d| - 1].0)
    {
    }
  }

  /**
   * Two keys that strip to the same name: the output has one entry, at the
   * first key's position, holding the second key's value.
   */
  lemma CollisionLastWins<V>(k1: string, v1: V, k2: string, v2: V)
    requires Strip(k1) == Strip(k2)
    ensures StripKeys([(k1, v1), (k2, v2)]) == [(Strip(k1), v2)]
  {
    assert [(k1, v1), (k2, v2)][..1] == [(k1, v1)];
    assert [(k1, v1)][..0] == [];
  }

  /**
   * Dropping `k[:6]` from every key presumes that all keys carry the same
   * six-character prefix. When they do, no two keys collide, and each
   * parameter is found under its name without the prefix.
   */
  lemma {:induction false} SharedPrefixLoads<V>(d: Dict<V>, prefix: string, name: string)
    requires |prefix| == PrefixLength && DistinctKeys(d)
    requires forall n :: 0 <= n < |d| ==> |d[n].0| >= PrefixLength && d[n].0[..PrefixLength] == prefix
    ensures StripsApart(d)
    ensures Get(StripKeys(d), name) == Get(d, prefix + name)
  {
    forall n | 0 <= n < |d|
      ensures d[n].0 == prefix + Strip(d[n].0)
    {
      PrefixThenStripped(d[n].0);
    }
    StripKeysGet(d, name);
    if n :| 0 <= n < |d| && d[n].0 == prefix + name {
      LastStrippedIsOnly(d, name, n);
    }
  }

  /** When only entry n strips to `s`, the reference definition finds its value. */
  lemma {:induction false} LastStrippedIsOnly<V>(d: Dict<V>, s: string, n: nat)
    requires n < |d| && Strip(d[n].0) == s
    requires forall n' :: 0 <= n' < |d| && n' != n ==> Strip(d[n'].0) != s
    ensures LastStrippedTo(d, s) == Some(d[n].1)
  {
    if n < |d| - 1 {
      var front := d[..|d| - 1];
      LastStrippedIsOnly(front, s, n);
    }
  }
}
