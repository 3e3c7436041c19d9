/**
 * PHP arrays with string keys, as the engine uses them for the tenant map,
 * the per-model tenant selection and the morph-relation configuration:
 * an insertion-ordered list of entries whose keys are pairwise distinct.
 */
module PhpArray {
  import opened Wrappers

  ghost predicate UniqueKeys<V>(a: seq<(string, V)>) {
    forall i, j :: 0 <= i < j < |a| ==> a[i].0 != a[j].0
  }

  type Arr<V> = a: seq<(string, V)> | UniqueKeys(a) witness []

  /** `array_keys`: the keys in insertion order. */
  function Keys<V>(a: seq<(string, V)>): (ks: seq<string>)
    ensures |ks| == |a|
    ensures forall i :: 0 <= i < |a| ==> ks[i] == a[i].0
  {
    seq(|a|, i requires 0 <= i < |a| => a[i].0)
  }

  /** `array_values`: the values in insertion order. */
  function Values<V>(a: seq<(string, V)>): (vs: seq<V>)
    ensures |vs| == |a|
    ensures forall i :: 0 <= i < |a| ==> vs[i] == a[i].1
  {
    seq(|a|, i requires 0 <= i < |a| => a[i].1)
  }

  /** `$a[$k]` when `array_key_exists($k, $a)`, and `None` otherwise. */
  function Get<V>(a: seq<(string, V)>, k: string): (r: Option<V>)
    ensures r.Some? <==> k in Keys(a)
  {
    if |a| == 0 then None
    else if a[0].0 == k then Some(a[0].1)
    else
      assert Keys(a[1..]) == Keys(a)[1..];
      Get(a[1..], k)
  }

  /** In an array, every entry is what a lookup of its key returns. */
  lemma {:induction false} GetEntry<V>(a: Arr<V>, i: nat)
    requires i < |a|
    ensures Get(a, a[i].0) == Some(a[i].1)
  {
    if i > 0 {
      GetEntry(a[1..], i - 1);
    }
  }

  /** A non-empty array has its first key. */
  lemma FirstKeyFound<V>(a: Arr<V>)
    ensures |a| > 0 ==> Get(a, a[0].0) == Some(a[0].1)
  {
    if |a| > 0 {
      GetEntry(a, 0);
    }
  }

  /** Position of key `k` in the array. */
  function IndexOf<V>(a: seq<(string, V)>, k: string): (i: nat)
    requires k in Keys(a)
    ensures i < |a| && a[i].0 == k
    ensures forall j :: 0 <= j < i ==> a[j].0 != k
  {
    if a[0].0 == k then 0
    else
      assert Keys(a[1..]) == Keys(a)[1..];
      1 + IndexOf(a[1..], k)
  }

  /** The first key of an array does not occur again in its tail, which is an array too. */
  lemma HeadNotInTail<V>(a: Arr<V>)
    requires |a| > 0
    ensures UniqueKeys(a[1..])
    ensures a[0].0 !in Keys(a[1..])
    ensures Keys(a) == [a[0].0] + Keys(a[1..])
  {
    assert Keys(a) == [a[0].0] + Keys(a[1..]);
  }

  /** An entry whose key is new may be put in front of an array. */
  lemma Cons<V>(e: (string, V), t: Arr<V>)
    requires e.0 !in Keys(t)
    ensures UniqueKeys([e] + t)
    ensures Keys([e] + t) == [e.0] + Keys(t)
    ensures ([e] + t)[1..] == t
  {
    ConsKeys(e, t);
    ConsUnique(e, t);
  }

  lemma ConsKeys<V>(e: (string, V), t: seq<(string, V)>)
    ensures Keys([e] + t) == [e.0] + Keys(t)
  {
    var r := [e] + t;
    assert forall i :: 0 <= i < |r| ==> Keys(r)[i] == ([e.0] + Keys(t))[i];
  }

  lemma ConsUnique<V>(e: (string, V), t: seq<(string, V)>)
    requires UniqueKeys(t)
    requires forall i :: 0 <= i < |t| ==> t[i].0 != e.0
    ensures UniqueKeys([e] + t)
  {
    var r := [e] + t;
    forall i, j | 0 <= i < j < |r|
      ensures r[i].0 != r[j].0
    {
      assert r[j] == t[j - 1];
      if i > 0 {
        assert r[i] == t[i - 1];
      }
    }
  }

  /** What `Put` promises of its result `r`, for the array `a` it was given. */
  ghost predicate PutSpec<V>(a: Arr<V>, k: string, v: V, r: seq<(string, V)>) {
    && UniqueKeys(r)
    && Get(r, k) == Some(v)
    && (forall k' :: k' != k ==> Get(r, k') == Get(a, k'))
    && (k in Keys(a) ==> Keys(r) == Keys(a))
    && (k !in Keys(a) ==> Keys(r) == Keys(a) + [k])
  }

  /** Overwriting the entry of an existing key in place. */
  lemma PutExisting<V>(a: Arr<V>, k: string, v: V)
    requires k in Keys(a)
    ensures PutSpec(a, k, v, a[IndexOf(a, k) := (k, v)])
  {
    var i := IndexOf(a, k);
    var r := a[i := (k, v)];
    assert Keys(r) == Keys(a);
    var ra: Arr<V> := r;
    forall k' ensures Get(r, k') == if k' == k then Some(v) else Get(a, k') {
      if k' in Keys(a) {
        var j := IndexOf(a, k');
        GetEntry(ra, j);
        GetEntry(a, j);
      }
    }
  }

  /** Appending the entry of a new key. */
  lemma PutNew<V>(a: Arr<V>, k: string, v: V)
    requires k !in Keys(a)
    ensures PutSpec(a, k, v, a + [(k, v)])
  {
    var r := a + [(k, v)];
    assert Keys(r) == Keys(a) + [k];
    var ra: Arr<V> := r;
    forall k' ensures Get(r, k') == if k' == k then Some(v) else Get(a, k') {
      if k' in Keys(r) {
        var j := IndexOf(ra, k');
        GetEntry(ra, j);
        if j < |a| {
          GetEntry(a, j);
        }
      }
    }
  }

  /** `$a[$k] = $v`: an existing key keeps its position, a new key goes last. */
  function Put<V>(a: Arr<V>, k: string, v: V): (r: Arr<V>)
    ensures Get(r, k) == Some(v)
    ensures forall k' :: k' != k ==> Get(r, k') == Get(a, k')
    ensures k in Keys(a) ==> Keys(r) == Keys(a)
    ensures k !in Keys(a) ==> Keys(r) == Keys(a) + [k]
  {
    if k in Keys(a) then
      PutExisting(a, k, v);
      a[IndexOf(a, k) := (k, v)]
    else
      PutNew(a, k, v);
      a + [(k, v)]
  }

  /** The sequence without its entry at position `i`. */
  function Drop<T>(s: seq<T>, i: nat): seq<T>
    requires i < |s|
  {
    s[..i] + s[i + 1..]
  }

  /** Dropping position `i` shifts the later entries down by one. */
  lemma DropShape<V>(a: seq<(string, V)>, i: nat)
    requires i < |a|
    ensures |Drop(a, i)| == |a| - 1
    ensures forall p :: 0 <= p < i ==> Drop(a, i)[p] == a[p]
    ensures forall p :: i <= p < |a| - 1 ==> Drop(a, i)[p] == a[p + 1]
  {
  }

  /** Dropping position `i` of an array leaves an array without that entry's key. */
  lemma DropKeys<V>(a: Arr<V>, i: nat)
    requires i < |a|
    ensures UniqueKeys(Drop(a, i))
    ensures forall k' :: k' in Keys(Drop(a, i)) <==> k' in Keys(a) && k' != a[i].0
  {
    var r := Drop(a, i);
    DropShape(a, i);
    forall p, q | 0 <= p < q < |r| ensures r[p].0 != r[q].0 {
      assert r[p] == a[if p < i then p else p + 1];
      assert r[q] == a[if q < i then q else q + 1];
    }
    forall k' ensures k' in Keys(r) <==> k' in Keys(a) && k' != a[i].0 {
      if k' in Keys(r) {
        var p :| 0 <= p < |r| && Keys(r)[p] == k';
        assert Keys(a)[if p < i then p else p + 1] == k';
      }
      if k' in Keys(a) && k' != a[i].0 {
        var j := IndexOf(a, k');
        assert Keys(r)[if j < i then j else j - 1] == k';
      }
    }
  }

  /** Dropping an entry drops its key from the key list, in place. */
  lemma DropKeysInOrder<V>(a: seq<(string, V)>, i: nat)
    requires i < |a|
    ensures Keys(Drop(a, i)) == Drop(Keys(a), i)
  {
    DropShape(a, i);
    var ks := Keys(a);
    assert |Drop(ks, i)| == |a| - 1;
    forall p | 0 <= p < |a| - 1
      ensures Keys(Drop(a, i))[p] == Drop(ks, i)[p]
    {
      if p < i {
        assert Drop(ks, i)[p] == ks[p];
      } else {
        assert Drop(ks, i)[p] == ks[p + 1];
      }
    }
  }

  /** Removing the entry of an existing key. */
  lemma UnsetExisting<V>(a: Arr<V>, k: string)
    requires k in Keys(a)
    ensures UniqueKeys(Drop(a, IndexOf(a, k)))
    ensures forall k' :: Get(Drop(a, IndexOf(a, k)), k') == if k' == k then None else Get(a, k')
    ensures Keys(Drop(a, IndexOf(a, k))) == Drop(Keys(a), IndexOf(a, k))
  {
    var i := IndexOf(a, k);
    DropKeysInOrder(a, i);
    DropShape(a, i);
    DropKeys(a, i);
    var ra: Arr<V> := Drop(a, i);
    forall k' ensures Get(ra, k') == if k' == k then None else Get(a, k') {
      if k' in Keys(ra) {
        var j := IndexOf(ra, k');
        GetEntry(ra, j);
        GetEntry(a, if j < i then j else j + 1);
      }
    }
  }

  /** `unset($a[$k])`: the entry for `k` goes, the others stay in their order. */
  function Unset<V>(a: Arr<V>, k: string): (r: Arr<V>)
    ensures Get(r, k) == None
    ensures forall k' :: k' != k ==> Get(r, k') == Get(a, k')
    ensures k !in Keys(a) ==> r == a
    ensures k in Keys(a) ==> |r| == |a| - 1
    ensures k in Keys(a) ==> Keys(r) == Keys(a)[..IndexOf(a, k)] + Keys(a)[IndexOf(a, k) + 1..]
  {
    if k in Keys(a) then
      UnsetExisting(a, k);
      Drop(a, IndexOf(a, k))
    else a
  }

  /** The entries whose key satisfies `keep`, in their original order. */
  function Select<V>(a: Arr<V>, keep: string -> bool): (r: Arr<V>)
    ensures forall k :: Get(r, k) == (if keep(k) then Get(a, k) else None)
    decreases |a|
  {
    if |a| == 0 then []
    else
      HeadNotInTail(a);
      var tail: Arr<V> := a[1..];
      var t := Select(tail, keep);
      if keep(a[0].0) then
        assert Get(t, a[0].0) == None;
        Cons(a[0], t);
        [a[0]] + t
      else t
  }

  /** `array_intersect_key($a, array_flip($ks))`, which is Laravel's `Collection::only`. */
  function Only<V>(a: Arr<V>, ks: seq<string>): (r: Arr<V>)
    ensures forall k :: Get(r, k) == (if k in ks then Get(a, k) else None)
  {
    Select(a, k => k in ks)
  }

  /** `array_filter($a, $p)`: the entries whose value satisfies `p`, in their original order. */
  function Filter<V>(a: Arr<V>, p: V -> bool): (r: Arr<V>)
    ensures forall k :: Get(r, k) == (if Get(a, k).Some? && p(Get(a, k).value) then Get(a, k) else None)
    decreases |a|
  {
    if |a| == 0 then []
    else
      HeadNotInTail(a);
      var tail: Arr<V> := a[1..];
      var t := Filter(tail, p);
      if p(a[0].1) then
        assert Get(t, a[0].0) == None;
        Cons(a[0], t);
        [a[0]] + t
      else t
  }

  /** A lookup in a concatenation looks in the left part first. */
  lemma {:induction false} GetAppend<V>(a: seq<(string, V)>, b: seq<(string, V)>, k: string)
    ensures Get(a + b, k) == (if Get(a, k).Some? then Get(a, k) else Get(b, k))
  {
    if |a| > 0 {
      assert (a + b)[1..] == a[1..] + b;
      GetAppend(a[1..], b, k);
    } else {
      assert a + b == b;
    }
  }

  /** The array union `$a + $b`: keys of `a` win, `b` only contributes keys `a` lacks. */
  function Union<V>(a: Arr<V>, b: Arr<V>): (r: Arr<V>)
    ensures forall k :: Get(r, k) == (if Get(a, k).Some? then Get(a, k) else Get(b, k))
    ensures |a| <= |r| && r[..|a|] == a
  {
    var extra := Select(b, k => k !in Keys(a));
    assert forall i, j :: 0 <= i < |a| && 0 <= j < |extra| ==> a[i].0 != extra[j].0 by {
      forall i, j | 0 <= i < |a| && 0 <= j < |extra|
        ensures a[i].0 != extra[j].0
      {
        assert Keys(extra)[j] == extra[j].0;
        assert Get(extra, extra[j].0).Some?;
        assert Keys(a)[i] == a[i].0;
      }
    }
    var r := a + extra;
    assert r[..|a|] == a;
    forall k
      ensures Get(r, k) == (if Get(a, k).Some? then Get(a, k) else Get(b, k))
    {
      GetAppend(a, extra, k);
    }
    r
  }

  /** `array_merge($a, $b)` for string keys: later entries overwrite, new keys are appended. */
  function Merge<V>(a: Arr<V>, b: Arr<V>): (r: Arr<V>)
    ensures forall k :: Get(r, k) == (if Get(b, k).Some? then Get(b, k) else Get(a, k))
    decreases |b|
  {
    if |b| == 0 then a
    else
      HeadNotInTail(b);
      var tail: Arr<V> := b[1..];
      Merge(Put(a, b[0].0, b[0].1), tail)
  }
}
