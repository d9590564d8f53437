/** Python's insertion-ordered `dict`, as an association list. Assigning to a
    key that is already present keeps the key where it is and replaces its
    value; assigning to a new key appends it at the end. */
module OrderedDict {
  import opened Wrappers

  /** One `key: value` pair; the program's dicts map strings to strings. */
  datatype Entry = Entry(key: string, value: string)

  type Dict = seq<Entry>

  /** The keys of `d`, in insertion order. */
  function Keys(d: Dict): (ks: seq<string>)
    ensures |ks| == |d|
    ensures forall i :: 0 <= i < |d| ==> ks[i] == d[i].key
  {
    seq(|d|, i requires 0 <= i < |d| => d[i].key)
  }

  /** No element occurs twice in `s`. */
  predicate NoDuplicates(s: seq<string>)
  {
    forall i, j :: 0 <= i < j < |s| ==> s[i] != s[j]
  }

  /** Every key of `d` occurs once, as in a Python dict. */
  predicate Unique(d: Dict)
  {
    NoDuplicates(Keys(d))
  }

  /** The position of the first occurrence of `x` in `s`, or -1. */
  function FirstIndex(s: seq<string>, x: string): (i: int)
    ensures -1 <= i < |s|
    ensures i >= 0 ==> s[i] == x
    ensures forall j :: 0 <= j < |s| && (i < 0 || j < i) ==> s[j] != x
  {
    if |s| == 0 then -1
    else if s[0] == x then 0
    else
      var i := FirstIndex(s[1..], x);
      if i < 0 then -1 else i + 1
  }

  /** `d[k]` in Python, with a missing key as None rather than a KeyError. */
  function Get(d: Dict, k: string): (r: Option<string>)
    ensures r.Some? <==> k in Keys(d)
    ensures r.Some? ==> exists i :: 0 <= i < |d| && d[i] == Entry(k, r.value)
  {
    var i := FirstIndex(Keys(d), k);
    if i < 0 then None else Some(d[i].value)
  }

  /** `d[k] = v` in Python. */
  function Put(d: Dict, k: string, v: string): (r: Dict)
    ensures Get(r, k) == Some(v)
    ensures forall k' :: k' != k ==> Get(r, k') == Get(d, k')
  {
    var i := FirstIndex(Keys(d), k);
    if i < 0 then
      var r := d + [Entry(k, v)];
      assert Keys(r) == Keys(d) + [k];
      assert forall k' :: k' != k ==> FirstIndex(Keys(r), k') == FirstIndex(Keys(d), k') by {
        forall k' | k' != k
          ensures FirstIndex(Keys(r), k') == FirstIndex(Keys(d), k')
        {
          FirstIndexAppend(Keys(d), k, k');
        }
      }
      r
    else
      var r := d[i := Entry(k, v)];
      assert Keys(r) == Keys(d);
      r
  }

  /** Assigning to a present key keeps the key order; assigning to a new key
      appends it at the end. */
  lemma PutKeys(d: Dict, k: string, v: string)
    ensures Keys(Put(d, k, v)) == if k in Keys(d) then Keys(d) else Keys(d) + [k]
  {
    var i := FirstIndex(Keys(d), k);
    if i < 0 {
      assert Keys(d + [Entry(k, v)]) == Keys(d) + [k];
    } else {
      assert Keys(d[i := Entry(k, v)]) == Keys(d);
    }
  }

  /** Assigning to a key not yet present appends one entry. */
  lemma PutNewKey(d: Dict, k: string, v: string)
    requires k !in Keys(d)
    ensures Put(d, k, v) == d + [Entry(k, v)]
  {
  }

  /** Assignment never duplicates a key. */
  lemma PutKeepsUnique(d: Dict, k: string, v: string)
    requires Unique(d)
    ensures Unique(Put(d, k, v))
  {
    PutKeys(d, k, v);
    if k !in Keys(d) {
      assert Keys(Put(d, k, v)) == Keys(d) + [k];
    }
  }

  /** Appending an element other than `y` does not move `y`'s first index. */
  lemma FirstIndexAppend(s: seq<string>, x: string, y: string)
    requires x != y
    ensures FirstIndex(s + [x], y) == FirstIndex(s, y)
  {
    if y in s {
      var i := FirstIndex(s, y);
      var i' := FirstIndex(s + [x], y);
      assert (s + [x])[i] == y;
    }
  }

  /** `d.update(es)` in Python: the entries of `es` assigned in order. */
  function PutAll(d: Dict, es: seq<Entry>): (r: Dict)
    decreases |es|
  {
    if |es| == 0 then d
    else
      var last := es[|es| - 1];
      Put(PutAll(d, es[..|es| - 1]), last.key, last.value)
  }

  /** `s` with every element after its first occurrence removed. */
  function Dedup(s: seq<string>): (r: seq<string>)
    ensures forall x :: x in r <==> x in s
    ensures NoDuplicates(r)
  {
    if |s| == 0 then []
    else
      var front := Dedup(s[..|s| - 1]);
      if s[|s| - 1] in s[..|s| - 1] then front else front + [s[|s| - 1]]
  }

  /** A sequence without duplicates is its own deduplication. */
  lemma {:induction false} DedupOfDistinct(s: seq<string>)
    requires NoDuplicates(s)
    ensures Dedup(s) == s
  {
    if |s| > 0 {
      var front := s[..|s| - 1];
      DedupOfDistinct(front);
      assert s[|s| - 1] !in front;
      assert front + [s[|s| - 1]] == s;
    }
  }

  /** Dedup keeps the order of first occurrences: of two kept elements, the
      one that first occurs earlier in `s` comes earlier in the result. */
  lemma {:induction false} DedupKeepsFirstOccurrenceOrder(s: seq<string>, i: int, j: int)
    requires 0 <= i < j < |Dedup(s)|
    ensures FirstIndex(s, Dedup(s)[i]) < FirstIndex(s, Dedup(s)[j])
  {
    var n := |s| - 1;
    var front := s[..n];
    var r := Dedup(s);
    FirstIndexOfPrefix(s, n, r[i]);
    FirstIndexOfPrefix(s, n, r[j]);
    if s[n] in front {
      DedupKeepsFirstOccurrenceOrder(front, i, j);
    } else {
      var df := Dedup(front);
      if j < |df| {
        DedupKeepsFirstOccurrenceOrder(front, i, j);
      } else {
        assert r[j] == s[n];
        assert r[i] == df[i] && df[i] in front;
      }
    }
  }

  /** An element of the prefix `s[..n]` first occurs in `s` where it first
      occurs in the prefix; the element that does not occur in the prefix
      first occurs at `n`. */
  lemma FirstIndexOfPrefix(s: seq<string>, n: int, x: string)
    requires 0 <= n < |s|
    ensures x in s[..n] ==> FirstIndex(s, x) == FirstIndex(s[..n], x)
    ensures x !in s[..n] && x == s[n] ==> FirstIndex(s, x) == n
  {
    var p := s[..n];
    if x in p {
      var i := FirstIndex(p, x);
      assert s[i] == x;
    } else if x == s[n] {
      assert forall j :: 0 <= j < n ==> s[j] == p[j];
    }
  }

  /** The key order after `d.update(es)`: the keys of `d` in place, then the new
      keys of `es` in the order of their first assignment. */
  lemma {:induction false} PutAllKeys(d: Dict, es: seq<Entry>)
    requires Unique(d)
    ensures Keys(PutAll(d, es)) == Dedup(Keys(d) + Keys(es))
  {
    if |es| == 0 {
      assert Keys(d) + Keys(es) == Keys(d);
      DedupOfDistinct(Keys(d));
    } else {
      var n := |es| - 1;
      PutAllKeys(d, es[..n]);
      var s := Keys(d) + Keys(es);
      assert s == (Keys(d) + Keys(es[..n])) + [es[n].key];
      PutKeysDedup(PutAll(d, es[..n]), Keys(d) + Keys(es[..n]), es[n].key, es[n].value);
    }
  }

  /** One assignment extends the deduplicated key history by one key. */
  lemma PutKeysDedup(d: Dict, history: seq<string>, k: string, v: string)
    requires Keys(d) == Dedup(history)
    ensures Keys(Put(d, k, v)) == Dedup(history + [k])
  {
    var s := history + [k];
    assert s[..|s| - 1] == history;
    PutKeys(d, k, v);
  }

  /** After `d.update(es)`, a key that `es` assigns holds the value of its LAST
      assignment in `es` (here at index `i`). */
  lemma {:induction false} PutAllLastAssignmentWins(d: Dict, es: seq<Entry>, i: int)
    requires 0 <= i < |es|
    requires forall j :: i < j < |es| ==> es[j].key != es[i].key
    ensures Get(PutAll(d, es), es[i].key) == Some(es[i].value)
  {
    var n := |es| - 1;
    if i < n {
      PutAllLastAssignmentWins(d, es[..n], i);
    }
  }

  /** After `d.update(es)`, a key that `es` never assigns keeps its value in `d`
      (or stays absent). */
  lemma {:induction false} PutAllUnassignedKey(d: Dict, es: seq<Entry>, k: string)
    requires k !in Keys(es)
    ensures Get(PutAll(d, es), k) == Get(d, k)
  {
    if |es| > 0 {
      var n := |es| - 1;
      assert Keys(es[..n]) == Keys(es)[..n];
      PutAllUnassignedKey(d, es[..n], k);
    }
  }

  /** The Python dict as a plain mathematical map, forgetting the order. */
  function ToMap(d: Dict): (m: map<string, string>)
    ensures m.Keys == set k | k in Keys(d)
    ensures forall k :: k in m ==> Get(d, k) == Some(m[k])
  {
    map k | k in Keys(d) :: Get(d, k).value
  }

  /** Ordered assignment refines map update: forgetting the order, `d[k] = v`
      is `m[k := v]`. */
  lemma PutRefinesMapUpdate(d: Dict, k: string, v: string)
    ensures ToMap(Put(d, k, v)) == ToMap(d)[k := v]
  {
    ToMapOfUpdate(d, Put(d, k, v), k, v);
  }

  /** A dict that agrees with `d` on every key but `k`, and maps `k` to `v`,
      is `d`'s map updated at `k`. */
  lemma ToMapOfUpdate(d: Dict, r: Dict, k: string, v: string)
    requires Get(r, k) == Some(v)
    requires forall j :: j != k ==> Get(r, j) == Get(d, j)
    ensures ToMap(r) == ToMap(d)[k := v]
  {
    var m := ToMap(r);
    var n := ToMap(d)[k := v];
    forall j
      ensures j in m <==> j in n
    {
      if j != k {
        assert Get(r, j) == Get(d, j);
      }
    }
    assert m.Keys == n.Keys;
    forall j | j in m
      ensures m[j] == n[j]
    {
      if j != k {
        assert Get(r, j) == Get(d, j);
      }
    }
  }
}
