/**
 * Plain JavaScript objects with string keys and string values, as the
 * parameters of a MediaBox are: a sequence of entries in property order
 * with no key twice.  Assignment to an existing key keeps its place; a new
 * key is appended.  Object spread `{ ...a, ...b }` copies the properties of
 * `a` and then those of `b` into a fresh object.
 */
module JsObject {
  import opened Wrappers

  datatype Entry = Entry(key: string, value: string)

  /** `Object.keys`, in property order. */
  function Keys(es: seq<Entry>): (ks: seq<string>)
    ensures |ks| == |es|
    ensures forall i :: 0 <= i < |es| ==> ks[i] == es[i].key
  {
    if |es| == 0 then [] else [es[0].key] + Keys(es[1..])
  }

  ghost predicate UniqueKeys(es: seq<Entry>) {
    forall i, j :: 0 <= i < j < |es| ==> es[i].key != es[j].key
  }

  type Object = es: seq<Entry> | UniqueKeys(es) witness []

  /** Property lookup: `o[k]`, or `None` for a missing key. */
  function Get(o: seq<Entry>, k: string): (r: Option<string>)
    ensures r.Some? <==> k in Keys(o)
  {
    if |o| == 0 then None
    else if o[0].key == k then Some(o[0].value)
    else
      assert Keys(o) == [o[0].key] + Keys(o[1..]);
      Get(o[1..], k)
  }

  /** In an object each key has exactly the value of its entry. */
  lemma {:induction false} GetEntry(o: Object, i: nat)
    requires i < |o|
    ensures Get(o, o[i].key) == Some(o[i].value)
  {
    if i > 0 {
      assert o[0].key != o[i].key;
      var tail: Object := o[1..];
      GetEntry(tail, i - 1);
    }
  }

  lemma {:induction false} Cons(e: Entry, rest: seq<Entry>)
    ensures Keys([e] + rest) == [e.key] + Keys(rest)
    ensures ([e] + rest)[1..] == rest
    ensures forall k :: Get([e] + rest, k) == if e.key == k then Some(e.value) else Get(rest, k)
    ensures UniqueKeys(rest) && e.key !in Keys(rest) ==> UniqueKeys([e] + rest)
  {
    assert ([e] + rest)[1..] == rest;
  }

  /** `o[k] = v`: an existing key is updated in place, a new one appended. */
  function Put(o: Object, k: string, v: string): (r: Object)
    ensures k in Keys(o) ==> Keys(r) == Keys(o)
    ensures k !in Keys(o) ==> Keys(r) == Keys(o) + [k]
    ensures Get(r, k) == Some(v)
    ensures forall k' :: k' != k ==> Get(r, k') == Get(o, k')
  {
    if |o| == 0 then [Entry(k, v)]
    else
      TailUnique(o);
      var tail: Object := o[1..];
      if o[0].key == k then
        PutHere(o, tail, k, v);
        [Entry(k, v)] + tail
      else
        var rest := Put(tail, k, v);
        PutAfter(o, tail, rest, k, v);
        [o[0]] + rest
  }

  lemma TailUnique(o: Object)
    requires |o| > 0
    ensures UniqueKeys(o[1..])
  {
  }

  /** `Put` on the first key. */
  lemma {:induction false} PutHere(o: Object, tail: Object, k: string, v: string)
    requires |o| > 0 && tail == o[1..] && o[0].key == k
    ensures UniqueKeys([Entry(k, v)] + tail)
    ensures Keys([Entry(k, v)] + tail) == Keys(o)
    ensures Get([Entry(k, v)] + tail, k) == Some(v)
    ensures forall k' :: k' != k ==> Get([Entry(k, v)] + tail, k') == Get(o, k')
  {
    Cons(o[0], tail);
    assert o == [o[0]] + tail;
    Cons(Entry(k, v), tail);
  }

  /** `Put` past the first key, given `rest` is the `Put` on the tail. */
  lemma {:induction false} PutAfter(o: Object, tail: Object, rest: Object, k: string, v: string)
    requires |o| > 0 && tail == o[1..] && o[0].key != k
    requires k in Keys(tail) ==> Keys(rest) == Keys(tail)
    requires k !in Keys(tail) ==> Keys(rest) == Keys(tail) + [k]
    requires Get(rest, k) == Some(v)
    requires forall k' :: k' != k ==> Get(rest, k') == Get(tail, k')
    ensures UniqueKeys([o[0]] + rest)
    ensures k in Keys(o) ==> Keys([o[0]] + rest) == Keys(o)
    ensures k !in Keys(o) ==> Keys([o[0]] + rest) == Keys(o) + [k]
    ensures Get([o[0]] + rest, k) == Some(v)
    ensures forall k' :: k' != k ==> Get([o[0]] + rest, k') == Get(o, k')
  {
    Cons(o[0], tail);
    assert o == [o[0]] + tail;
    PutAfterKeys(o[0], Keys(tail), Keys(rest), k);
    Cons(o[0], rest);
  }

  lemma {:induction false} PutAfterKeys(e: Entry, tail: seq<string>, rest: seq<string>, k: string)
    requires e.key != k && e.key !in tail
    requires k in tail ==> rest == tail
    requires k !in tail ==> rest == tail + [k]
    ensures e.key !in rest
    ensures k in [e.key] + tail ==> [e.key] + rest == [e.key] + tail
    ensures k !in [e.key] + tail ==> [e.key] + rest == [e.key] + tail + [k]
  {
  }

  /** The keys of `ks` not in `known`, in order. */
  function NewKeys(known: seq<string>, ks: seq<string>): (r: seq<string>)
    ensures forall k :: k in r <==> k in ks && k !in known
  {
    if |ks| == 0 then []
    else (if ks[0] in known then [] else [ks[0]]) + NewKeys(known, ks[1..])
  }

  lemma {:induction false} NewKeysExtend(known: seq<string>, k: string, ks: seq<string>)
    requires k !in ks
    ensures NewKeys(known + [k], ks) == NewKeys(known, ks)
  {
    if |ks| > 0 {
      NewKeysExtend(known, k, ks[1..]);
    }
  }

  lemma {:induction false} NewKeysCons(known: seq<string>, k: string, ks: seq<string>)
    ensures NewKeys(known, [k] + ks) == (if k in known then [] else [k]) + NewKeys(known, ks)
  {
    assert ([k] + ks)[1..] == ks;
  }

  /** The key order after one step of `Assign`. */
  lemma {:induction false} AssignStepKeys(known: seq<string>, k: string, rest: seq<string>)
    requires k !in rest
    ensures (if k in known then known else known + [k])
            + NewKeys(if k in known then known else known + [k], rest)
         == known + NewKeys(known, [k] + rest)
  {
    NewKeysCons(known, k, rest);
    NewKeysExtend(known, k, rest);
  }

  /** Copies the properties of `src`, in order, onto `target` (as `Object.assign`). */
  function Assign(target: Object, src: Object): (r: Object)
    ensures Keys(r) == Keys(target) + NewKeys(Keys(target), Keys(src))
    ensures forall k :: Get(r, k) == if Get(src, k).Some? then Get(src, k) else Get(target, k)
    decreases |src|
  {
    if |src| == 0 then target
    else
      TailUnique(src);
      var tail: Object := src[1..];
      var next := Put(target, src[0].key, src[0].value);
      var r := Assign(next, tail);
      AssignStep(target, src, tail, next, r);
      r
  }

  /** One step of `Assign`: the first property of `src`, then the rest. */
  lemma {:induction false} AssignStep(target: Object, src: Object, tail: Object, next: Object, r: Object)
    requires |src| > 0 && tail == src[1..] && next == Put(target, src[0].key, src[0].value)
    requires Keys(r) == Keys(next) + NewKeys(Keys(next), Keys(tail))
    requires forall k :: Get(r, k) == if Get(tail, k).Some? then Get(tail, k) else Get(next, k)
    ensures Keys(r) == Keys(target) + NewKeys(Keys(target), Keys(src))
    ensures forall k :: Get(r, k) == if Get(src, k).Some? then Get(src, k) else Get(target, k)
  {
    var e := src[0];
    HeadKeyFresh(src);
    assert src == [e] + tail;
    Cons(e, tail);
    AssignStepKeys(Keys(target), e.key, Keys(tail));
    assert Get(tail, e.key).None?;
  }

  /** The first key of an object does not occur again. */
  lemma HeadKeyFresh(o: Object)
    requires |o| > 0
    ensures o[0].key !in Keys(o[1..])
  {
  }

  /** `{ ...a, ...b }`. */
  function Spread(a: Object, b: Object): (r: Object)
    ensures Keys(r) == Keys(a) + NewKeys(Keys(a), Keys(b))
    ensures forall k :: Get(r, k) == if Get(b, k).Some? then Get(b, k) else Get(a, k)
  {
    AssignEmpty(a);
    Assign(Assign([], a), b)
  }

  /** Copying an object into an empty one reproduces it. */
  lemma {:induction false} AssignEmpty(a: Object)
    ensures Assign([], a) == a
  {
    assert Keys(Assign([], a)) == Keys(a) by {
      assert Keys([]) == [];
      NewKeysAllNew(Keys(a));
    }
    EqualByLookup(Assign([], a), a);
  }

  lemma {:induction false} NewKeysAllNew(ks: seq<string>)
    ensures NewKeys([], ks) == ks
  {
    if |ks| > 0 {
      NewKeysAllNew(ks[1..]);
      assert [ks[0]] + ks[1..] == ks;
    }
  }

  /** Two objects with the same keys in the same order and the same lookups are equal. */
  lemma {:induction false} EqualByLookup(x: Object, y: Object)
    requires Keys(x) == Keys(y)
    requires forall k :: Get(x, k) == Get(y, k)
    ensures x == y
  {
    forall i | 0 <= i < |x| ensures x[i] == y[i] {
      GetEntry(x, i);
      GetEntry(y, i);
      assert Get(x, x[i].key) == Get(y, y[i].key);
    }
  }
}
