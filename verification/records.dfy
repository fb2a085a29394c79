/** A JavaScript object used as a string-keyed record (`Record<string, string>`):
    its values and the order in which its keys were first added, which is the
    order `Object.keys` and `Object.assign` walk. Keys that look like array
    indices, which JavaScript lists first, are not modelled. */
module Records {
  import opened Wrappers

  datatype Rec = Rec(keys: seq<string>, vals: map<string, string>)

  /** Every key listed once, and exactly the keys that have a value. */
  ghost predicate Valid(r: Rec) {
    && (forall i, j | 0 <= i < j < |r.keys| :: r.keys[i] != r.keys[j])
    && (forall k :: k in r.vals <==> k in r.keys)
  }

  const Empty: Rec := Rec([], map[])

  /** `r[k] = v`: a new key goes to the end of the key order; an existing
      key keeps its place and gets the new value. */
  function Put(r: Rec, k: string, v: string): Rec {
    Rec(if k in r.vals then r.keys else r.keys + [k], r.vals[k := v])
  }

  lemma PutValid(r: Rec, k: string, v: string)
    requires Valid(r)
    ensures Valid(Put(r, k, v))
  {
  }

  /** The value `r[k]`, or None when `k` is not a key (`undefined`). */
  function Get(r: Rec, k: string): Option<string> {
    if k in r.vals then Some(r.vals[k]) else None
  }

  /** After `r[k] = v`, reading `k` gives `v` and every other key reads as
      before; a key already present keeps its place in the key order. */
  lemma PutGet(r: Rec, k: string, v: string, key: string)
    ensures Get(Put(r, k, v), key) == if key == k then Some(v) else Get(r, key)
    ensures k in r.vals ==> Put(r, k, v).keys == r.keys
    ensures k !in r.vals ==> Put(r, k, v).keys == r.keys + [k]
  {
  }

  /** Of two writes to the same key, the later one (`b`) wins when it happened. */
  function Later(a: Option<string>, b: Option<string>): Option<string> {
    if b.Some? then b else a
  }

  /** The first `n` steps of `Object.assign(r, s)`: `r[k] = s[k]` for the
      first `n` keys of `s`, in `s`'s key order. */
  function AssignFirst(r: Rec, s: Rec, n: nat): (r': Rec)
    requires n <= |s.keys|
  {
    if n == 0 then r
    else
      var k := s.keys[n - 1];
      var before := AssignFirst(r, s, n - 1);
      if k in s.vals then Put(before, k, s.vals[k]) else before
  }

  /** `Object.assign(r, s)`: writes every entry of `s` into `r`, in `s`'s key order. */
  function Assign(r: Rec, s: Rec): Rec
  {
    AssignFirst(r, s, |s.keys|)
  }

  lemma {:induction false} AssignFirstGet(r: Rec, s: Rec, n: nat, k: string)
    requires Valid(s) && n <= |s.keys|
    ensures Get(AssignFirst(r, s, n), k) == if AmongFirst(s.keys, n, k) then Get(s, k) else Get(r, k)
  {
    if n > 0 {
      var key := s.keys[n - 1];
      AssignFirstGet(r, s, n - 1, k);
      assert key in s.keys;
      PutGet(AssignFirst(r, s, n - 1), key, s.vals[key], k);
    }
  }

  predicate AmongFirst(ks: seq<string>, n: nat, k: string)
    requires n <= |ks|
  {
    n > 0 && (ks[n - 1] == k || AmongFirst(ks, n - 1, k))
  }

  lemma {:induction false} AmongFirstIsIn(ks: seq<string>, n: nat, k: string)
    requires n <= |ks|
    ensures AmongFirst(ks, n, k) <==> k in ks[..n]
  {
    if n > 0 {
      AmongFirstIsIn(ks, n - 1, k);
      assert ks[..n] == ks[..n - 1] + [ks[n - 1]];
    }
  }

  /** After `Object.assign(r, s)` a key holds the value of `s` where `s` has
      the key, and its old value otherwise: the later write wins. */
  lemma AssignGet(r: Rec, s: Rec, k: string)
    requires Valid(s)
    ensures Get(Assign(r, s), k) == Later(Get(r, k), Get(s, k))
  {
    AssignFirstGet(r, s, |s.keys|, k);
    AmongFirstIsIn(s.keys, |s.keys|, k);
    assert s.keys[..|s.keys|] == s.keys;
  }

  lemma {:induction false} AssignFirstValid(r: Rec, s: Rec, n: nat)
    requires Valid(r) && n <= |s.keys|
    ensures Valid(AssignFirst(r, s, n))
  {
    if n > 0 {
      AssignFirstValid(r, s, n - 1);
      if s.keys[n - 1] in s.vals {
        PutValid(AssignFirst(r, s, n - 1), s.keys[n - 1], s.vals[s.keys[n - 1]]);
      }
    }
  }

  /** `Object.assign` keeps a record well formed. */
  lemma AssignValid(r: Rec, s: Rec)
    requires Valid(r)
    ensures Valid(Assign(r, s))
  {
    AssignFirstValid(r, s, |s.keys|);
  }
}
