/** SmallMap: an association list over a vector of (key, value) pairs, searched
    linearly. Positions into the vector stand for the pointers and iterators of
    the C++ code; position |pairs| is End(). */
module SmallMapType {

  /** The position of the first pair with key `key`, or |ps| when there is none. */
  function FirstIndex<K(==), V>(ps: seq<(K, V)>, key: K): (i: nat)
    ensures i <= |ps|
    ensures i < |ps| ==> ps[i].0 == key
    ensures forall j :: 0 <= j < i ==> ps[j].0 != key
  {
    if ps == [] then 0
    else if ps[0].0 == key then 0
    else 1 + FirstIndex(ps[1..], key)
  }

  ghost predicate HasKey<K, V>(ps: seq<(K, V)>, key: K) {
    exists i :: 0 <= i < |ps| && ps[i].0 == key
  }

  /** No two pairs share a key. */
  ghost predicate UniqueKeys<K, V>(ps: seq<(K, V)>) {
    forall i, j :: 0 <= i < j < |ps| ==> ps[i].0 != ps[j].0
  }

  /** Appending a pair whose key is absent keeps the keys unique and adds
      exactly that key. */
  lemma AppendKeepsUnique<K, V>(ps: seq<(K, V)>, key: K, v: V)
    requires UniqueKeys(ps) && !HasKey(ps, key)
    ensures UniqueKeys(ps + [(key, v)])
    ensures forall k :: HasKey(ps + [(key, v)], k) <==> HasKey(ps, k) || k == key
  {
    var r := ps + [(key, v)];
    forall k | HasKey(r, k) ensures HasKey(ps, k) || k == key {
      var i :| 0 <= i < |r| && r[i].0 == k;
      if i < |ps| {
        assert ps[i].0 == k;
      }
    }
    forall k | HasKey(ps, k) ensures HasKey(r, k) {
      var i :| 0 <= i < |ps| && ps[i].0 == k;
      assert r[i].0 == k;
    }
    assert r[|ps|].0 == key;
  }

  /** Erasing position `i` keeps the order of the other pairs; with unique keys,
      it removes exactly the key at `i`. */
  lemma EraseKeepsUnique<K, V>(ps: seq<(K, V)>, i: nat)
    requires i < |ps| && UniqueKeys(ps)
    ensures UniqueKeys(ps[..i] + ps[i + 1..])
    ensures forall k :: HasKey(ps[..i] + ps[i + 1..], k) <==> HasKey(ps, k) && k != ps[i].0
  {
    var r := ps[..i] + ps[i + 1..];
    assert forall j :: 0 <= j < |r| ==> r[j] == if j < i then ps[j] else ps[j + 1];
    forall k | HasKey(r, k) ensures HasKey(ps, k) && k != ps[i].0 {
      var j :| 0 <= j < |r| && r[j].0 == k;
      if j < i {
        assert ps[j].0 == k;
      } else {
        assert ps[j + 1].0 == k;
      }
    }
    forall k | HasKey(ps, k) && k != ps[i].0 ensures HasKey(r, k) {
      var j :| 0 <= j < |ps| && ps[j].0 == k;
      if j < i {
        assert r[j].0 == k;
      } else {
        assert r[j - 1].0 == k;
      }
    }
  }

  /** After appending (key, v) for an absent key, the lookup of `key` finds
      the new pair, so operator[] then yields `v`; other keys are found where
      they were. */
  lemma {:induction false} FirstIndexAfterAppend<K, V>(ps: seq<(K, V)>, key: K, v: V, other: K)
    requires !HasKey(ps, key)
    ensures FirstIndex(ps + [(key, v)], key) == |ps|
    ensures HasKey(ps, other) ==> FirstIndex(ps + [(key, v)], other) == FirstIndex(ps, other)
  {
    if ps != [] {
      assert (ps + [(key, v)])[1..] == ps[1..] + [(key, v)];
      assert forall i :: 0 <= i < |ps[1..]| ==> ps[1..][i] == ps[i + 1];
      FirstIndexAfterAppend(ps[1..], key, v, other);
      if HasKey(ps, other) && ps[0].0 != other {
        var i :| 0 <= i < |ps| && ps[i].0 == other;
        assert ps[1..][i - 1].0 == other;
      }
    }
  }

  class SmallMap<K(==), V> {
    var pairs: seq<(K, V)>
    /** The value a default-constructed U holds; operator[] stores it for a new key. */
    const defaultValue: V

    constructor (defaultValue: V)
      ensures pairs == [] && this.defaultValue == defaultValue
    {
      this.defaultValue := defaultValue;
      pairs := [];
    }

    /** Find compared with End(): true iff some pair has key `key`. */
    function Contains(key: K): (r: bool)
      reads this
      ensures r <==> HasKey(pairs, key)
    {
      FirstIndex(pairs, key) < |pairs|
    }

    /** Find by the index loop: the position of the first pair with `key`, or
        End() (= |pairs|) when none has it. */
    method Find(key: K) returns (i: nat)
      ensures i <= |pairs|
      ensures i < |pairs| ==> pairs[i].0 == key && forall j :: 0 <= j < i ==> pairs[j].0 != key
      ensures i == |pairs| <==> !HasKey(pairs, key)
      ensures i == FirstIndex(pairs, key)
    {
      i := 0;
      while i < |pairs|
        invariant i <= |pairs|
        invariant forall j :: 0 <= j < i ==> pairs[j].0 != key
      {
        if key == pairs[i].0 {
          return;
        }
        i := i + 1;
      }
    }

    /** Removes the pair at `pos`, which must lie in [0, End()); the pairs after
        it move down one place. */
    method EraseAt(pos: nat)
      requires pos < |pairs|
      modifies this
      ensures pairs == old(pairs[..pos] + pairs[pos + 1..])
      ensures old(UniqueKeys(pairs)) ==>
        UniqueKeys(pairs) && forall k :: HasKey(pairs, k) <==> HasKey(old(pairs), k) && k != old(pairs[pos].0)
    {
      if UniqueKeys(pairs) {
        EraseKeepsUnique(pairs, pos);
      }
      pairs := pairs[..pos] + pairs[pos + 1..];
    }

    /** Removes the pair with `key`; true iff there was one. */
    method Erase(key: K) returns (found: bool)
      modifies this
      ensures found <==> old(HasKey(pairs, key))
      ensures !found ==> pairs == old(pairs)
      ensures found ==> pairs == old(pairs[..FirstIndex(pairs, key)] + pairs[FirstIndex(pairs, key) + 1..])
      ensures old(UniqueKeys(pairs)) ==>
        UniqueKeys(pairs) && forall k :: HasKey(pairs, k) <==> HasKey(old(pairs), k) && k != key
    {
      var pos := Find(key);
      if pos == |pairs| {
        return false;
      }
      EraseAt(pos);
      return true;
    }

    /** Adds (key, data) at the end unless `key` is present; true iff added. */
    method Insert(key: K, data: V) returns (added: bool)
      modifies this
      ensures added <==> !old(HasKey(pairs, key))
      ensures pairs == if added then old(pairs) + [(key, data)] else old(pairs)
      ensures HasKey(pairs, key)
      ensures old(UniqueKeys(pairs)) ==> UniqueKeys(pairs)
    {
      if Contains(key) {
        assert pairs[FirstIndex(pairs, key)].0 == key;
        return false;
      }
      if UniqueKeys(pairs) {
        AppendKeepsUnique(pairs, key, data);
      }
      pairs := pairs + [(key, data)];
      assert pairs[|pairs| - 1].0 == key;
      return true;
    }

    /** operator[]: the position of the value for `key`. A present key is found
        in place; an absent one gets a new pair (key, default value) at the end. */
    method At(key: K) returns (i: nat)
      modifies this
      ensures i < |pairs| && pairs[i].0 == key
      ensures old(HasKey(pairs, key)) ==> pairs == old(pairs) && i == FirstIndex(pairs, key)
      ensures !old(HasKey(pairs, key)) ==>
        pairs == old(pairs) + [(key, defaultValue)] && i == old(|pairs|)
      ensures old(UniqueKeys(pairs)) ==> UniqueKeys(pairs)
    {
      i := 0;
      while i < |pairs|
        invariant i <= |pairs| && pairs == old(pairs)
        invariant forall j :: 0 <= j < i ==> pairs[j].0 != key
      {
        if key == pairs[i].0 {
          return;
        }
        i := i + 1;
      }
      if UniqueKeys(pairs) {
        AppendKeepsUnique(pairs, key, defaultValue);
      }
      pairs := pairs + [(key, defaultValue)];
    }
  }
}
