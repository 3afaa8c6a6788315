/**
 * The in-memory snippet repository: a table from integer keys to snippets,
 * updated in place. Python's dict keeps its keys in first-insertion order;
 * the model keeps that order as a sequence of keys beside the map.
 */
module Repo {
  import opened Models

  /** No key occurs twice. */
  ghost predicate Distinct(keys: seq<int>) {
    forall i, j :: 0 <= i < j < |keys| ==> keys[i] != keys[j]
  }

  /** `max(keys, default=0)`: the largest key, or 0 only when there is none. */
  function MaxKey(keys: seq<int>): (m: int)
    ensures keys == [] ==> m == 0
    ensures keys != [] ==> m in keys
    ensures forall k :: k in keys ==> k <= m
  {
    if keys == [] then 0
    else if |keys| == 1 then keys[0]
    else
      var rest := MaxKey(keys[1..]);
      assert forall k :: k in keys ==> k == keys[0] || k in keys[1..];
      if keys[0] >= rest then keys[0] else rest
  }

  /** The key `add` assigns: one more than the largest key, or 1 for an empty table. */
  function NextId(keys: seq<int>): (id: int)
    ensures keys == [] ==> id == 1
    ensures keys != [] ==> id - 1 in keys
    ensures forall k :: k in keys ==> k < id
    ensures id !in keys
  {
    MaxKey(keys) + 1
  }

  /** The keys with `k` taken out, the others in their old order. */
  function RemoveKey(keys: seq<int>, k: int): (r: seq<int>)
    ensures forall x :: x in r <==> x in keys && x != k
    ensures |r| <= |keys|
  {
    if keys == [] then []
    else if keys[0] == k then RemoveKey(keys[1..], k)
    else [keys[0]] + RemoveKey(keys[1..], k)
  }

  /** The position of `k` among the keys. */
  function IndexOf(keys: seq<int>, k: int): (p: nat)
    requires k in keys
    ensures p < |keys| && keys[p] == k
    ensures forall i :: 0 <= i < p ==> keys[i] != k
  {
    if keys[0] == k then 0 else 1 + IndexOf(keys[1..], k)
  }

  /** The stored values, one per key, in the order of the keys. */
  function ValuesInOrder(keys: seq<int>, data: map<int, Snippet>): (r: seq<Snippet>)
    requires forall i :: 0 <= i < |keys| ==> keys[i] in data
    ensures |r| == |keys|
    ensures forall i :: 0 <= i < |keys| ==> r[i] == data[keys[i]]
  {
    if keys == [] then [] else [data[keys[0]]] + ValuesInOrder(keys[1..], data)
  }

  lemma {:induction false} RemoveAbsentKey(keys: seq<int>, k: int)
    requires k !in keys
    ensures RemoveKey(keys, k) == keys
  {
    if keys != [] {
      RemoveAbsentKey(keys[1..], k);
    }
  }

  /** Removing a key that occurs once takes out exactly its position. */
  lemma {:induction false} RemoveKeyAt(keys: seq<int>, p: nat)
    requires Distinct(keys) && p < |keys|
    ensures RemoveKey(keys, keys[p]) == keys[..p] + keys[p + 1..]
  {
    var k, tail := keys[p], keys[1..];
    if p == 0 {
      assert k !in tail by {
        forall j | 0 <= j < |tail| ensures tail[j] != k {
          assert tail[j] == keys[j + 1];
        }
      }
      RemoveAbsentKey(tail, k);
    } else {
      assert keys[0] != k;
      assert tail[p - 1] == k;
      assert Distinct(tail) by {
        forall i, j | 0 <= i < j < |tail| ensures tail[i] != tail[j] {
          assert tail[i] == keys[i + 1] && tail[j] == keys[j + 1];
        }
      }
      RemoveKeyAt(tail, p - 1);
      // Unfolds RemoveKey once; without it the proof costs about half as much again.
      assert RemoveKey(keys, k) == [keys[0]] + RemoveKey(tail, k);
      assert keys[..p] == [keys[0]] + tail[..p - 1];
      assert keys[p + 1..] == tail[p..];
    }
  }

  /**
   * Add a key, delete that same key, and the next add assigns it again:
   * the next key is derived from the keys present, not from a counter.
   */
  lemma ReuseAfterDelete(keys: seq<int>)
    ensures NextId(RemoveKey(keys + [NextId(keys)], NextId(keys))) == NextId(keys)
  {
    var k := NextId(keys);
    RemoveAbsentKey(keys, k);
    assert RemoveKey(keys + [k], k) == keys by {
      RemoveSplit(keys, [k], k);
      RemoveAbsentKey([k][1..], k);
    }
  }

  /**
   * Deleting the largest key and adding again gives that key back exactly when
   * the key just below it is present, or when 1 was the only key. The next key
   * comes from the keys that remain, so in other cases it is smaller.
   */
  lemma ReuseLargestIff(keys: seq<int>)
    requires Distinct(keys) && keys != []
    ensures var m := MaxKey(keys);
      NextId(RemoveKey(keys, m)) == m <==> (m - 1 in keys || keys == [1])
  {
    var m := MaxKey(keys);
    var rest := RemoveKey(keys, m);
    if rest == [] {
      SoleKey(keys, m);
      assert m - 1 !in keys;
    } else {
      ReuseNeedsPredecessor(keys, m, rest);
      assert keys != [1] by {
        assert RemoveKey([1], 1) == [];
      }
    }
  }

  /** When other keys remain, the largest comes back exactly when its predecessor remains. */
  lemma ReuseNeedsPredecessor(keys: seq<int>, m: int, rest: seq<int>)
    requires m in keys && forall k :: k in keys ==> k <= m
    requires rest == RemoveKey(keys, m) && rest != []
    ensures NextId(rest) == m <==> m - 1 in keys
  {
    var r := MaxKey(rest);
    assert r in keys && r != m;
    assert m - 1 in keys ==> m - 1 in rest;
  }

  /** Distinct keys that all equal `m` are the single key `m`. */
  lemma SoleKey(keys: seq<int>, m: int)
    requires Distinct(keys) && keys != []
    requires RemoveKey(keys, m) == []
    ensures keys == [m]
  {
    forall j | 0 <= j < |keys| ensures keys[j] == m {
      assert keys[j] in keys;
    }
    assert |keys| == 1;
  }

  /**
   * With keys 1, 2 and 3, deleting 2 and then the largest key 3 makes the next
   * add assign 2, not 3.
   */
  lemma LargestNotReusedAfterGap()
    ensures NextId(RemoveKey(RemoveKey([1, 2, 3], 2), 3)) == 2
  {
    assert RemoveKey([1, 2, 3], 2) == [1, 3];
    assert RemoveKey([1, 3], 3) == [1];
  }

  lemma {:induction false} RemoveSplit(a: seq<int>, b: seq<int>, k: int)
    ensures RemoveKey(a + b, k) == RemoveKey(a, k) + RemoveKey(b, k)
  {
    if a != [] {
      assert (a + b)[1..] == a[1..] + b;
      RemoveSplit(a[1..], b, k);
    } else {
      assert a + b == b;
    }
  }

  /** Inserting a new key at the end appends its value to the listing. */
  lemma ValuesAfterAppend(keys: seq<int>, data: map<int, Snippet>, k: int, s: Snippet)
    requires forall i :: 0 <= i < |keys| ==> keys[i] in data
    requires k !in keys
    ensures ValuesInOrder(keys + [k], data[k := s]) == ValuesInOrder(keys, data) + [s]
  {
  }

  /** Overwriting the value of a present key changes only its position in the listing. */
  lemma ValuesAfterReplace(keys: seq<int>, data: map<int, Snippet>, p: nat, s: Snippet)
    requires Distinct(keys) && p < |keys|
    requires forall i :: 0 <= i < |keys| ==> keys[i] in data
    ensures ValuesInOrder(keys, data[keys[p] := s]) == ValuesInOrder(keys, data)[p := s]
  {
  }

  /** Removing a key drops exactly its position from the listing. */
  lemma ValuesAfterRemove(keys: seq<int>, data: map<int, Snippet>, p: nat, rest: seq<int>)
    requires Distinct(keys) && p < |keys|
    requires forall i :: 0 <= i < |keys| ==> keys[i] in data
    requires rest == keys[..p] + keys[p + 1..]
    ensures forall i :: 0 <= i < |rest| ==> rest[i] in data - {keys[p]}
    ensures ValuesInOrder(rest, data - {keys[p]})
            == ValuesInOrder(keys, data)[..p] + ValuesInOrder(keys, data)[p + 1..]
  {
    forall i | 0 <= i < |rest| ensures rest[i] == keys[if i < p then i else i + 1] {
    }
    var after, before := ValuesInOrder(rest, data - {keys[p]}), ValuesInOrder(keys, data);
    var expected := before[..p] + before[p + 1..];
    forall i | 0 <= i < |rest| ensures after[i] == expected[i] {
      if i < p {
        assert expected[i] == before[i];
      } else {
        assert expected[i] == before[i + 1];
      }
    }
  }

  /** An error kind `delete` reports. */
  datatype RepoError = SnippetNotFoundError(id: int)

  /** What `delete` does: it removes the entry, or fails with the error it raises. */
  datatype Outcome = Pass | Fail(error: RepoError)

  class InMemorySnippetRepository {
    /** The table: key to stored snippet. */
    var data: map<int, Snippet>
    /** The table's keys in the order they were first inserted. */
    var order: seq<int>

    /** The key sequence lists every key of the table exactly once. */
    ghost predicate Valid()
      reads this
    {
      && Distinct(order)
      && (forall i :: 0 <= i < |order| ==> order[i] in data)
      && (forall k :: k in data ==> k in order)
    }

    /** What `list` returns: the stored snippets in key-insertion order. */
    function Listing(): (r: seq<Snippet>)
      reads this
      requires Valid()
      ensures |r| == |data| == |order|
      ensures forall i :: 0 <= i < |r| ==> r[i] == data[order[i]]
    {
      KeysCount(order, data);
      ValuesInOrder(order, data)
    }

    constructor ()
      ensures Valid()
      ensures data == map[] && order == []
      ensures Listing() == []
    {
      data := map[];
      order := [];
    }

    /** Store `s` under a fresh key; the snippet's own `id` field is not touched. */
    method Add(s: Snippet)
      requires Valid()
      modifies this
      ensures Valid()
      ensures NextId(old(order)) !in old(data)
      ensures data == old(data)[NextId(old(order)) := s]
      ensures order == old(order) + [NextId(old(order))]
      ensures |data| == |old(data)| + 1
      ensures Listing() == old(Listing()) + [s]
    {
      var nextId := MaxKey(order) + 1;
      data := data[nextId := s];
      order := order + [nextId];
      // Not needed for the proof, but it keeps its cost lower across solver seeds.
      assert Distinct(order);
      ValuesAfterAppend(old(order), old(data), nextId, s);
    }

    /** The snippet stored under `id`, or `None` when there is none. */
    method Get(id: int) returns (r: Option<Snippet>)
      ensures r.Some? <==> id in data
      ensures r.Some? ==> r.value == data[id]
    {
      r := if id in data then Some(data[id]) else None;
    }

    /** Every stored snippet, one per key, in key-insertion order. */
    method List() returns (r: seq<Snippet>)
      requires Valid()
      ensures r == Listing()
      ensures |r| == |data|
      ensures forall i :: 0 <= i < |r| ==> order[i] in data && r[i] == data[order[i]]
      ensures forall k :: k in data ==> r[IndexOf(order, k)] == data[k]
    {
      r := ValuesInOrder(order, data);
      KeysCount(order, data);
    }

    /** Remove the entry under `id`, or report `SnippetNotFoundError` and change nothing. */
    method Delete(id: int) returns (r: Outcome)
      requires Valid()
      modifies this
      ensures Valid()
      ensures id !in old(data) ==>
        r == Fail(SnippetNotFoundError(id)) && data == old(data) && order == old(order)
      ensures id in old(data) ==>
        var p := IndexOf(old(order), id);
        && r == Pass
        && data == old(data) - {id}
        && order == old(order)[..p] + old(order)[p + 1..]
        && Listing() == old(Listing())[..p] + old(Listing())[p + 1..]
    {
      if id !in data {
        return Fail(SnippetNotFoundError(id));
      }
      ghost var p := IndexOf(order, id);
      RemoveKeyAt(order, p);
      DistinctWithout(order, p);
      ValuesAfterRemove(order, data, p, order[..p] + order[p + 1..]);
      data := data - {id};
      order := RemoveKey(order, id);
      r := Pass;
    }

    /** Store `s` under `id` whether or not `id` is already present. */
    method Update(id: int, s: Snippet)
      requires Valid()
      modifies this
      ensures Valid()
      ensures data == old(data)[id := s]
      ensures id in old(data) ==>
        order == old(order) && Listing() == old(Listing())[IndexOf(old(order), id) := s]
      ensures id !in old(data) ==>
        order == old(order) + [id] && Listing() == old(Listing()) + [s]
    {
      ghost var existed := id in data;
      if id !in data {
        order := order + [id];
      }
      data := data[id := s];
      if existed {
        ValuesAfterReplace(old(order), old(data), IndexOf(order, id), s);
      } else {
        ValuesAfterAppend(old(order), old(data), id, s);
      }
    }
  }

  /** Dropping one position keeps the keys distinct. */
  lemma DistinctWithout(keys: seq<int>, p: nat)
    requires Distinct(keys) && p < |keys|
    ensures Distinct(keys[..p] + keys[p + 1..])
  {
  }

  /** A key sequence that lists every key of a map exactly once is as long as the map. */
  lemma {:induction false} KeysCount(keys: seq<int>, data: map<int, Snippet>)
    requires Distinct(keys)
    requires forall i :: 0 <= i < |keys| ==> keys[i] in data
    requires forall k :: k in data ==> k in keys
    ensures |keys| == |data|
  {
    if keys == [] {
      assert forall k :: k !in data;
      assert data.Keys == {};
    } else {
      var rest := data - {keys[0]};
      forall k | k in rest ensures k in keys[1..] {
        assert k in keys && k != keys[0];
      }
      assert data.Keys == rest.Keys + {keys[0]};
      KeysCount(keys[1..], rest);
    }
  }
}
