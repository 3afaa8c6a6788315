/** Client runs of the in-memory repository, each stated by what the caller observes. */
module Scenarios {
  import opened Models
  import opened Repo

  /** The first snippet added to a fresh repository is stored under key 1 and listed alone. */
  method FirstAddUsesKeyOne(s: Snippet) returns (stored: Option<Snippet>, listed: seq<Snippet>)
    ensures stored == Some(s)
    ensures listed == [s]
  {
    var repo := new InMemorySnippetRepository();
    repo.Add(s);
    stored := repo.Get(1);
    listed := repo.List();
  }

  /** Adding, deleting key 1 and adding again stores the second snippet under key 1. */
  method AddDeleteAddReusesKey(a: Snippet, b: Snippet)
    returns (deleted: Outcome, gone: Option<Snippet>, stored: Option<Snippet>)
    ensures deleted == Pass
    ensures gone == None
    ensures stored == Some(b)
  {
    var repo := new InMemorySnippetRepository();
    repo.Add(a);
    deleted := repo.Delete(1);
    gone := repo.Get(1);
    repo.Add(b);
    stored := repo.Get(1);
  }

  /** Deleting from an empty repository reports the missing key and leaves it empty. */
  method DeleteMissingFails(id: int) returns (deleted: Outcome, listed: seq<Snippet>)
    ensures deleted == Fail(SnippetNotFoundError(id))
    ensures listed == []
  {
    var repo := new InMemorySnippetRepository();
    deleted := repo.Delete(id);
    listed := repo.List();
  }

  /**
   * Updating key 1 stores exactly the record given (the key is not written
   * into it), and updating an absent key inserts it after the others.
   */
  method UpdateReplacesAndInserts(a: Snippet, b: Snippet, c: Snippet, k: int)
    returns (replaced: Option<Snippet>, listed: seq<Snippet>)
    requires k != 1
    ensures replaced == Some(b)
    ensures listed == [b, c]
  {
    var repo := new InMemorySnippetRepository();
    repo.Add(a);
    repo.Update(1, b);
    replaced := repo.Get(1);
    repo.Update(k, c);
    listed := repo.List();
  }

  /** Two adds into a fresh repository use keys 1 and 2 and list in the order added. */
  method TwoAddsListInOrder(a: Snippet, b: Snippet)
    returns (first: Option<Snippet>, second: Option<Snippet>, listed: seq<Snippet>)
    ensures first == Some(a) && second == Some(b)
    ensures listed == [a, b]
  {
    var repo := new InMemorySnippetRepository();
    repo.Add(a);
    assert repo.order == [1] && repo.Listing() == [a];
    assert NextId([1]) == 2;
    repo.Add(b);
    assert repo.data == map[1 := a, 2 := b];
    first := repo.Get(1);
    second := repo.Get(2);
    listed := repo.List();
  }

  /** Appending a fresh key and then removing it restores the keys and the table. */
  lemma AppendThenRemove(keys: seq<int>, table: map<int, Snippet>, k: int, a: Snippet)
    requires k !in keys && k !in table
    ensures IndexOf(keys + [k], k) == |keys|
    ensures (keys + [k])[..|keys|] + (keys + [k])[|keys| + 1..] == keys
    ensures table[k := a] - {k} == table
  {
    assert (keys + [k])[..|keys|] == keys;
  }

  /**
   * From any state: add, delete the key that add assigned, add again. The
   * second snippet is stored under the same key, and the table is otherwise
   * as before.
   */
  method AddDeleteAddFromAnyState(repo: InMemorySnippetRepository, a: Snippet, b: Snippet)
    returns (deleted: Outcome)
    requires repo.Valid()
    modifies repo
    ensures repo.Valid()
    ensures deleted == Pass
    ensures repo.data == old(repo.data)[NextId(old(repo.order)) := b]
    ensures repo.order == old(repo.order) + [NextId(old(repo.order))]
  {
    var k := NextId(repo.order);
    ghost var keys, table := repo.order, repo.data;
    AppendThenRemove(keys, table, k, a);
    repo.Add(a);
    deleted := repo.Delete(k);
    repo.Add(b);
  }
}
