/** The chained hash table on the heap: bucket heads, linked nodes, an entry count. */
module HashTable {
  import opened Bytes
  import opened Environment
  import opened Hash
  import T = Table

  class Node {
    const key: bytes
    var val: bytes
    var next: Node?

    constructor (key: bytes, val: bytes, next: Node?)
      ensures this.key == key && this.val == val && this.next == next
    {
      this.key, this.val, this.next := key, val, next;
    }
  }

  /** `c` are the nodes of the list that starts at `head`, and `t` their entries. */
  ghost predicate Linked(head: Node?, c: seq<Node>, t: T.Chain)
    reads c
  {
    && |c| == |t|
    && head == At(c, 0)
    && forall j :: 0 <= j < |c| ==> c[j].next == At(c, j + 1) && t[j] == T.Entry(c[j].key, c[j].val)
  }

  /** The j-th node, or null past the end. */
  ghost function At(c: seq<Node>, j: nat): Node? {
    if j < |c| then c[j] else null
  }

  // ---- One chain ----------------------------------------------------------

  lemma LinkedCons(node: Node, head: Node?, c: seq<Node>, t: T.Chain)
    requires Linked(head, c, t) && node.next == head
    ensures Linked(node, [node] + c, [T.Entry(node.key, node.val)] + t)
  {
    var c' := [node] + c;
    forall j | 0 <= j < |c'| ensures c'[j].next == At(c', j + 1) {
      if j > 0 {
        assert c'[j] == c[j - 1];
      }
    }
  }

  lemma LinkedTail(head: Node?, c: seq<Node>, t: T.Chain)
    requires Linked(head, c, t) && c != []
    ensures head == c[0] && Linked(c[0].next, c[1..], t[1..])
  {
  }

  lemma LinkedNil()
    ensures Linked(null, [], [])
  {
  }

  lemma LinkedLengths(head: Node?, c: seq<Node>, t: T.Chain)
    requires Linked(head, c, t)
    ensures |c| == |t| && head == At(c, 0)
  {
  }

  lemma LinkedAt(head: Node?, c: seq<Node>, t: T.Chain, j: nat)
    requires Linked(head, c, t) && j < |c|
    ensures |c| == |t| && c[j].key == t[j].key && c[j].next == At(c, j + 1)
  {
  }

  /** Walk a chain to the first node with the key, or past its end. */
  method WalkTo(head: Node?, key: bytes, ghost c: seq<Node>, ghost t: T.Chain)
    returns (prev: Node?, cur: Node?, ghost j: nat)
    requires Linked(head, c, t)
    ensures j == T.Find(t, key) <= |c|
    ensures cur == At(c, j) && prev == if j == 0 then null else At(c, j - 1)
    ensures cur != null ==> cur.key == key && t[j] == T.Entry(key, cur.val)
  {
    hide T.Find;
    j := 0;
    prev, cur := null, head;
    while cur != null
      invariant j <= |c| && cur == At(c, j)
      invariant prev == if j == 0 then null else At(c, j - 1)
      invariant forall i :: 0 <= i < j ==> t[i].key != key
      decreases |c| - j
    {
      assert t[j] == T.Entry(c[j].key, c[j].val);
      if cur.key == key {
        assert T.Find(t, key) == j;
        return;
      }
      prev, cur := cur, cur.next;
      j := j + 1;
    }
    assert T.Find(t, key) == |t|;
  }

  method SetVal(cur: Node, val: bytes, ghost head: Node?, ghost c: seq<Node>, ghost t: T.Chain, ghost j: nat)
    requires Linked(head, c, t) && j < |c| && c[j] == cur
    requires forall k :: 0 <= k < |c| && k != j ==> c[k] != cur
    modifies cur`val
    ensures Linked(head, c, t[j := T.Entry(cur.key, val)])
  {
    cur.val := val;
  }

  /** Route the link of the node before position j around it. */
  method SkipNext(prev: Node, next: Node?, ghost head: Node?, ghost c: seq<Node>, ghost t: T.Chain, ghost j: nat)
    requires Linked(head, c, t) && 0 < j < |c| && c[j - 1] == prev && c[j].next == next
    requires forall k :: 0 <= k < |c| && k + 1 != j ==> c[k] != prev
    modifies prev`next
    ensures Linked(head, c[..j] + c[j + 1..], t[..j] + t[j + 1..])
  {
    ghost var c', t' := c[..j] + c[j + 1..], t[..j] + t[j + 1..];
    forall k | 0 <= k < |c'| ensures c'[k] == c[if k < j then k else k + 1] && t'[k] == t[if k < j then k else k + 1] {
    }
    assert head == At(c', 0);
    prev.next := next;
    forall k | 0 <= k < |c'|
      ensures c'[k].next == At(c', k + 1) && t'[k] == T.Entry(c'[k].key, c'[k].val)
    {
      var i := if k < j then k else k + 1;
      if i == j - 1 {
        assert c'[k] == prev;
      } else {
        assert c[i] != prev;
      }
    }
  }

  class HashTable {
    const buckets: array<Node?>
    var count: nat

    /** The nodes of each chain, and the table they hold. */
    ghost var chains: seq<seq<Node>>
    ghost var table: T.Chains
    ghost var Repr: set<object>

    ghost predicate Valid()
      reads this, Repr
      ensures Valid() ==>
                && this in Repr && buckets in Repr
                && T.WellFormed(table) && |table| == BUCKETS
                && count == |T.Entries(table)| && buckets.Length == BUCKETS
    {
      && this in Repr && buckets in Repr
      && buckets.Length == BUCKETS == |chains|
      && T.WellFormed(table)
      && (forall i, n :: 0 <= i < BUCKETS && n in chains[i] ==> n in Repr)
      && (forall i :: 0 <= i < BUCKETS ==> Linked(buckets[i], chains[i], table[i]))
      && count == |T.Entries(table)|
    }

    constructor ()
      ensures Valid() && fresh(Repr)
      ensures table == T.Empty()
    {
      hide BucketOf, T.WellFormed, T.Entries, Linked;
      T.EmptyIsEmpty();
      LinkedNil();
      buckets := new Node?[BUCKETS](_ => null);
      count := 0;
      chains := seq(BUCKETS, _ => []);
      table := T.Empty();
      Repr := {this, buckets};
    }

    /** A node belongs to the chain of its key's hash and to no other. */
    lemma NodeHome(i: nat, n: Node)
      requires Valid() && i < BUCKETS && n in chains[i]
      ensures BucketOf(n.key) == i
    {
      hide BucketOf;
      var j :| 0 <= j < |chains[i]| && chains[i][j] == n;
      assert Linked(buckets[i], chains[i], table[i]);
      assert table[i][j] in table[i];
    }

    /** Chains are acyclic and pairwise disjoint. */
    lemma ChainsDisjoint(i: nat, j: nat, x: nat, y: nat)
      requires Valid() && i < BUCKETS && x < BUCKETS && j < |chains[i]| && y < |chains[x]|
      requires chains[i][j] == chains[x][y]
      ensures i == x && j == y
    {
      hide BucketOf;
      NodeHome(i, chains[i][j]);
      NodeHome(x, chains[x][y]);
      assert Linked(buckets[i], chains[i], table[i]);
      assert T.DistinctKeys(table[i]);
    }

    /** Walk the chain of `key`, keeping the node whose link points at the current one. */
    method Search(key: bytes) returns (idx: nat, prev: Node?, cur: Node?, ghost j: nat)
      requires Valid()
      ensures idx == BucketOf(key) < BUCKETS
      ensures j == T.Find(table[idx], key) <= |chains[idx]| == |table[idx]|
      ensures cur == At(chains[idx], j)
      ensures prev == if j == 0 then null else At(chains[idx], j - 1)
      ensures cur != null ==> cur.key == key && table[idx][j] == T.Entry(key, cur.val)
    {
      hide BucketOf, BucketIndex, HashFrom, T.Find, T.WellFormed, T.Entries, Linked;
      var hash := HashKey(key);
      idx := BucketIndex(hash);
      assert Linked(buckets[idx], chains[idx], table[idx]);
      prev, cur, j := WalkTo(buckets[idx], key, chains[idx], table[idx]);
      LinkedLengths(buckets[idx], chains[idx], table[idx]);
    }

    /** Look a key up; the table is left alone. */
    method Get(key: bytes) returns (hit: bool, val: bytes)
      requires Valid()
      ensures hit <==> T.Lookup(table, key).Some?
      ensures hit ==> T.Lookup(table, key) == Some(val)
    {
      hide BucketOf, T.Find;
      var idx, prev, cur;
      ghost var j;
      idx, prev, cur, j := Search(key);
      if cur == null {
        return false, [];
      }
      return true, cur.val;
    }

    /** Overwrite in place, or link a new node in front of its chain. When an allocation is
        refused nothing changes. */
    method Set(key: bytes, val: bytes) returns (ok: bool)
      requires Valid()
      modifies Repr
      ensures Valid() && fresh(Repr - old(Repr))
      ensures table == if ok then T.Set(old(table), key, val) else old(table)
      ensures MEMORY_LASTS ==> ok
    {
      hide BucketOf, T.Set, T.Find, T.WellFormed, T.Entries, Linked;
      var idx, prev, cur;
      ghost var j;
      idx, prev, cur, j := Search(key);
      if cur != null {
        ok := Malloc();
        if ok {
          OverwriteAt(idx, j, cur, val);
        }
        return;
      }
      ok := Malloc();
      if !ok {
        return;
      }
      ok := Malloc();
      if !ok {
        return;
      }
      ok := Malloc();
      if !ok {
        return;
      }
      Prepend(idx, key, val);
    }

    /** Swap the value of the j-th node of a chain. */
    method OverwriteAt(idx: nat, ghost j: nat, cur: Node, val: bytes)
      requires Valid() && idx == BucketOf(cur.key) < BUCKETS
      requires j < |chains[idx]| && cur == chains[idx][j] && j == T.Find(table[idx], cur.key) < |table[idx]|
      modifies Repr
      ensures Valid() && Repr == old(Repr)
      ensures table == T.Set(old(table), cur.key, val)
    {
      hide BucketOf, T.Entries, T.WellFormed, T.Find, Linked;
      T.SetRefines(table, cur.key, val);
      T.CountMoves(table, cur.key, val);
      Apart(idx, j);
      SetVal(cur, val, buckets[idx], chains[idx], table[idx], j);
      table := T.Set(table, cur.key, val);
    }

    /** Link a new node in front of its chain. */
    method Prepend(idx: nat, key: bytes, val: bytes)
      requires Valid() && idx == BucketOf(key) < BUCKETS
      requires T.Find(table[idx], key) == |table[idx]|
      modifies Repr
      ensures Valid() && fresh(Repr - old(Repr))
      ensures table == T.Set(old(table), key, val)
    {
      hide BucketOf, T.Entries, T.WellFormed, T.Find, Linked;
      T.SetRefines(table, key, val);
      T.CountMoves(table, key, val);
      var node := new Node(key, val, buckets[idx]);
      LinkedCons(node, buckets[idx], chains[idx], table[idx]);
      buckets[idx] := node;
      count := count + 1;
      chains := chains[idx := [node] + chains[idx]];
      table := T.Set(table, key, val);
      Repr := Repr + {node};
    }

    /** Remove a key: route the link that points at its node (the bucket head, or the node
        before) past it. */
    method Del(key: bytes) returns (hit: bool)
      requires Valid()
      modifies Repr
      ensures Valid() && Repr == old(Repr)
      ensures table == T.Del(old(table), key)
      ensures hit <==> T.Lookup(old(table), key).Some?
    {
      hide BucketOf, T.Find, T.WellFormed, T.Entries, Linked;
      var idx, prev, cur;
      ghost var j;
      idx, prev, cur, j := Search(key);
      if cur == null {
        assert table[idx := table[idx]] == table;
        return false;
      }
      Unlink(idx, j, prev, cur);
      return true;
    }

    method Unlink(idx: nat, ghost j: nat, prev: Node?, cur: Node)
      requires Valid() && idx == BucketOf(cur.key) < BUCKETS
      requires j < |chains[idx]| && cur == chains[idx][j] && j == T.Find(table[idx], cur.key) < |table[idx]|
      requires prev == if j == 0 then null else chains[idx][j - 1]
      modifies Repr
      ensures Valid() && Repr == old(Repr)
      ensures table == T.Del(old(table), cur.key)
    {
      hide BucketOf, T.Entries, T.WellFormed, T.Find, Linked;
      T.DelRefines(table, cur.key);
      T.CountMoves(table, cur.key, []);
      ghost var c, t := chains[idx], table[idx];
      assert Linked(buckets[idx], c, t);
      if prev == null {
        LinkedTail(buckets[idx], c, t);
        assert c[1..] == c[..j] + c[j + 1..] && t[1..] == t[..j] + t[j + 1..];
        buckets[idx] := cur.next;
      } else {
        Apart(idx, j - 1);
        SkipNext(prev, cur.next, buckets[idx], c, t, j);
      }
      count := count - 1;
      chains := chains[idx := c[..j] + c[j + 1..]];
      table := T.Del(table, cur.key);
    }

    /** No other position of any chain holds the node at (idx, j). */
    lemma Apart(idx: nat, j: nat)
      requires Valid() && idx < BUCKETS && j < |chains[idx]|
      ensures forall i :: 0 <= i < BUCKETS && i != idx ==> chains[idx][j] !in chains[i]
      ensures forall k :: 0 <= k < |chains[idx]| && k != j ==> chains[idx][k] != chains[idx][j]
    {
      hide BucketOf, T.Entries, T.WellFormed, T.Find, Linked;
      var n := chains[idx][j];
      forall i | 0 <= i < BUCKETS && n in chains[i] ensures i == idx {
        NodeHome(i, n);
        NodeHome(idx, n);
      }
      forall k | 0 <= k < |chains[idx]| && chains[idx][k] == n ensures k == j {
        ChainsDisjoint(idx, k, idx, j);
      }
    }

    /** Walk and release every chain; the table is empty and usable afterwards. */
    method Destroy()
      requires Valid()
      modifies Repr
      ensures Valid() && Repr == old(Repr)
      ensures table == T.Empty()
    {
      hide BucketOf, T.Entries, T.WellFormed, Linked;
      for i := 0 to BUCKETS
        invariant forall k :: 0 <= k < i ==> buckets[k] == null
        invariant forall k :: i <= k < BUCKETS ==> Linked(buckets[k], chains[k], table[k])
        modifies buckets
      {
        WalkChain(buckets[i], chains[i], table[i]);
        buckets[i] := null;
      }
      count := 0;
      chains := seq(BUCKETS, _ => []);
      table := T.Empty();
      T.EmptyIsEmpty();
      LinkedNil();
    }

    /** Follow a chain to its end. */
    static method WalkChain(head: Node?, ghost c: seq<Node>, ghost t: T.Chain)
      requires Linked(head, c, t)
    {
      ghost var j := 0;
      var cur := head;
      while cur != null
        invariant j <= |c| && cur == At(c, j)
        decreases |c| - j
      {
        cur := cur.next;
        j := j + 1;
      }
    }

    /** Stamp every bucket null, whatever the structure held. */
    method Init()
      requires buckets.Length == BUCKETS
      modifies this, buckets
      ensures Valid() && table == T.Empty() && Repr == {this, buckets}
    {
      hide BucketOf, T.Entries, T.WellFormed, Linked;
      for i := 0 to BUCKETS
        invariant forall k :: 0 <= k < i ==> buckets[k] == null
        modifies buckets
      {
        buckets[i] := null;
      }
      count := 0;
      chains, table, Repr := seq(BUCKETS, _ => []), T.Empty(), {this, buckets};
      T.EmptyIsEmpty();
      LinkedNil();
    }
  }
}
