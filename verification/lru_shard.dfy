/** One cache shard: a doubly linked list of nodes, most recently used first, and a map from each key
    to its node. Every public operation runs under the shard's mutex, so it is one atomic step. */
module LruShard {
  import opened Common
  import opened Recency

  class Node {
    const key: string
    var value: string
    var prev: Node?
    var next: Node?

    constructor (key: string, value: string)
      ensures this.key == key && this.value == value
    {
      this.key, this.value := key, value;
      prev, next := null, null;
    }
  }

  class LRUCacheShard {
    const capacity: nat
    var head: Node?
    var tail: Node?
    var size: nat
    var cacheMap: map<string, Node>
    ghost var spine: seq<Node>      // the nodes in list order
    ghost var Contents: seq<Entry>  // the abstract value: the recency list
    ghost var Nodes: set<Node>        // every node ever made for this shard

    /** The list part: the nodes are linked in spine order, both ways. */
    ghost predicate Linked()
      reads this, Nodes
    {
      && size == |spine|
      && (forall i :: 0 <= i < |spine| ==> spine[i] in Nodes)
      && (forall i, j :: 0 <= i < j < |spine| ==> spine[i] != spine[j])
      && (forall i {:trigger spine[i].prev} :: 0 <= i < |spine| ==>
            spine[i].prev == if i == 0 then null else spine[i - 1])
      && (forall i {:trigger spine[i].next} :: 0 <= i < |spine| ==>
            spine[i].next == if i == |spine| - 1 then null else spine[i + 1])
      && head == (if spine == [] then null else spine[0])
      && tail == (if spine == [] then null else spine[|spine| - 1])
    }

    /** The abstract value is what the nodes hold. */
    ghost predicate Mirrored()
      reads this, Nodes
    {
      && (forall i :: 0 <= i < |spine| ==> spine[i] in Nodes)
      && |Contents| == |spine|
      && (forall i :: 0 <= i < |spine| ==> Contents[i] == Entry(spine[i].key, spine[i].value))
    }

    /** The map part: it sends the key of each node to that node, and knows no other key. */
    ghost predicate Indexed()
      reads this
    {
      && |cacheMap| == |spine|
      && (forall i :: 0 <= i < |spine| ==> spine[i].key in cacheMap && cacheMap[spine[i].key] == spine[i])
    }

    ghost predicate Valid()
      reads this, Nodes
      ensures Valid() ==> size == |Contents| <= capacity && 1 <= capacity
    {
      Linked() && Mirrored() && Indexed() && 1 <= capacity && size <= capacity
    }

    constructor (capacity: nat)
      requires 1 <= capacity
      ensures Valid() && Contents == [] && this.capacity == capacity && Nodes == {}
    {
      this.capacity := capacity;
      head, tail, size, cacheMap := null, null, 0, map[];
      spine, Contents, Nodes := [], [], {};
    }

    lemma ContentsLegal()
      requires Valid()
      ensures Legal(Contents, capacity)
    {
      forall i, j | 0 <= i < j < |spine| ensures Contents[i].key != Contents[j].key {
        assert cacheMap[spine[i].key] != cacheMap[spine[j].key];
      }
    }

    /** The map finds a key exactly when the list has it, and then leads to its entry. */
    lemma MapFinds(k: string)
      requires Valid()
      ensures k in cacheMap <==> Has(Contents, k)
      ensures k in cacheMap ==>
                && cacheMap[k] in Nodes && cacheMap[k].key == k
                && Find(Contents, k) < |spine| && spine[Find(Contents, k)] == cacheMap[k]
    {
      ContentsLegal();
      KeysCount(Contents);
      SameSize(Keys(Contents), cacheMap.Keys);
      HasIffKey(Contents, k);
    }

    static lemma SameSize<T>(a: set<T>, b: set<T>)
      requires a <= b && |a| == |b|
      ensures a == b
    {
      assert b == a + (b - a);
    }

    /** Takes a node out of the list; the map still knows it. */
    method Unlink(n: Node, ghost at: nat)
      requires Linked() && at < |spine| && spine[at] == n
      modifies this`head, this`tail, this`size, this`spine, Nodes
      ensures Linked() && spine == old(RemoveAt(spine, at))
      ensures forall i :: 0 <= i < |old(spine)| ==> old(spine)[i].value == old(spine[i].value)
    {
      assert n.prev != null ==> n.prev == spine[at - 1];
      assert n.next != null ==> n.next == spine[at + 1];
      ghost var rest := RemoveAt(spine, at);
      assert forall i :: 0 <= i < |rest| ==> rest[i] == spine[if i < at then i else i + 1];
      if n.prev == null { head := n.next; } else { n.prev.next := n.next; }
      if n.next == null { tail := n.prev; } else { n.next.prev := n.prev; }
      size := size - 1;
      spine := rest;
    }

    method PushFront(n: Node)
      requires Linked() && n in Nodes && forall i :: 0 <= i < |spine| ==> spine[i] != n
      modifies this`head, this`tail, this`size, this`spine, Nodes
      ensures Linked() && spine == [n] + old(spine)
      ensures n.value == old(n.value)
      ensures forall i :: 0 <= i < |old(spine)| ==> old(spine)[i].value == old(spine[i].value)
    {
      n.prev, n.next := null, head;
      if head == null { tail := n; } else { head.prev := n; }
      head := n;
      size := size + 1;
      spine := [n] + spine;
    }

    /** push_front: links the node in and mirrors it in the abstract value. */
    method AddFront(n: Node)
      requires Linked() && Mirrored() && n in Nodes && forall i :: 0 <= i < |spine| ==> spine[i] != n
      modifies this`head, this`tail, this`size, this`spine, this`Contents, Nodes
      ensures Linked() && Mirrored() && spine == [n] + old(spine)
      ensures Contents == [Entry(n.key, old(n.value))] + old(Contents)
    {
      PushFront(n);
      Contents := [Entry(n.key, n.value)] + Contents;
    }

    /** erase: unlinks the node and drops it from the abstract value. */
    method Drop(n: Node, ghost at: nat)
      requires Linked() && Mirrored() && at < |spine| && spine[at] == n
      modifies this`head, this`tail, this`size, this`spine, this`Contents, Nodes
      ensures Linked() && Mirrored() && spine == old(RemoveAt(spine, at)) && n.value == old(n.value)
      ensures Contents == old(RemoveAt(Contents, at))
    {
      Unlink(n, at);
      Contents := RemoveAt(Contents, at);
    }

    /** The splice that moves the node to the front of its own list. */
    method MoveToFront(n: Node, ghost at: nat)
      requires Valid() && at < |spine| && spine[at] == n
      modifies this, Nodes
      ensures Valid() && unchanged(this`Nodes) && n.value == old(n.value)
      ensures Contents == [Entry(n.key, n.value)] + old(RemoveAt(Contents, at))
    {
      Drop(n, at);
      AddFront(n);
    }

    method Get(key: string) returns (value: Option<string>)
      requires Valid()
      modifies this, Nodes
      ensures Valid() && unchanged(this`Nodes)
      ensures value == Lookup(old(Contents), key)
      ensures Contents == Apply(old(Contents), capacity, Op.Get(key))
    {
      MapFinds(key);
      if key !in cacheMap {
        return None;
      }
      var n := cacheMap[key];
      ghost var at := Find(Contents, key);
      assert Contents[at] == Entry(key, n.value);
      MoveToFront(n, at);
      value := Some(n.value);
    }

    method Put(key: string, value: string)
      requires Valid()
      modifies this, Nodes
      ensures Valid() && fresh(Nodes - old(Nodes))
      ensures Contents == Apply(old(Contents), capacity, Op.Put(key, value))
    {
      hide LRUCacheShard.Valid;
      MapFinds(key);
      if key in cacheMap {
        Renew(cacheMap[key], Find(Contents, key), value);
      } else {
        if size >= capacity {
          Evict();
        }
        Insert(key, value);
      }
    }

    /** The assignment and the splice of a put on a known key. */
    method Renew(n: Node, ghost at: nat, value: string)
      requires Valid() && at < |spine| && spine[at] == n
      modifies this, Nodes
      ensures Valid() && unchanged(this`Nodes)
      ensures Contents == [Entry(n.key, value)] + old(RemoveAt(Contents, at))
    {
      Overwrite(n, at, value);
      RemoveUpdated(old(Contents), at, Entry(n.key, value));
      MoveToFront(n, at);
    }

    method Overwrite(n: Node, ghost at: nat, value: string)
      requires Valid() && at < |spine| && spine[at] == n
      modifies n`value, this`Contents
      ensures Valid() && Contents == old(Contents)[at := Entry(n.key, value)]
    {
      n.value := value;
      Contents := Contents[at := Entry(n.key, value)];
    }

    /** Drops the least recently used entry. */
    method Evict()
      requires Valid() && size > 0
      modifies this, Nodes
      ensures Valid() && unchanged(this`Nodes) && size == old(size) - 1
      ensures cacheMap.Keys <= old(cacheMap.Keys)
      ensures Contents == old(Contents[..|Contents| - 1])
    {
      Erase(tail, |spine| - 1);
    }

    method AddNew(key: string, value: string) returns (n: Node)
      requires Linked() && Mirrored()
      modifies this`head, this`tail, this`size, this`spine, this`Contents, this`Nodes, Nodes
      ensures Linked() && Mirrored() && fresh(n) && Nodes == old(Nodes) + {n} && n.key == key
      ensures spine == [n] + old(spine) && Contents == [Entry(key, value)] + old(Contents)
    {
      n := new Node(key, value);
      Nodes := Nodes + {n};
      AddFront(n);
    }

    method Insert(key: string, value: string)
      requires Valid() && size < capacity && key !in cacheMap
      modifies this, Nodes
      ensures Valid() && fresh(Nodes - old(Nodes))
      ensures Contents == [Entry(key, value)] + old(Contents)
    {
      var n := AddNew(key, value);
      cacheMap := cacheMap[key := n];
    }

    method Remove(key: string)
      requires Valid()
      modifies this, Nodes
      ensures Valid() && unchanged(this`Nodes)
      ensures Contents == Apply(old(Contents), capacity, Op.Remove(key))
    {
      hide LRUCacheShard.Valid;
      MapFinds(key);
      if key in cacheMap {
        Erase(cacheMap[key], Find(Contents, key));
      }
    }

    method Erase(n: Node, ghost at: nat)
      requires Valid() && at < |spine| && spine[at] == n
      modifies this, Nodes
      ensures Valid() && unchanged(this`Nodes) && size == old(size) - 1
      ensures cacheMap.Keys <= old(cacheMap.Keys)
      ensures Contents == old(RemoveAt(Contents, at))
    {
      Drop(n, at);
      cacheMap := cacheMap - {n.key};
    }
  }
}
