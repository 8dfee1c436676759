/** The singly linked lists of the connection manager: registered connections, blacklisted servers and
    the callbacks of a connection.  They are appended to at the end, searched from the front, and the
    first match is what a removal takes out. */
module LinkedLists {
  import opened Files

  datatype Entry<K, T> = Entry(key: K, data: T)

  /** The data of the first entry under `key`. */
  function Lookup<K(==), T>(es: seq<Entry<K, T>>, key: K): Option<T> {
    if es == [] then None
    else if es[0].key == key then Some(es[0].data)
    else Lookup(es[1..], key)
  }

  /** The list without the first entry under `key`. */
  function RemoveFirst<K(==), T>(es: seq<Entry<K, T>>, key: K): (r: seq<Entry<K, T>>)
    ensures Lookup(es, key).None? ==> r == es
    ensures Lookup(es, key).Some? ==> |r| == |es| - 1
    ensures forall e | e in r :: e in es
  {
    if es == [] then []
    else if es[0].key == key then es[1..]
    else [es[0]] + RemoveFirst(es[1..], key)
  }

  ghost predicate UniqueKeys<K, T>(es: seq<Entry<K, T>>) {
    forall i, j | 0 <= i < j < |es| :: es[i].key != es[j].key
  }

  predicate HasKey<K(==), T>(es: seq<Entry<K, T>>, key: K) {
    Lookup(es, key).Some?
  }

  lemma {:induction false} LookupFinds<K, T>(es: seq<Entry<K, T>>, key: K)
    ensures HasKey(es, key) <==> exists i :: 0 <= i < |es| && es[i].key == key
    ensures HasKey(es, key) ==> Entry(key, Lookup(es, key).value) in es
  {
    if es != [] {
      LookupFinds(es[1..], key);
      if HasKey(es[1..], key) && es[0].key != key {
        var i :| 0 <= i < |es[1..]| && es[1..][i].key == key;
        assert es[i + 1].key == key;
      }
      if exists i :: 0 < i < |es| && es[i].key == key {
        var i :| 0 < i < |es| && es[i].key == key;
        assert es[1..][i - 1].key == key;
      }
    }
  }

  lemma {:induction false} LookupAppend<K, T>(es: seq<Entry<K, T>>, e: Entry<K, T>, key: K)
    ensures Lookup(es + [e], key) ==
            if HasKey(es, key) then Lookup(es, key) else if e.key == key then Some(e.data) else None
  {
    if es != [] {
      assert (es + [e])[1..] == es[1..] + [e];
      LookupAppend(es[1..], e, key);
    } else {
      assert es + [e] == [e];
    }
  }

  /** Other keys keep what they had; a unique key is gone. */
  lemma {:induction false} LookupRemove<K, T>(es: seq<Entry<K, T>>, gone: K, key: K)
    ensures key != gone ==> Lookup(RemoveFirst(es, gone), key) == Lookup(es, key)
    ensures UniqueKeys(es) ==> UniqueKeys(RemoveFirst(es, gone)) && !HasKey(RemoveFirst(es, gone), gone)
  {
    if es != [] {
      LookupRemove(es[1..], gone, key);
      if es[0].key == gone {
        LookupFinds(es[1..], gone);
      } else {
        var r := RemoveFirst(es[1..], gone);
        assert ([es[0]] + r)[1..] == r && ([es[0]] + r)[0] == es[0];
        assert forall i | 0 <= i < |r| :: r[i] in es[1..];
      }
    }
  }

  /** The entry at `i`, with none of the same key before it, is the one found and removed. */
  lemma {:induction false} FirstAt<K, T>(es: seq<Entry<K, T>>, key: K, i: nat)
    requires i <= |es| && forall j | 0 <= j < i :: es[j].key != key
    ensures i < |es| && es[i].key == key ==>
              Lookup(es, key) == Some(es[i].data) && RemoveFirst(es, key) == es[..i] + es[i + 1..]
    ensures i == |es| ==> Lookup(es, key).None?
  {
    if 0 < i {
      FirstAt(es[1..], key, i - 1);
      if i < |es| {
        assert es[1..][..i - 1] == es[1..i] && es[1..][i..] == es[i + 1..];
        assert es[..i] == [es[0]] + es[1..i];
      }
    } else if es != [] {
      assert es[..0] + es[1..] == es[1..];
    }
  }

  lemma UniqueAppend<K, T>(es: seq<Entry<K, T>>, e: Entry<K, T>)
    requires UniqueKeys(es) && !HasKey(es, e.key)
    ensures UniqueKeys(es + [e])
  {
    LookupFinds(es, e.key);
  }

  class Node<K, T> {
    const key: K
    const data: T
    var next: Node?<K, T>
    /** The list this node was made for. */
    ghost const owner: object

    constructor (key: K, data: T, ghost owner: object)
      ensures this.key == key && this.data == data && this.owner == owner && next == null
    {
      this.key, this.data, this.owner, next := key, data, owner, null;
    }
  }

  class LinkedList<K(==), T> {
    var head: Node?<K, T>
    ghost var nodes: seq<Node<K, T>>

    constructor ()
      ensures Valid() && nodes == []
    {
      head, nodes := null, [];
    }

    ghost predicate Valid()
      reads this, nodes
    {
      && (forall i, j | 0 <= i < j < |nodes| :: nodes[i] != nodes[j])
      && (forall i | 0 <= i < |nodes| :: nodes[i].owner == this)
      && head == (if nodes == [] then null else nodes[0])
      && (forall i {:trigger nodes[i].next} | 0 <= i < |nodes| ::
            nodes[i].next == if i + 1 < |nodes| then nodes[i + 1] else null)
    }

    ghost function Entries(): (es: seq<Entry<K, T>>)
      reads this
      ensures |es| == |nodes|
    {
      EntriesOf(nodes)
    }

    static ghost function EntriesOf(ns: seq<Node<K, T>>): (es: seq<Entry<K, T>>)
      ensures |es| == |ns|
    {
      seq(|ns|, i requires 0 <= i < |ns| => Entry(ns[i].key, ns[i].data))
    }

    method Find(key: K) returns (r: Option<T>)
      requires Valid()
      ensures r == Lookup(Entries(), key)
    {
      var ptr := head;
      ghost var i := 0;
      while ptr != null
        invariant 0 <= i <= |nodes| && ptr == if i < |nodes| then nodes[i] else null
        invariant forall j | 0 <= j < i :: nodes[j].key != key
        decreases |nodes| - i
      {
        if ptr.key == key {
          FirstAt(Entries(), key, i);
          return Some(ptr.data);
        }
        ptr := ptr.next;
        i := i + 1;
      }
      FirstAt(Entries(), key, i);
      return None;
    }

    method Append(key: K, data: T)
      requires Valid()
      modifies this, nodes
      ensures Valid() && Entries() == old(Entries()) + [Entry(key, data)]
      ensures forall i | 0 <= i < |nodes| :: nodes[i] in old(nodes) || fresh(nodes[i])
    {
      var node := new Node(key, data, this);
      if head == null {
        head := node;
      } else {
        var item := head;
        ghost var i := 0;
        while item.next != null
          invariant 0 <= i < |nodes| && item == nodes[i]
          decreases |nodes| - i
        {
          item := item.next;
          i := i + 1;
        }
        item.next := node;
      }
      nodes := nodes + [node];
    }

    /** Unlinks the first node under `key`. */
    method Remove(key: K) returns (found: bool)
      requires Valid()
      modifies this, nodes
      ensures Valid() && found == HasKey(old(Entries()), key)
      ensures Entries() == RemoveFirst(old(Entries()), key)
      ensures forall i | 0 <= i < |nodes| :: nodes[i] in old(nodes)
    {
      var prev: Node?<K, T> := null;
      var item := head;
      ghost var i := 0;
      while item != null && item.key != key
        invariant 0 <= i <= |nodes| && item == (if i < |nodes| then nodes[i] else null)
        invariant prev == if i == 0 then null else nodes[i - 1]
        invariant forall j | 0 <= j < i :: nodes[j].key != key
        decreases |nodes| - i
      {
        prev := item;
        item := item.next;
        i := i + 1;
      }
      FirstAt(Entries(), key, i);
      found := item != null;
      if found {
        RemoveAt(prev, item, i);
      }
    }

    /** Unlinks `item`, the node at `i`; `prev` is the one in front of it. */
    method RemoveAt(prev: Node?<K, T>, item: Node<K, T>, ghost i: nat)
      requires Valid() && i < |nodes| && item == nodes[i] && prev == if i == 0 then null else nodes[i - 1]
      modifies this, prev
      ensures Valid() && nodes == old(nodes)[..i] + old(nodes)[i + 1..]
      ensures Entries() == old(Entries())[..i] + old(Entries())[i + 1..]
    {
      if prev == null {
        head := item.next;
      } else {
        prev.next := item.next;
      }
      nodes := nodes[..i] + nodes[i + 1..];
    }
  }
}
