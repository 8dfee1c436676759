/** Bucket brigades: the doubly linked lists that carry data through the filters of a stream. */
module Brigades {
  import opened Files

  class Bucket {
    const buf: seq<byte>
    var ownBuf: bool
    var refcount: nat
    var next: Bucket?
    var prev: Bucket?
    var brigade: Brigade?

    constructor (buf: seq<byte>, ownBuf: bool)
      ensures this.buf == buf && this.ownBuf == ownBuf && refcount == 1 && Loose()
    {
      this.buf, this.ownBuf, refcount := buf, ownBuf, 1;
      next, prev, brigade := null, null, null;
    }

    /** Linked into no brigade. */
    predicate Loose()
      reads this
    {
      next == null && prev == null && brigade == null
    }
  }

  class Brigade {
    var head: Bucket?
    var tail: Bucket?
    ghost var buckets: seq<Bucket>

    constructor ()
      ensures Valid() && buckets == []
    {
      head, tail, buckets := null, null, [];
    }

    /** The links, in both directions, spell out `buckets`. */
    ghost predicate Valid()
      reads this, buckets
    {
      && (forall i, j | 0 <= i < j < |buckets| :: buckets[i] != buckets[j])
      && (forall i | 0 <= i < |buckets| :: buckets[i].brigade == this)
      && (forall i {:trigger buckets[i].next} | 0 <= i < |buckets| ::
            buckets[i].next == if i + 1 < |buckets| then buckets[i + 1] else null)
      && (forall i {:trigger buckets[i].prev} | 0 <= i < |buckets| ::
            buckets[i].prev == if 0 < i then buckets[i - 1] else null)
      && head == (if buckets == [] then null else buckets[0])
      && tail == (if buckets == [] then null else buckets[|buckets| - 1])
    }

    method Append(bucket: Bucket)
      requires Valid() && (bucket in buckets ==> bucket == tail)
      modifies this, bucket, tail
      ensures Valid()
      ensures buckets == if old(tail) == bucket then old(buckets) else old(buckets) + [bucket]
    {
      if tail == bucket {
        return;
      }
      bucket.prev, bucket.next := tail, null;
      if tail != null {
        tail.next := bucket;
      } else {
        head := bucket;
      }
      tail := bucket;
      bucket.brigade := this;
      buckets := buckets + [bucket];
    }

    method Prepend(bucket: Bucket)
      requires Valid() && bucket !in buckets
      modifies this, bucket, head
      ensures Valid() && buckets == [bucket] + old(buckets)
    {
      bucket.next, bucket.prev := head, null;
      if head != null {
        head.prev := bucket;
      } else {
        tail := bucket;
      }
      head := bucket;
      bucket.brigade := this;
      buckets := [bucket] + buckets;
    }
  }

  /** Takes a bucket out of the brigade it is in, if any; `k` is its place there. */
  method Unlink(bucket: Bucket, ghost k: nat)
    requires bucket.brigade == null ==> bucket.Loose()
    requires bucket.brigade != null ==>
               bucket.brigade.Valid() && k < |bucket.brigade.buckets| && bucket.brigade.buckets[k] == bucket
    modifies bucket, bucket.brigade, bucket.prev, bucket.next
    ensures bucket.Loose() && bucket.refcount == old(bucket.refcount) && bucket.ownBuf == old(bucket.ownBuf)
    ensures old(bucket.brigade) != null ==>
              var b := old(bucket.brigade);
              b.Valid() && b.buckets == old(b.buckets[..k] + b.buckets[k + 1..])
  {
    var b := bucket.brigade;
    if bucket.prev != null {
      bucket.prev.next := bucket.next;
    } else if b != null {
      b.head := bucket.next;
    }
    if bucket.next != null {
      bucket.next.prev := bucket.prev;
    } else if b != null {
      b.tail := bucket.prev;
    }
    bucket.brigade, bucket.next, bucket.prev := null, null, null;
    if b != null {
      b.buckets := b.buckets[..k] + b.buckets[k + 1..];
    }
  }

  /** A bucket with the same bytes that nobody else holds: the bucket itself if that is so already,
      otherwise a copy, in exchange for one reference to the original. */
  method MakeWriteable(bucket: Bucket, ghost k: nat) returns (r: Bucket)
    requires 0 < bucket.refcount
    requires bucket.brigade == null ==> bucket.Loose()
    requires bucket.brigade != null ==>
               bucket.brigade.Valid() && k < |bucket.brigade.buckets| && bucket.brigade.buckets[k] == bucket
    modifies bucket, bucket.brigade, bucket.prev, bucket.next
    ensures r.Loose() && r.buf == bucket.buf && r.refcount == 1 && r.ownBuf
    ensures r == bucket <==> old(bucket.refcount) == 1 && old(bucket.ownBuf)
    ensures r != bucket ==> fresh(r) && bucket.refcount == old(bucket.refcount) - 1 && bucket.Loose()
    ensures old(bucket.brigade) != null ==>
              var b := old(bucket.brigade);
              b.Valid() && b.buckets == old(b.buckets[..k] + b.buckets[k + 1..])
  {
    Unlink(bucket, k);
    if bucket.refcount == 1 && bucket.ownBuf {
      return bucket;
    }
    r := new Bucket(bucket.buf, true);
    bucket.refcount := bucket.refcount - 1;
  }

  /** Two new buckets that together hold the bytes of one. */
  method Split(bucket: Bucket, length: nat) returns (left: Bucket, right: Bucket)
    requires length <= |bucket.buf|
    ensures fresh(left) && fresh(right) && left != right && left.Loose() && right.Loose()
    ensures |left.buf| == length && left.buf + right.buf == bucket.buf
    ensures left.ownBuf && right.ownBuf && left.refcount == right.refcount == 1
  {
    left := new Bucket(bucket.buf[..length], true);
    right := new Bucket(bucket.buf[length..], true);
  }

  /** The bytes of each bucket, in order. */
  function Contents(bs: seq<Bucket>): (r: seq<seq<byte>>)
    ensures |r| == |bs|
  {
    seq(|bs|, i requires 0 <= i < |bs| => bs[i].buf)
  }

  function Flatten(chunks: seq<seq<byte>>): seq<byte> {
    if chunks == [] then [] else chunks[0] + Flatten(chunks[1..])
  }

  lemma {:induction false} FlattenConcat(a: seq<seq<byte>>, b: seq<seq<byte>>)
    ensures Flatten(a + b) == Flatten(a) + Flatten(b)
  {
    if a == [] {
      assert a + b == b;
    } else {
      assert (a + b)[1..] == a[1..] + b;
      FlattenConcat(a[1..], b);
    }
  }
}
