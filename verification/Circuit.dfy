// The ring buffer and the receive buffer over it.
module Circuit {
  import opened Lists
  import opened Options
  import opened NumberTheory

  lemma Wrapped(x: nat, size: nat)
    requires 0 < size && x < 2 * size
    ensures x % size == if x < size then x else x - size
  {
    if x < size {
      DivUnique(x, size, 0, x);
    } else {
      DivUnique(x, size, 1, x - size);
    }
  }

  // The i-th place from head on, in a ring of size places.
  function Pos(head: nat, i: nat, size: nat): (p: int)
    requires head < size && i <= size
    ensures 0 <= p < size && p == (head + i) % size
  {
    Wrapped(head + i, size);
    if head + i < size then head + i else head + i - size
  }

  function Ring(data: seq<byte>, head: nat, length: nat, size: nat): (c: seq<byte>)
    requires head < size && length <= size <= |data|
    ensures |c| == length
  {
    seq(length, i requires 0 <= i < length => data[Pos(head, i, size)])
  }

  lemma TailMoves(head: nat, length: nat, n: nat, size: nat)
    requires head < size && length + n <= size
    ensures (Pos(head, length, size) + n) % size == Pos(head, length + n, size)
  {
    Wrapped(Pos(head, length, size) + n, size);
  }

  lemma Appended(was: seq<byte>, data: seq<byte>, head: nat, length: nat, src: seq<byte>, size: nat)
    requires head < size && length + |src| <= size <= |was| == |data|
    requires forall k :: 0 <= k < |src| ==> data[Pos(Pos(head, length, size), k, size)] == src[k]
    requires forall i :: 0 <= i < length ==> data[Pos(head, i, size)] == was[Pos(head, i, size)]
    ensures Ring(data, head, length + |src|, size) == Ring(was, head, length, size) + src
  {
    var r := Ring(data, head, length + |src|, size);
    forall i | 0 <= i < length + |src|
      ensures r[i] == (Ring(was, head, length, size) + src)[i]
    {
      if i >= length {
        assert Pos(head, i, size) == Pos(Pos(head, length, size), i - length, size);
      }
    }
  }

  class CircuitQueue {
    const data: array<byte>
    const size: nat
    const extra: nat

    var length: int
    var head: nat
    var tail: nat

    predicate Valid()
      reads this
    {
      && 0 < size && data.Length == size + extra && 0 <= length <= size && head < size
      && tail == Pos(head, length, size)
    }

    ghost function Contents(): (c: seq<byte>)
      requires Valid()
      reads this, data
      ensures |c| == length
    {
      Ring(data[..], head, length, size)
    }

    constructor (size: nat, extra: nat)
      requires size > 0
      ensures Valid() && Contents() == [] && fresh(data) && this.size == size && this.extra == extra
    {
      data := new byte[size + extra];
      this.size, this.extra := size, extra;
      length, head, tail := 0, 0, 0;
    }

    // memcpy into the block.
    method Store(at: nat, src: seq<byte>)
      requires at + |src| <= data.Length
      modifies data
      ensures forall k :: 0 <= k < data.Length ==> data[k] == if at <= k < at + |src| then src[k - at] else old(data[k])
    {
      var i := 0;
      while i < |src|
        invariant 0 <= i <= |src|
        invariant forall k :: 0 <= k < data.Length ==> data[k] == if at <= k < at + i then src[k - at] else old(data[k])
      {
        data[at + i] := src[i];
        i := i + 1;
      }
    }

    method Clear()
      requires Valid()
      modifies this`length, this`head, this`tail
      ensures Valid() && Contents() == []
    {
      length, head, tail := 0, 0, 0;
    }

    // The copies of enqueue: one, or two when the end of the ring is met.
    method StoreAll(src: seq<byte>)
      requires Valid() && length + |src| <= size
      modifies data
      ensures forall k :: 0 <= k < |src| ==> data[Pos(tail, k, size)] == src[k]
      ensures forall i :: 0 <= i < length ==> data[Pos(head, i, size)] == old(data[Pos(head, i, size)])
    {
      if head <= tail {
        var back := size - tail;
        if back >= |src| {
          Store(tail, src);
        } else {
          Store(tail, src[..back]);
          Store(0, src[back..]);
        }
      } else {
        Store(tail, src);
      }
    }

    // enqueue; without a source the places are only counted in, with what is
    // there already.
    method Enqueue(src: Option<seq<byte>>, n: nat) returns (ok: bool)
      requires Valid() && (src.Some? ==> |src.value| == n)
      modifies this`length, this`tail, data
      ensures Valid() && head == old(head) && ok == (old(length) + n <= size)
      ensures !ok ==> Contents() == old(Contents())
      ensures ok && src.Some? ==> Contents() == old(Contents()) + src.value
      ensures ok && src.None? ==> data[..] == old(data[..]) && Contents() == Ring(data[..], head, old(length) + n, size)
    {
      if size - length < n {
        return false;
      }
      ghost var was := data[..];
      if src.Some? {
        StoreAll(src.value);
      }
      ghost var placed := src.Some? ==> forall k :: 0 <= k < n ==> data[..][Pos(tail, k, size)] == src.value[k];
      TailMoves(head, length, n, size);
      tail := tail + n;
      tail := tail % size;
      length := length + n;
      if src.Some? {
        Appended(was, data[..], head, length - n, src.value, size);
      }
      return true;
    }

    // peek: the first n of the contents, if there are so many.
    method Peek(n: nat) returns (ok: bool, target: seq<byte>)
      requires Valid()
      ensures ok == (n <= length)
      ensures ok ==> target == Contents()[..n]
    {
      target := [];
      if length < n {
        return false, [];
      }
      if head < tail {
        target := data[head..head + n];
      } else if size - head >= n {
        target := data[head..head + n];
      } else {
        target := data[head..size] + data[..n - (size - head)];
      }
      return true, target;
    }

    method GetSpace() returns (n: int)
      requires Valid()
      ensures n == size - |Contents()|
    {
      n := size - length;
    }

    // get_writable_len: how many places behind the tail are free in one piece.
    method GetWritableLen() returns (n: int)
      requires Valid()
      ensures n == if length + size - tail <= size then size - tail else size - length
      ensures 0 <= n && tail + n <= size && forall i :: 0 <= i < length ==> !(tail <= Pos(head, i, size) < tail + n)
      ensures length < size ==> n > 0
    {
      if head == tail {
        n := if length > 0 then 0 else size - tail;
      } else if head < tail {
        n := size - tail;
      } else {
        n := head - tail;
      }
    }

    // copy_head_data_to_extra_buffer.
    method CopyHeadDataToExtraBuffer(n: nat)
      requires Valid() && n <= extra && n <= size
      modifies data
      ensures Contents() == old(Contents())
      ensures forall k :: 0 <= k < n ==> data[size + k] == data[k]
      ensures forall k :: 0 <= k < size ==> data[k] == old(data[k])
    {
      ghost var was := data[..];
      Store(size, data[..n]);
      assert Ring(data[..], head, length, size) == Ring(was, head, length, size);
    }

    // dequeue as it is written: the test of peek is turned round.
    method Dequeue(n: nat) returns (ok: bool, target: seq<byte>)
      requires size > 0 && Valid()
      modifies this`length, this`head
      ensures ok == (n > old(length))
      ensures n <= old(length) ==> Valid() && Contents() == old(Contents()) && target == Contents()[..n]
      ensures n > old(length) ==> length == old(length) - n < 0 && head == (old(head) + n) % size
    {
      var found;
      found, target := Peek(n);
      if found {
        return false, target;
      }
      head := head + n;
      head := head % size;
      length := length - n;
      return true, target;
    }
  }

  // The receive buffer of a connection.
  class NodesBuffer {
    const queue: CircuitQueue

    constructor (size: nat, extra: nat)
      requires size > 0 && extra < 256
      ensures queue.Valid() && queue.Contents() == [] && fresh(queue) && fresh(queue.data)
    {
      queue := new CircuitQueue(size, extra);
    }

    // get_recv_param: where the next bytes may be received, and how many.
    method GetRecvParam() returns (at: nat, n: int)
      requires queue.Valid()
      ensures at == queue.tail && at + n <= queue.size && queue.length + n <= queue.size
      ensures n >= 0 && (at + n == queue.size || queue.length + n == queue.size)
    {
      at := queue.tail;
      n := queue.GetWritableLen();
    }

    // completion: n bytes have been received at the place that get_recv_param
    // gave, no more than it allowed.
    method Completion(n: nat)
      requires queue.Valid() && queue.length + n <= queue.size && queue.tail + n <= queue.size
      modifies queue`length, queue`tail, queue.data
      ensures queue.Valid()
      ensures queue.Contents() == old(queue.Contents()) + old(queue.data[queue.tail..queue.tail + n])
    {
      ghost var got := queue.data[queue.tail..queue.tail + n];
      Appended(queue.data[..], queue.data[..], queue.head, queue.length, got, queue.size);
      var ok := queue.Enqueue(None, n);
    }

    // get_first_packet_ptr: the first n bytes in one piece, if the part of them
    // that is wrapped round fits the extra places.
    method GetFirstPacketPtr(n: int) returns (at: Option<nat>)
      requires queue.Valid() && (n <= queue.length ==> n - (queue.size - queue.head) <= queue.extra)
      modifies queue.data
      ensures queue.Valid() && queue.Contents() == old(queue.Contents())
      ensures at == if queue.length < n then None else Some(queue.head)
      ensures at.Some? && n >= 0 ==> at.value + n <= queue.data.Length
      ensures at.Some? && n >= 0 ==> queue.data[at.value..at.value + n] == queue.Contents()[..n]
    {
      if queue.length < n {
        return None;
      }
      if queue.size - queue.head < n {
        queue.CopyHeadDataToExtraBuffer(n - (queue.size - queue.head));
      }
      return Some(queue.head);
    }
  }

  // What dequeue is for: the first n elements leave.
  predicate Intended(before: seq<byte>, n: nat, ok: bool, after: seq<byte>, length: int)
  {
    && ok == (n <= |before|)
    && length == |after| && after == if n <= |before| then before[n..] else before
  }

  // Whatever the contents and the length asked for, dequeue does not do what it
  // is for, whatever one takes the contents to be afterwards.
  method DequeueNeverIntended(q: CircuitQueue, n: nat) returns (ok: bool)
    requires q.size > 0 && q.Valid()
    modifies q`length, q`head
    ensures forall after :: !Intended(old(q.Contents()), n, ok, after, q.length)
    ensures n > |old(q.Contents())| <==> q.length < 0
    ensures q.length >= 0 ==> q.Valid() && q.Contents() == old(q.Contents())
  {
    var target;
    ok, target := q.Dequeue(n);
  }

  // The two assignments behind the test would drop the first n elements, if
  // they were reached with so many there.
  lemma AdvanceDrops(data: seq<byte>, head: nat, length: nat, n: nat, size: nat)
    requires head < size && n <= length <= size <= |data|
    ensures (head + n) % size == Pos(head, n, size)
    ensures Ring(data, Pos(head, n, size), length - n, size) == Ring(data, head, length, size)[n..]
  {
    forall i | 0 <= i < length - n
      ensures Pos(Pos(head, n, size), i, size) == Pos(head, n + i, size)
    {
    }
  }
}
