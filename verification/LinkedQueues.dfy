/**
 * The kernel's linked queues: the doubly linked list of `src/list.c` with the queue
 * of `src/queue.c` on top, the network frame queue of `src/net_queue.c` and the
 * singly linked block queue of `src/etherif.c`.
 *
 * Each object carries a ghost `spine`, the nodes in order. `Valid` ties the links to
 * the spine, every method says what happens to the sequence of contents, and the
 * lemmas say that a walk along the links can find no other sequence.
 */
module LinkedQueues {
  import opened Common

  type Bytes = seq<byte>

  // FRAME_BUFFER_SIZE
  const FRAME_BUFFER_SIZE: nat := 1600

  // ---------------------------------------------------------------- the chain

  class Node<T> {
    var data: T
    var next: Node?<T>
    var prev: Node?<T>

    constructor (data: T)
      ensures this.data == data && next == null && prev == null
    {
      this.data := data;
      next := null;
      prev := null;
    }
  }

  ghost predicate Linked<T>(s: seq<Node<T>>)
    reads s
  {
    && (forall i, j :: 0 <= i < j < |s| ==> s[i] != s[j])
    && (forall i {:trigger s[i].next} :: 0 <= i < |s| ==> s[i].next == NodeAt(s, i + 1))
    && (forall i {:trigger s[i].prev} :: 0 <= i < |s| ==> s[i].prev == NodeAt(s, i - 1))
  }

  // The node at position i, null outside the sequence.
  ghost function NodeAt<T>(s: seq<Node<T>>, i: int): (n: Node?<T>) {
    if 0 <= i < |s| then s[i] else null
  }

  ghost predicate Ends<T>(s: seq<Node<T>>, head: Node?<T>, tail: Node?<T>) {
    if s == [] then head == null && tail == null
    else head == s[0] && tail == s[|s| - 1]
  }

  ghost function DataOf<T>(s: seq<Node<T>>): (r: seq<T>)
    reads s
    ensures |r| == |s|
  {
    seq(|s|, i requires 0 <= i < |s| reads s => s[i].data)
  }

  lemma DistinctWithout<T>(s: seq<Node<T>>, k: nat, t: seq<Node<T>>)
    requires k < |s| && t == s[..k] + s[k + 1..]
    requires forall i, j :: 0 <= i < j < |s| ==> s[i] != s[j]
    ensures forall i, j :: 0 <= i < j < |t| ==> t[i] != t[j]
  {
    forall i, j | 0 <= i < j < |t|
      ensures t[i] != t[j]
    {
      assert t[i] == s[if i < k then i else i + 1] && t[j] == s[if j < k then j else j + 1];
    }
  }

  /** Links that lead past node k join up the rest. */
  lemma Bypassed<T>(s: seq<Node<T>>, k: nat, t: seq<Node<T>>)
    requires k < |s| && t == s[..k] + s[k + 1..]
    requires forall i, j :: 0 <= i < j < |s| ==> s[i] != s[j]
    requires forall i {:trigger s[i].next} :: 0 <= i < |s| && i != k ==> s[i].next == NodeAt(s, if i + 1 == k then i + 2 else i + 1)
    requires forall i {:trigger s[i].prev} :: 0 <= i < |s| && i != k ==> s[i].prev == NodeAt(s, if i == k + 1 then i - 2 else i - 1)
    ensures Linked(t)
  {
    forall i | 0 <= i < |t|
      ensures t[i].next == NodeAt(t, i + 1) && t[i].prev == NodeAt(t, i - 1)
    {
      assert t[i] == s[if i < k then i else i + 1];
    }
    DistinctWithout(s, k, t);
  }

  /** Links that lead on to a new last node take it in. */
  lemma Appended<T>(s: seq<Node<T>>, n: Node<T>, t: seq<Node<T>>)
    requires t == s + [n] && n !in s
    requires forall i, j :: 0 <= i < j < |s| ==> s[i] != s[j]
    requires forall i {:trigger s[i].next} :: 0 <= i < |s| ==> s[i].next == NodeAt(t, i + 1)
    requires forall i {:trigger s[i].prev} :: 0 <= i < |s| ==> s[i].prev == NodeAt(s, i - 1)
    requires n.prev == NodeAt(s, |s| - 1) && n.next == null
    ensures Linked(t) && DataOf(t) == DataOf(s) + [n.data]
  {
  }

  /** The same at the front. */
  lemma Prepended<T>(s: seq<Node<T>>, n: Node<T>, t: seq<Node<T>>)
    requires t == [n] + s && n !in s
    requires forall i, j :: 0 <= i < j < |s| ==> s[i] != s[j]
    requires forall i {:trigger s[i].next} :: 0 <= i < |s| ==> s[i].next == NodeAt(s, i + 1)
    requires forall i {:trigger s[i].prev} :: 0 <= i < |s| ==> s[i].prev == NodeAt(t, i)
    requires n.next == NodeAt(s, 0) && n.prev == null
    ensures Linked(t) && DataOf(t) == [n.data] + DataOf(s)
  {
    forall i | 0 < i < |t|
      ensures t[i].next == NodeAt(t, i + 1) && t[i].prev == NodeAt(t, i - 1)
    {
      assert t[i] == s[i - 1];
    }
  }

  lemma EndsWithout<T>(s: seq<Node<T>>, k: nat, head: Node?<T>, tail: Node?<T>)
    requires k < |s| && Ends(s, head, tail) && forall i, j :: 0 <= i < j < |s| ==> s[i] != s[j]
    ensures Ends(s[..k] + s[k + 1..], if head == s[k] then NodeAt(s, k + 1) else head,
                 if tail == s[k] then NodeAt(s, k - 1) else tail)
  {
    assert k > 0 ==> head == s[0] != s[k];
    assert k < |s| - 1 ==> tail == s[|s| - 1] != s[k];
  }

  /** The two link updates of list_delete_node. */
  method LinkPast<T>(prev: Node?<T>, next: Node?<T>, ghost s: seq<Node<T>>, ghost k: nat)
    requires Linked(s) && k < |s|
    requires prev == NodeAt(s, k - 1) && next == NodeAt(s, k + 1)
    modifies prev, next
    ensures Linked(s[..k] + s[k + 1..])
    ensures forall i :: 0 <= i < |s| ==> s[i].data == old(s[i].data)
  {
    if prev != null {
      prev.next := next;
    }
    if next != null {
      next.prev := prev;
    }
    Bypassed(s, k, s[..k] + s[k + 1..]);
  }

  lemma DataWithout<T>(s: seq<Node<T>>, k: nat)
    requires k < |s|
    ensures DataOf(s[..k] + s[k + 1..]) == DataOf(s)[..k] + DataOf(s)[k + 1..]
  {
    var t := s[..k] + s[k + 1..];
    forall i | 0 <= i < |t|
      ensures DataOf(t)[i] == (DataOf(s)[..k] + DataOf(s)[k + 1..])[i]
    {
      assert t[i] == s[if i < k then i else i + 1];
    }
  }

  // A walk along `next` from n meets exactly the nodes s and then ends.
  ghost predicate Ahead<T>(n: Node?<T>, s: seq<Node<T>>)
    reads s
  {
    if s == [] then n == null else n == s[0] && Ahead(s[0].next, s[1..])
  }

  // A walk along `prev` from n meets exactly the nodes s, last one first, and then ends.
  ghost predicate Behind<T>(n: Node?<T>, s: seq<Node<T>>)
    reads s
  {
    if s == [] then n == null else n == s[|s| - 1] && Behind(s[|s| - 1].prev, s[..|s| - 1])
  }

  lemma {:induction false} AheadFrom<T>(s: seq<Node<T>>, k: nat)
    requires Linked(s) && k <= |s|
    ensures Ahead(if k < |s| then s[k] else null, s[k..])
    decreases |s| - k
  {
    if k < |s| {
      AheadFrom(s, k + 1);
      assert s[k..][1..] == s[k + 1..];
    }
  }

  lemma {:induction false} BehindFrom<T>(s: seq<Node<T>>, k: nat)
    requires Linked(s) && k <= |s|
    ensures Behind(if k > 0 then s[k - 1] else null, s[..k])
  {
    if k > 0 {
      BehindFrom(s, k - 1);
      assert s[..k][..k - 1] == s[..k - 1];
    }
  }

  lemma {:induction false} AheadUnique<T>(n: Node?<T>, s: seq<Node<T>>, t: seq<Node<T>>)
    requires Ahead(n, s) && Ahead(n, t)
    ensures s == t
  {
    if s != [] {
      AheadUnique(s[0].next, s[1..], t[1..]);
      assert s == [s[0]] + s[1..] && t == [t[0]] + t[1..];
    }
  }

  lemma {:induction false} BehindUnique<T>(n: Node?<T>, s: seq<Node<T>>, t: seq<Node<T>>)
    requires Behind(n, s) && Behind(n, t)
    ensures s == t
  {
    if s != [] {
      var k, m := |s| - 1, |t| - 1;
      BehindUnique(s[k].prev, s[..k], t[..m]);
      assert s == s[..k] + [s[k]] && t == t[..m] + [t[m]];
    }
  }

  /**
   * The forward chain from the head and the backward chain from the tail are the same
   * sequence: whatever the two walks meet, it is the spine.
   */
  lemma WalksAgree<T>(s: seq<Node<T>>, head: Node?<T>, tail: Node?<T>, forward: seq<Node<T>>, backward: seq<Node<T>>)
    requires Linked(s) && Ends(s, head, tail)
    ensures Ahead(head, forward) <==> forward == s
    ensures Behind(tail, backward) <==> backward == s
  {
    AheadFrom(s, 0);
    BehindFrom(s, |s|);
    assert s[0..] == s && s[..|s|] == s;
    if Ahead(head, forward) {
      AheadUnique(head, forward, s);
    }
    if Behind(tail, backward) {
      BehindUnique(tail, backward, s);
    }
  }

  // ---------------------------------------------------------------- src/list.c

  class List {
    const dataSize: nat
    var size: int
    var head: Node?<Bytes>
    var tail: Node?<Bytes>
    ghost var spine: seq<Node<Bytes>>

    ghost predicate Valid()
      reads this, spine
    {
      Linked(spine) && Ends(spine, head, tail) && size == |spine|
      && forall i :: 0 <= i < |spine| ==> |spine[i].data| == dataSize
    }

    ghost function Contents(): (r: seq<Bytes>)
      reads this, spine
      ensures |r| == |spine|
    {
      DataOf(spine)
    }

    constructor (dataSize: nat)
      ensures Valid() && Contents() == [] && this.dataSize == dataSize
    {
      this.dataSize := dataSize;
      size := 0;
      head := null;
      tail := null;
      spine := [];
    }

    method PushFront(data: Bytes)
      requires Valid() && dataSize <= |data|
      modifies this, head
      ensures Valid() && |spine| > 0 && fresh(spine[0]) && spine[1..] == old(spine)
      ensures Contents() == [data[..dataSize]] + old(Contents())
    {
      var node := new Node(data[..dataSize]);
      node.next := head;
      if head != null {
        head.prev := node;
      }
      head := node;
      if tail == null {
        tail := head;
      }
      size := size + 1;
      spine := [node] + spine;
      assert DataOf(old(spine)) == old(Contents());
      Prepended(old(spine), node, spine);
      assert node.data == data[..dataSize] && Contents() == DataOf(spine);
    }

    method PushBack(data: Bytes)
      requires Valid() && dataSize <= |data|
      modifies this, tail
      ensures Valid() && |spine| > 0 && fresh(spine[|spine| - 1]) && spine[..|spine| - 1] == old(spine)
      ensures Contents() == old(Contents()) + [data[..dataSize]]
    {
      var node := new Node(data[..dataSize]);
      node.prev := tail;
      if tail != null {
        tail.next := node;
      }
      tail := node;
      if head == null {
        head := tail;
      }
      size := size + 1;
      spine := spine + [node];
      assert DataOf(old(spine)) == old(Contents());
      Appended(old(spine), node, spine);
      assert node.data == data[..dataSize] && Contents() == DataOf(spine);
    }

    method DeleteHead()
      requires Valid()
      modifies this, spine
      ensures Valid()
      ensures spine == if old(spine) == [] then [] else old(spine)[1..]
      ensures Contents() == if old(spine) == [] then [] else old(Contents())[1..]
    {
      if head != null {
        var node := head;
        assert node.next == if |spine| > 1 then spine[1] else null;
        head := node.next;
        if node.next != null {
          node.next.prev := null;
        }
        if tail == node {
          tail := null;
        }
        size := size - 1;
        spine := spine[1..];
      }
    }

    method DeleteTail()
      requires Valid()
      modifies this, spine
      ensures Valid()
      ensures spine == if old(spine) == [] then [] else old(spine)[..|old(spine)| - 1]
      ensures Contents() == if old(spine) == [] then [] else old(Contents())[..|old(spine)| - 1]
    {
      if tail != null {
        var node := tail;
        assert node.prev == if |spine| > 1 then spine[|spine| - 2] else null;
        tail := node.prev;
        if node.prev != null {
          node.prev.next := null;
        }
        if head == node {
          head := null;
        }
        size := size - 1;
        spine := spine[..|spine| - 1];
      }
    }

    method DeleteNode(node: Node<Bytes>, ghost k: nat)
      requires Valid() && k < |spine| && spine[k] == node
      modifies this, spine
      ensures Valid()
      ensures spine == old(spine)[..k] + old(spine)[k + 1..]
      ensures Contents() == old(Contents())[..k] + old(Contents())[k + 1..]
    {
      ghost var s := spine;
      var prev := node.prev;
      var next := node.next;
      assert prev == NodeAt(s, k - 1) && next == NodeAt(s, k + 1);
      LinkPast(prev, next, s, k);
      assert DataOf(s) == old(Contents());
      DataWithout(s, k);
      Forget(node, prev, next, k);
    }

    // The rest of list_delete_node: both ends and the size.
    method Forget(node: Node<Bytes>, prev: Node?<Bytes>, next: Node?<Bytes>, ghost k: nat)
      requires k < |spine| && spine[k] == node && Ends(spine, head, tail) && size == |spine|
      requires Linked(spine[..k] + spine[k + 1..]) && forall i, j :: 0 <= i < j < |spine| ==> spine[i] != spine[j]
      requires prev == NodeAt(spine, k - 1) && next == NodeAt(spine, k + 1)
      requires forall i :: 0 <= i < |spine| ==> |spine[i].data| == dataSize
      modifies this`head, this`tail, this`size, this`spine
      ensures Valid() && spine == old(spine)[..k] + old(spine)[k + 1..]
    {
      EndsWithout(spine, k, head, tail);
      if head == node {
        head := next;
      }
      if tail == node {
        tail := prev;
      }
      size := size - 1;
      ghost var s := spine;
      spine := s[..k] + s[k + 1..];
      assert forall i :: 0 <= i < |spine| ==> spine[i] == s[if i < k then i else i + 1];
    }

    // list_for_each: the nodes the iterator is called on, up to the first refusal.
    method ForEach(goOn: Bytes -> bool) returns (visited: seq<Bytes>)
      requires Valid()
      ensures visited <= Contents()
      ensures forall i :: 0 <= i < |visited| - 1 ==> goOn(visited[i])
      ensures visited == Contents() || (|visited| > 0 && !goOn(visited[|visited| - 1]))
    {
      var node, result := head, true;
      visited := [];
      while node != null && result
        invariant |visited| <= |spine|
        invariant visited == Contents()[..|visited|]
        invariant node == if |visited| < |spine| then spine[|visited|] else null
        invariant forall i :: 0 <= i < |visited| - 1 ==> goOn(visited[i])
        invariant result <==> (|visited| > 0 ==> goOn(visited[|visited| - 1]))
        decreases |spine| - |visited|
      {
        result := goOn(node.data);
        visited := visited + [node.data];
        node := node.next;
      }
    }

    // src/queue.c
    method Enqueue(data: Bytes)
      requires Valid() && dataSize <= |data|
      modifies this, tail
      ensures Valid() && fresh(set n | n in spine && n !in old(spine))
      ensures Contents() == old(Contents()) + [data[..dataSize]]
    {
      PushBack(data);
      assert forall n :: n in spine ==> n in spine[..|spine| - 1] || n == spine[|spine| - 1];
    }

    method Dequeue() returns (data: Option<Bytes>)
      requires Valid()
      modifies this, spine
      ensures Valid() && spine == if old(spine) == [] then [] else old(spine)[1..]
      ensures data == if old(spine) == [] then None else Some(old(Contents())[0])
      ensures Contents() == if old(spine) == [] then [] else old(Contents())[1..]
    {
      if size == 0 {
        return None;
      }
      data := Some(head.data);
      DeleteHead();
    }
  }

  // ---------------------------------------------------------------- src/net_queue.c

  // nLength is the number of bytes; param stands for the pointer kept beside them.
  datatype Frame = Frame(bytes: Bytes, param: int)

  ghost predicate Proper(f: Frame) {
    0 < |f.bytes| <= FRAME_BUFFER_SIZE
  }

  /** What enqueue_nqueue makes of a call: nothing unless there is memory, a buffer and a length in range. */
  function Accepted(granted: bool, buffer: Option<Bytes>, length: nat, param: int): (r: seq<Frame>)
    requires buffer.Some? ==> length <= |buffer.value|
    ensures r == [] || (buffer.Some? && r == [Frame(buffer.value[..length], param)])
    ensures forall f :: f in r ==> Proper(f)
  {
    if !granted || length == 0 || length > FRAME_BUFFER_SIZE || buffer.None? then []
    else [Frame(buffer.value[..length], param)]
  }

  // One call on the queue.
  datatype Call =
    | Put(granted: bool, buffer: Option<Bytes>, length: nat, param: int)
    | Take
    | FlushAll

  // How a frame left the queue.
  datatype Departure = Taken(frame: Frame) | Dropped(frame: Frame)

  // What a run of calls has done: the frames accepted, those that left, those still waiting.
  datatype History = History(accepted: seq<Frame>, left: seq<Departure>, waiting: seq<Frame>)

  ghost predicate Callable(c: Call) {
    c.Put? && c.buffer.Some? ==> c.length <= |c.buffer.value|
  }

  function AllDropped(fs: seq<Frame>): (r: seq<Departure>)
    ensures |r| == |fs|
  {
    seq(|fs|, i requires 0 <= i < |fs| => Dropped(fs[i]))
  }

  function FramesOf(ds: seq<Departure>): (r: seq<Frame>)
    ensures |r| == |ds|
  {
    seq(|ds|, i requires 0 <= i < |ds| => ds[i].frame)
  }

  function After(h: History, c: Call): (r: History)
    requires Callable(c)
  {
    match c
    case Put(granted, buffer, length, param) =>
      var f := Accepted(granted, buffer, length, param);
      h.(accepted := h.accepted + f, waiting := h.waiting + f)
    case Take =>
      if h.waiting == [] then h
      else h.(left := h.left + [Taken(h.waiting[0])], waiting := h.waiting[1..])
    case FlushAll =>
      h.(left := h.left + AllDropped(h.waiting), waiting := [])
  }

  function Run(h: History, cs: seq<Call>): (r: History)
    requires forall c :: c in cs ==> Callable(c)
    decreases |cs|
  {
    if cs == [] then h else Run(After(h, cs[0]), cs[1..])
  }

  ghost predicate InOrder(h: History) { FramesOf(h.left) + h.waiting == h.accepted }

  lemma FramesOfSum(a: seq<Departure>, b: seq<Departure>)
    ensures FramesOf(a + b) == FramesOf(a) + FramesOf(b)
  {
  }

  lemma CallKeepsOrder(h: History, c: Call)
    requires Callable(c) && InOrder(h)
    ensures InOrder(After(h, c))
  {
    match c
    case Put(granted, buffer, length, param) =>
      var f := Accepted(granted, buffer, length, param);
      assert FramesOf(h.left) + (h.waiting + f) == (FramesOf(h.left) + h.waiting) + f;
    case Take =>
      if h.waiting != [] {
        FramesOfSum(h.left, [Taken(h.waiting[0])]);
        assert h.waiting == [h.waiting[0]] + h.waiting[1..];
        assert FramesOf(h.left) + h.waiting == FramesOf(h.left) + [h.waiting[0]] + h.waiting[1..];
      }
    case FlushAll =>
      FramesOfSum(h.left, AllDropped(h.waiting));
      assert FramesOf(AllDropped(h.waiting)) == h.waiting;
  }

  /** Over every run of calls the frames that left, taken or flushed, and then those still
      waiting are the accepted ones, in order: none is lost, doubled or overtaken. */
  lemma {:induction false} FramesComeOutInOrder(h: History, cs: seq<Call>)
    requires forall c :: c in cs ==> Callable(c)
    requires InOrder(h)
    ensures InOrder(Run(h, cs))
    decreases |cs|
  {
    if cs != [] {
      CallKeepsOrder(h, cs[0]);
      FramesComeOutInOrder(After(h, cs[0]), cs[1..]);
    }
  }

  /** A frame is taken exactly when there is memory and a buffer and its length is 1 to 1600,
      and is then the first bytes of the buffer with the parameter. */
  lemma AcceptedExact(granted: bool, buffer: Option<Bytes>, length: nat, param: int)
    requires buffer.Some? ==> length <= |buffer.value|
    ensures var r := Accepted(granted, buffer, length, param);
            && (r != [] <==> granted && buffer.Some? && 1 <= length <= 1600)
            && (r != [] ==> |r| == 1 && r[0].bytes == buffer.value[..length] && r[0].param == param)
  {
  }

  class NetQueue {
    var head: Node?<Frame>
    var tail: Node?<Frame>
    ghost var spine: seq<Node<Frame>>
    // Every call so far.
    ghost var history: History

    ghost predicate Linkage()
      reads this, spine
    {
      Linked(spine) && Ends(spine, head, tail)
      && forall i :: 0 <= i < |spine| ==> Proper(spine[i].data)
    }

    ghost predicate Valid()
      reads this, spine
    {
      Linkage() && history.waiting == Contents() && InOrder(history)
    }

    ghost function Contents(): (r: seq<Frame>)
      reads this, spine
      ensures |r| == |spine|
    {
      DataOf(spine)
    }

    constructor ()
      ensures Valid() && Contents() == [] && history == History([], [], [])
    {
      head := null;
      tail := null;
      spine := [];
      history := History([], [], []);
    }

    method Enqueue(granted: bool, buffer: Option<Bytes>, length: nat, param: int)
      requires Valid() && (buffer.Some? ==> length <= |buffer.value|)
      modifies this, tail
      ensures Valid() && fresh(set n | n in spine && n !in old(spine))
      ensures Contents() == old(Contents()) + Accepted(granted, buffer, length, param)
      ensures history == After(old(history), Put(granted, buffer, length, param))
    {
      CallKeepsOrder(history, Put(granted, buffer, length, param));
      history := After(history, Put(granted, buffer, length, param));
      if !granted || length == 0 || length > FRAME_BUFFER_SIZE {
        return;
      }
      if buffer.None? {
        return;
      }
      LinkLast(Frame(buffer.value[..length], param));
    }

    // The part of enqueue_nqueue under its lock, with the entry it links in.
    method LinkLast(frame: Frame)
      requires Linkage() && Proper(frame)
      modifies this`head, this`tail, this`spine, tail
      ensures Linkage() && fresh(set n | n in spine && n !in old(spine))
      ensures DataOf(spine) == old(DataOf(spine)) + [frame]
    {
      var entry := new Node(frame);
      if tail == null {
        tail := entry;
        head := tail;
      } else {
        entry.prev := tail;
        tail.next := entry;
        tail := entry;
      }
      spine := spine + [entry];
      assert DataOf(old(spine)) == old(DataOf(spine));
      Appended(old(spine), entry, spine);
    }

    // 0 when the queue is empty; the first length bytes of the buffer are the frame's.
    method Dequeue(buffer: array<byte>, wantParam: bool) returns (length: nat, param: Option<int>)
      requires Valid() && (spine != [] ==> |spine[0].data.bytes| <= buffer.Length)
      modifies this, spine, buffer
      ensures Valid() && spine == if old(spine) == [] then [] else old(spine)[1..]
      ensures Contents() == if old(spine) == [] then [] else old(Contents())[1..]
      ensures length == 0 <==> old(spine) == []
      ensures length == 0 ==> param == None && buffer[..] == old(buffer[..])
      ensures length > 0 ==> length <= buffer.Length && buffer[..length] == old(Contents())[0].bytes
      ensures length > 0 ==> buffer[length..] == old(buffer[length..])
      ensures length > 0 ==> param == if wantParam then Some(old(Contents())[0].param) else None
      ensures history == After(old(history), Take)
    {
      CallKeepsOrder(history, Take);
      history := After(history, Take);
      length, param := 0, None;
      if head == null {
        return;
      }
      var entry := head;
      var frame := entry.data;
      length := |frame.bytes|;
      forall i | 0 <= i < length {
        buffer[i] := frame.bytes[i];
      }
      if wantParam {
        param := Some(frame.param);
      }
      Unlink();
      assert DataOf(spine) == old(Contents())[1..];
    }

    // The part of dequeue_nqueue under its lock.
    method Unlink()
      requires Linkage() && head != null
      modifies this`head, this`tail, this`spine, spine
      ensures Linkage() && old(spine) != [] && spine == old(spine)[1..]
      ensures DataOf(spine) == old(DataOf(spine))[1..]
    {
      var entry := head;
      assert entry.next == if |spine| > 1 then spine[1] else null;
      if entry.next != null {
        entry := entry.next;
        entry.prev := null;
        head := entry;
      } else {
        head := null;
        tail := null;
      }
      spine := spine[1..];
    }

    method Flush()
      requires Valid()
      modifies this, spine
      ensures Valid() && Contents() == [] && history == After(old(history), FlushAll)
    {
      CallKeepsOrder(history, FlushAll);
      history := After(history, FlushAll);
      ghost var done := history;
      while head != null
        invariant Linkage() && history == done
        invariant |spine| <= |old(spine)| && spine == old(spine)[|old(spine)| - |spine|..]
        decreases |spine|
      {
        DropHead();
      }
    }

    // The body of flush_nqueue's loop.
    method DropHead()
      requires Linkage() && head != null
      modifies this`head, this`tail, this`spine, spine
      ensures Linkage() && old(spine) != [] && spine == old(spine)[1..]
    {
      var entry := head;
      assert entry.next == if |spine| > 1 then spine[1] else null;
      head := entry.next;
      if head != null {
        head.prev := null;
      } else {
        tail := null;
      }
      spine := spine[1..];
    }
  }

  // ---------------------------------------------------------------- src/etherif.c

  class Block {
    const id: nat
    var next: Block?

    constructor (id: nat)
      ensures this.id == id && next == null
    {
      this.id := id;
      next := null;
    }
  }

  class BlockQueue {
    var first: Block?
    var last: Block?
    var count: int
    ghost var spine: seq<Block>

    ghost predicate Valid()
      reads this, spine
    {
      && (forall i, j :: 0 <= i < j < |spine| ==> spine[i] != spine[j])
      && (forall i :: 0 <= i < |spine| - 1 ==> spine[i].next == spine[i + 1])
      && count == |spine|
      && if spine == [] then first == null && last == null
         else first == spine[0] && last == spine[|spine| - 1] && last.next == null
    }

    constructor ()
      ensures Valid() && spine == []
    {
      first := null;
      last := null;
      count := 0;
      spine := [];
    }

    // qget; the two consistency tests in the source are unreachable.
    method Get() returns (b: Block?)
      requires Valid()
      modifies this
      ensures Valid()
      ensures old(spine) == [] ==> b == null && spine == []
      ensures old(spine) != [] ==> b == old(spine)[0] && spine == old(spine)[1..]
    {
      b := null;
      if first != null {
        b := first;
        assert b.next == if |spine| > 1 then spine[1] else null;
        first := b.next;
        if first == null {
          if last != b {
            assert false;
          }
          last := null;
        }
        if count <= 0 {
          assert false;
        }
        count := count - 1;
        spine := spine[1..];
      }
    }

    // qpass; the block must not already be waiting here.
    method Pass(b: Block)
      requires Valid() && b !in spine
      modifies this, b, last
      ensures Valid() && spine == old(spine) + [b]
    {
      b.next := null;
      if first == null {
        first := b;
      } else {
        last.next := b;
      }
      last := b;
      count := count + 1;
      spine := spine + [b];
    }
  }
}
