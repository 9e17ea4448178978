/**
 * The mailbox of a traffic light: a generic message queue whose store is a
 * sequence used only at its back. Sending pushes onto the back and receiving
 * pops from the back as well, so delivery is last-in-first-out even though
 * the type is called a queue. The mutex and condition variable that make the
 * C++ implementation thread-safe are not modelled; the blocking wait of
 * `receive` becomes its precondition that the store is non-empty.
 */
module MessageQueues {

  class MessageQueue<T> {
    /** The messages accepted and not yet received; the back of the store is the end of the sequence. */
    var queue: seq<T>

    /** The store member is default-constructed, so a new mailbox is empty. */
    constructor ()
      ensures queue == []
    {
      queue := [];
    }

    /** Appends `msg` at the back of the store; never blocks. */
    method Send(msg: T)
      modifies this
      ensures queue == old(queue) + [msg]
      ensures |queue| == |old(queue)| + 1
      ensures forall i :: 0 <= i < |old(queue)| ==> queue[i] == old(queue)[i]
    {
      queue := queue + [msg];
    }

    /**
     * Takes the message at the back of the store (the one sent last). Nothing
     * is lost or duplicated: the old store is exactly the new store followed
     * by the returned message.
     */
    method Receive() returns (t: T)
      requires |queue| > 0
      modifies this
      ensures t == old(queue)[|old(queue)| - 1]
      ensures queue == old(queue)[..|old(queue)| - 1]
      ensures old(queue) == queue + [t]
      ensures multiset(old(queue)) == multiset(queue) + multiset{t}
    {
      t := queue[|queue| - 1];
      queue := queue[..|queue| - 1];
      assert queue + [t] == old(queue);
    }
  }

  /**
   * Sending `m` and receiving straight away hands back `m` and leaves the
   * store as it was before the send.
   */
  method SendThenReceive<T>(q: MessageQueue<T>, m: T) returns (t: T)
    modifies q
    ensures t == m
    ensures q.queue == old(q.queue)
  {
    q.Send(m);
    t := q.Receive();
  }

  /**
   * Calls `Receive` `n` times on a store holding at least `n` messages and
   * returns what came back, in the order it came back.
   */
  method ReceiveN<T>(q: MessageQueue<T>, n: nat) returns (r: seq<T>)
    requires n <= |q.queue|
    modifies q
    ensures r == Drained(old(q.queue), n)
    ensures q.queue == Remaining(old(q.queue), n)
  {
    ghost var s := q.queue;
    r := [];
    var k := 0;
    while k < n
      invariant 0 <= k <= n
      invariant r == Drained(s, k)
      invariant q.queue == Remaining(s, k)
    {
      var t := q.Receive();
      assert Drained(s, k + 1) == r + [t];
      r := r + [t];
      k := k + 1;
    }
  }

  /** Calls `Send` on each of `xs` in order. */
  method SendAll<T>(q: MessageQueue<T>, xs: seq<T>)
    modifies q
    ensures q.queue == old(q.queue) + xs
  {
    var k := 0;
    while k < |xs|
      invariant 0 <= k <= |xs|
      invariant q.queue == old(q.queue) + xs[..k]
    {
      q.Send(xs[k]);
      assert xs[..k + 1] == xs[..k] + [xs[k]];
      k := k + 1;
    }
    assert xs[..|xs|] == xs;
  }

  /**
   * Messages sent one after another come back from as many receives in
   * reverse order, and the store is left as it was before the sends.
   */
  method SendAllThenReceiveAll<T>(q: MessageQueue<T>, xs: seq<T>) returns (r: seq<T>)
    modifies q
    ensures |r| == |xs|
    ensures forall i :: 0 <= i < |xs| ==> r[i] == xs[|xs| - 1 - i]
    ensures q.queue == old(q.queue)
  {
    SendAll(q, xs);
    r := ReceiveN(q, |xs|);
    LifoDelivery(old(q.queue), xs);
  }

  /**
   * The messages that `n` successive receives deliver from store `s`, in the
   * order they are delivered: each receive takes the back element and leaves
   * the rest, exactly as `MessageQueue.Receive` does.
   */
  function Drained<T>(s: seq<T>, n: nat): (r: seq<T>)
    requires n <= |s|
    ensures |r| == n
    ensures forall i :: 0 <= i < n ==> r[i] == s[|s| - 1 - i]
  {
    if n == 0 then [] else [s[|s| - 1]] + Drained(s[..|s| - 1], n - 1)
  }

  /** The store that remains after `n` successive receives from store `s`. */
  function Remaining<T>(s: seq<T>, n: nat): (r: seq<T>)
    requires n <= |s|
    ensures r == s[..|s| - n]
  {
    if n == 0 then s else Remaining(s[..|s| - 1], n - 1)
  }

  /**
   * Delivery order: after messages `xs` have been sent in order on top of
   * any store `s`, the next |xs| receives return `xs` in reverse order (the
   * last one sent comes back first) and leave `s` behind.
   */
  lemma LifoDelivery<T>(s: seq<T>, xs: seq<T>)
    ensures forall i :: 0 <= i < |xs| ==> Drained(s + xs, |xs|)[i] == xs[|xs| - 1 - i]
    ensures Remaining(s + xs, |xs|) == s
  {
  }
}
