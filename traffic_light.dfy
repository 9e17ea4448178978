/**
 * A single traffic light: a two-phase state machine that flips between red
 * and green and announces every new phase through its mailbox, and a
 * consumer operation that waits for a green announcement. Threads, clocks,
 * sleeping and the random dwell time are not modelled: one flip is one step.
 */
module TrafficLights {
  import opened MessageQueues

  datatype Phase = Red | Green

  /** The phase a flip moves to: red becomes green, anything else becomes red. */
  function Flipped(p: Phase): (q: Phase)
    ensures q != p
    ensures p == Red <==> q == Green
  {
    if p == Red then Green else Red
  }

  /**
   * The phase of a light that started in `p` and has flipped `n` times;
   * no two consecutive ones are equal.
   */
  function PhaseAfter(p: Phase, n: nat): (r: Phase)
    ensures n > 0 ==> r != PhaseAfter(p, n - 1)
  {
    if n == 0 then p else Flipped(PhaseAfter(p, n - 1))
  }

  /**
   * Phases alternate: after an even number of flips the light is back in
   * its starting phase, after an odd number it is in the other one; in
   * particular two flips restore the original phase.
   */
  lemma {:induction false} PhaseAfterParity(p: Phase, n: nat)
    ensures PhaseAfter(p, n) == (if n % 2 == 0 then p else Flipped(p))
  {
    if n > 0 {
      PhaseAfterParity(p, n - 1);
    }
  }

  /**
   * Where a consumer waiting for green stops: the index of the last green
   * message in the store, which is the first green that a back-to-front
   * receiver meets. Every message behind it is red.
   */
  function LastGreen(s: seq<Phase>): (i: nat)
    requires Green in s
    ensures i < |s| && s[i] == Green
    ensures forall j :: i < j < |s| ==> s[j] == Red
  {
    if s[|s| - 1] == Green then |s| - 1
    else
      assert s == s[..|s| - 1] + [s[|s| - 1]];
      LastGreen(s[..|s| - 1])
  }

  class TrafficLight {
    /** The phase the light currently shows. */
    var currentPhase: Phase
    /** The mailbox through which every new phase is announced. */
    const messages: MessageQueue<Phase>

    /** A new light shows red and has announced nothing yet. */
    constructor ()
      ensures currentPhase == Red
      ensures fresh(messages) && messages.queue == []
    {
      currentPhase := Red;
      messages := new MessageQueue<Phase>();
    }

    method GetCurrentPhase() returns (p: Phase)
      ensures p == currentPhase
    {
      p := currentPhase;
    }

    /** Sets the phase; the mailbox is left as it was. */
    method SetCurrentPhase(p: Phase)
      modifies this`currentPhase
      ensures currentPhase == p
      ensures messages.queue == old(messages.queue)
    {
      currentPhase := p;
    }

    /**
     * One transition of the cycling loop once its dwell time has elapsed:
     * flip the phase and send the new phase into the mailbox.
     */
    method Flip()
      modifies this`currentPhase, messages
      ensures currentPhase == Flipped(old(currentPhase))
      ensures currentPhase != old(currentPhase)
      ensures messages.queue == old(messages.queue) + [currentPhase]
      ensures |messages.queue| == |old(messages.queue)| + 1
      ensures messages.queue[|messages.queue| - 1] == currentPhase
    {
      var phase := GetCurrentPhase();
      if phase == Red {
        currentPhase := Green;
      } else {
        currentPhase := Red;
      }
      messages.Send(currentPhase);
    }

    /**
     * Receives messages until one is green. Since the mailbox delivers from
     * the back, this consumes exactly the suffix from the last green
     * message to the back, and everything it consumed before the green was
     * red. The light's own phase is unchanged.
     */
    method WaitForGreen()
      requires Green in messages.queue
      modifies messages
      ensures messages.queue == old(messages.queue)[..LastGreen(old(messages.queue))]
      ensures forall j :: LastGreen(old(messages.queue)) < j < |old(messages.queue)| ==>
                old(messages.queue)[j] == Red
      ensures currentPhase == old(currentPhase)
    {
      ghost var s := messages.queue;
      ghost var k := LastGreen(s);
      while true
        invariant k < |messages.queue| <= |s|
        invariant messages.queue == s[..|messages.queue|]
        invariant currentPhase == old(currentPhase)
        decreases |messages.queue|
      {
        var msg := messages.Receive();
        if msg == Green {
          return;
        }
      }
    }
  }

  /** The phases announced by `n` flips of a light that started in `p`, in the order they were sent. */
  function Announced(p: Phase, n: nat): (a: seq<Phase>)
    ensures |a| == n
    ensures forall i :: 0 <= i < n ==> a[i] == PhaseAfter(p, i + 1)
  {
    if n == 0 then [] else Announced(p, n - 1) + [PhaseAfter(p, n)]
  }

  /**
   * `n` turns of the cycling loop: the light ends in the phase `n` flips
   * lead to, and the mailbox has received every intermediate phase in turn.
   */
  method FlipN(light: TrafficLight, n: nat)
    modifies light`currentPhase, light.messages
    ensures light.currentPhase == PhaseAfter(old(light.currentPhase), n)
    ensures light.messages.queue == old(light.messages.queue) + Announced(old(light.currentPhase), n)
  {
    ghost var p0 := light.currentPhase;
    ghost var q0 := light.messages.queue;
    var k := 0;
    while k < n
      invariant 0 <= k <= n
      invariant light.currentPhase == PhaseAfter(p0, k)
      invariant light.messages.queue == q0 + Announced(p0, k)
    {
      light.Flip();
      k := k + 1;
    }
  }

  /** Two flips bring the light back to its phase and announce the other phase, then this one. */
  method FlipTwice(light: TrafficLight)
    modifies light`currentPhase, light.messages
    ensures light.currentPhase == old(light.currentPhase)
    ensures light.messages.queue ==
              old(light.messages.queue) + [Flipped(old(light.currentPhase)), old(light.currentPhase)]
  {
    light.Flip();
    light.Flip();
  }
}
