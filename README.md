# Traffic light mailbox and phase cycle

A model of the core of a traffic-light simulation (`src/TrafficLight.cpp`):

- `MessageQueues` (`message_queue.dfy`): `MessageQueue<T>`, the light's
  mailbox. Its store is a sequence used only at its back: `send` pushes onto
  the back and `receive` pops from the back, so delivery is last-in-first-out although the type is
  called a queue. The model is a class holding a `seq<T>`. The blocking wait
  of `receive` (wait until the store is non-empty) becomes the precondition
  `|queue| > 0`, which is exactly the condition the wait guards.
- `TrafficLights` (`traffic_light.dfy`): `Phase` (red or green) and the
  `TrafficLight` class holding the current phase and its mailbox. A new
  light is red; one flip of the cycling loop turns red into green and
  anything else into red and then sends the new phase into the mailbox;
  `WaitForGreen` receives until a green message arrives.

The header `TrafficLight.h` is not part of this model; `Phase` is declared
here with the two variants the code uses, and the mailbox's store starts
empty because the header's store member is default-constructed.

## Model

| member | source | states |
|---|---|---|
| MessageQueues.MessageQueue.constructor | src/TrafficLight.cpp:8-30 | a new mailbox holds no messages (the class has no user-written constructor; its store member is default-constructed) |
| MessageQueues.MessageQueue.Send | src/TrafficLight.cpp:22-30 | the store becomes the old store with the message appended at the back; length grows by one and no earlier element changes |
| MessageQueues.MessageQueue.Receive | src/TrafficLight.cpp:8-20 | needs a non-empty store; returns the last element sent and leaves the old store minus its last element; the old store is the new one plus the returned message, so nothing is lost or duplicated |
| MessageQueues.SendThenReceive | src/TrafficLight.cpp:17-18 | a send followed at once by a receive returns the message just sent and restores the store to its prior contents |
| MessageQueues.ReceiveN | src/TrafficLight.cpp:8-20 | calling `Receive` n times on a store of at least n messages returns exactly what `Drained` describes and leaves exactly what `Remaining` describes |
| MessageQueues.SendAll | src/TrafficLight.cpp:22-30 | sending messages one after another appends them at the back in the order sent |
| MessageQueues.SendAllThenReceiveAll | src/TrafficLight.cpp:17-28 | messages sent in order come back from as many calls to `Receive` in reverse order, and the store is left as it was before the sends |
| MessageQueues.Drained | src/TrafficLight.cpp:17-18 | n successive receives deliver exactly n messages, the i-th being the i-th from the back of the store |
| MessageQueues.Remaining | src/TrafficLight.cpp:17-18 | n successive receives leave the store without its last n messages |
| MessageQueues.LifoDelivery | src/TrafficLight.cpp:17-28 | on a store with messages pushed on top of it, delivering as many messages yields them in reverse order and leaves the store underneath as it was |
| TrafficLights.Flipped | src/TrafficLight.cpp:103-109 | the new phase always differs from the old one; red goes to green and green to red |
| TrafficLights.PhaseAfter | src/TrafficLight.cpp:103-109 | the phase after n flips differs from the phase after n - 1 flips |
| TrafficLights.Announced | src/TrafficLight.cpp:103-113 | n flips announce n phases, the i-th being the phase after i + 1 flips |
| TrafficLights.FlipN | src/TrafficLight.cpp:101-113 | n flips leave the light in the phase after n flips and append exactly the announced phases, in order, to the mailbox |
| TrafficLights.PhaseAfterParity | src/TrafficLight.cpp:103-109 | after an even number of flips the light is in its starting phase, after an odd number in the other one, so phases strictly alternate and two flips restore the original |
| TrafficLights.LastGreen | src/TrafficLight.cpp:48-53 | when the store holds a green message, the point where a back-to-front receiver first meets green is a green message with only red ones behind it |
| TrafficLights.TrafficLight.constructor | src/TrafficLight.cpp:35-38 | a new light shows red and its mailbox is empty |
| TrafficLights.TrafficLight.GetCurrentPhase | src/TrafficLight.cpp:57-60 | returns the phase the light currently shows |
| TrafficLights.TrafficLight.SetCurrentPhase | src/TrafficLight.cpp:62-65 | afterwards the current phase is the given one, and the mailbox is unchanged |
| TrafficLights.TrafficLight.Flip | src/TrafficLight.cpp:101-113 | the phase becomes the flipped phase, which differs from the old one; the mailbox grows by exactly one and its last element is the new phase |
| TrafficLights.TrafficLight.WaitForGreen | src/TrafficLight.cpp:43-54 | needs a green message in the mailbox; removes exactly the suffix from the back up to and including the last green, every message consumed before it was red, and the phase is unchanged |
| TrafficLights.FlipTwice | src/TrafficLight.cpp:103-113 | two flips restore the phase and announce the other phase, then the original one |

## Left out

- Mutual exclusion and the condition variable in `send` and `receive`, and the concurrent callers they serve: the model is sequential, and a `receive` that would block on an empty store is excluded by its precondition.
- `simulate` and the collection of worker threads: thread creation cannot be modelled.
- The wall-clock loop of `cycleThroughPhases` (the 1 ms sleep, the elapsed-time test and the never-ending `while (true)`): one flip is modelled as one step, `Flip`.
- The dwell-time draws (a Mersenne Twister with a floating-point uniform distribution, then C `rand()`): they only decide when a flip happens, never which phase follows.
- Move semantics of `send` and `receive`: copying a `Phase` value is equivalent.
- TrafficLights.TrafficLight.WaitForGreen: requires a green message to be in the mailbox already; the C++ implementation blocks until a later send supplies one, which a sequential model without a producer cannot express.
