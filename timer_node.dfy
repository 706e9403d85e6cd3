/** The records the timer engine stores. */
module TimerNode {

  /** A timer node as the heap holds it (`TimerNode<T>`): its id, its
      absolute expiration time (`expire_ms`), the requested interval
      (`timing_time_ms`) and whether it repeats (`is_loop`). The node's
      `idx` field is kept apart, in the engine's slot table. */
  datatype Node = Node(id: int, expire: nat, interval: nat, isLoop: bool)

  /** What a live timer looks like from outside, once its id is the key. */
  datatype Timer = Timer(expire: nat, interval: nat, isLoop: bool)

  /** The timer a node stands for. */
  function AsTimer(n: Node): Timer
  {
    Timer(n.expire, n.interval, n.isLoop)
  }
}
