/** What the timer wheel and the queue it refines have in common. */
module TimerTypes {

  /** Timers are told apart by a number that each of them carries. */
  type TimerId = int

  /** What a caller, or a timeout callback, can do to the manager. */
  datatype Action =
    | SetExpiry(timer: TimerId, at: int)
    | AddTimer(timer: TimerId)
    | DelTimer(timer: TimerId)

  /** The actions of the callback of each firing of a run. */
  type Plan = nat -> seq<Action>

  /** One call of `on_timeout`, at the time the manager then stood at. */
  datatype Firing = Firing(timer: TimerId, at: int)
}
