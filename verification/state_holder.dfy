/** The current bus state together with a bounded history of the states it
    was set to. */
module StateHolders {
  import opened Types
  import opened Deques

  class StateHolder {
    const capacity: nat
    var history: seq<State>
    var state: State

    /** The history fits its capacity. */
    ghost predicate Bounded()
      reads this
    {
      0 < capacity && |history| <= capacity
    }

    /** Bounded, and the current state is the last one recorded (Idle before
        any state is set). */
    ghost predicate Valid()
      reads this
    {
      && Bounded()
      && state == (if history == [] then Idle else history[|history| - 1])
    }

    constructor (capacity: nat)
      requires 0 < capacity
      ensures Valid() && this.capacity == capacity
      ensures state == Idle && history == []
    {
      this.capacity := capacity;
      history := [];
      state := Idle;
    }

    /** Records `s` in the history, then makes it the current state. */
    method SetState(s: State)
      requires Valid()
      modifies this
      ensures Valid()
      ensures GetState() == s
      ensures history == PushBounded(old(history), s, capacity)
    {
      AddStateInHistory(s);
      state := s;
    }

    /** The state last set, or Idle if none was. */
    function GetState(): (s: State)
      reads this
      requires Valid()
      ensures s == (if history == [] then Idle else history[|history| - 1])
    {
      state
    }

    method AddStateInHistory(s: State)
      requires Bounded()
      modifies this`history
      ensures Bounded()
      ensures history == LastN(old(history) + [s], capacity)
      ensures |old(history)| == capacity ==> history == old(history)[1..] + [s]
      ensures |old(history)| < capacity ==> history == old(history) + [s]
    {
      if |history| == capacity {
        history := history[1..];
      }
      history := history + [s];
    }
  }
}
