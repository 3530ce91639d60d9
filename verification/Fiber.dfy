/** The state machine of Fiber (fiber.cpp). Stacks and context switching are not part of this model;
    every SYLAR_ASSERT on the state is a precondition that callers must prove. */
module Fibers {
  import opened Prelude

  datatype State = INIT | EXEC | READY | HOLD | EXCEPT | TERM

  class Fiber {
    var state: State
    var cb: Option<Callback>

    constructor (cb: Option<Callback>)
      ensures state == INIT && this.cb == cb
    {
      state, this.cb := INIT, cb;
    }

    predicate Ended()
      reads this
    {
      state == TERM || state == EXCEPT
    }

    /** reset: reuse of an ended or unused fiber for another function. */
    method Reset(cb: Option<Callback>)
      requires Ended() || state == INIT
      modifies this
      ensures state == INIT && this.cb == cb
    {
      this.cb := cb;
      state := INIT;
    }

    /** swapIn: SYLAR_ASSERT(m_state != EXEC). */
    method SwapIn()
      requires state != EXEC
      modifies this`state
      ensures state == EXEC
    {
      state := EXEC;
    }

    /** How a segment of a fiber gives the worker back: YieldToReady, YieldToHold, a bare swapOut, or
        the end of MainFunc, normal or by an exception. */
    method SwapOut(how: Leave)
      requires state == EXEC
      modifies this
      ensures state == how.State()
      ensures cb == if how == Finish then None else old(cb)
    {
      match how
      case YieldReady => state := READY;
      case YieldHold => state := HOLD;
      case Bare =>
      case Finish =>
        cb := None;
        state := TERM;
      case Throw => state := EXCEPT;
    }
  }

  datatype Leave = YieldReady | YieldHold | Bare | Finish | Throw {
    function State(): State {
      match this
      case YieldReady => READY
      case YieldHold => HOLD
      case Bare => EXEC
      case Finish => TERM
      case Throw => EXCEPT
    }

    /** The ways that end the fiber, and those that must not leave a wake-up of it behind. */
    predicate Final() {
      Finish? || Throw?
    }

    predicate Silent() {
      YieldReady? || Finish? || Throw?
    }
  }
}
