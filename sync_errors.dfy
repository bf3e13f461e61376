/** The error latch of syncerrors.go. In Go, `SyncErrors` is a channel of
    errors created with capacity 1 (templatedir.go:31) and used as a
    first-error-wins register: every operation is a non-blocking `select`, so
    none of them ever waits. Used one call at a time, the channel is a slot that
    holds at most one error, plus the flag that `close` sets. */
module SyncErrs {
  import opened Wrappers

  /** The slot after a non-blocking send of `err` into it: nil sends nothing,
      and a full slot drops the new error. */
  function Latch(slot: Option<Error>, err: Option<Error>): (r: Option<Error>)
    ensures r.Some? <==> slot.Some? || err.Some?
    ensures slot.Some? ==> r == slot
    ensures slot.None? ==> r == err
  {
    if slot.None? && err.Some? then err else slot
  }

  /** The slot after sending each of `errs` in turn. */
  function LatchAll(slot: Option<Error>, errs: seq<Option<Error>>): Option<Error>
    decreases |errs|
  {
    if errs == [] then slot else LatchAll(Latch(slot, errs[0]), errs[1..])
  }

  /** The first non-nil error of `errs`, or nil when every one is nil. */
  function FirstError(errs: seq<Option<Error>>): Option<Error> {
    if errs == [] then None
    else if errs[0].Some? then errs[0]
    else FirstError(errs[1..])
  }

  /** After any sequence of sends into an empty latch, the latch holds the first
      non-nil error sent, or nothing if all of them were nil; a latch that was
      already full keeps what it held. */
  lemma {:induction false} FirstErrorWins(slot: Option<Error>, errs: seq<Option<Error>>)
    ensures LatchAll(slot, errs) == if slot.Some? then slot else FirstError(errs)
    decreases |errs|
  {
    if errs != [] {
      FirstErrorWins(Latch(slot, errs[0]), errs[1..]);
    }
  }

  /** A latch that holds an error keeps exactly that error whatever is sent. */
  lemma {:induction false} FullLatchIsStable(e: Error, errs: seq<Option<Error>>)
    ensures LatchAll(Some(e), errs) == Some(e)
  {
    if errs != [] {
      FullLatchIsStable(e, errs[1..]);
    }
  }

  class SyncErrors {
    /** The channel's one-element buffer. */
    var slot: Option<Error>
    /** Whether `close` has been called on the channel. */
    var closed: bool

    /** make(SyncErrors, 1): an open channel with an empty buffer. */
    constructor ()
      ensures slot == None && !closed
    {
      slot := None;
      closed := false;
    }

    /** Peeks at the latch by receiving the error, if any, and sending it back.
        On a closed channel the receive yields nil and the send panics, so the
        latch must be open. */
    method Failed() returns (failed: bool)
      requires !closed
      modifies this
      ensures failed <==> old(slot).Some?
      ensures slot == old(slot) && !closed
    {
      if slot.Some? {
        var err := slot.value;          // case err := <-errs
        slot := None;
        // case errs <- err: used one call at a time, the buffer has room
        // again, so the send-back always succeeds
        slot := Some(err);
        failed := true;
      } else {
        failed := false;                // default
      }
    }

    /** Receives the stored error, if any, and closes the channel. Closing an
        already closed channel panics, so the latch must be open. */
    method Close() returns (err: Option<Error>)
      requires !closed
      modifies this
      ensures err == old(slot)
      ensures slot == None && closed
    {
      err := slot;                      // case err = <-errs, or default
      slot := None;
      closed := true;
    }

    /** Offers `err` to the latch without waiting and reports whether it was
        non-nil. A nil error touches nothing, so it is allowed on a closed
        latch; sending a non-nil one on a closed channel panics. */
    method SetFailedOnErr(err: Option<Error>) returns (stop: bool)
      requires !closed || err.None?
      modifies this
      ensures stop <==> err.Some?
      ensures old(slot).None? ==> slot == err
      ensures old(slot).Some? ==> slot == old(slot)
      ensures slot == Latch(old(slot), err)
      ensures closed == old(closed)
    {
      if err.Some? {
        if slot.None? {                 // case errs <- err
          slot := err;
        }                               // default: the first error stays
        stop := true;
      } else {
        stop := false;
      }
    }
  }
}
