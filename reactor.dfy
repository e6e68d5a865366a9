/** The descriptor registry (IOMap): a map from file descriptor to the
    handler a task installed for it, beside the interest masks held by the
    underlying poller. The poller is modelled by the masks it holds. */
module Reactor {

  /** Interest bits of poll(2), as the host platform defines them. */
  const POLLIN: bv16 := 1
  const POLLOUT: bv16 := 4

  /** Range of the C `int` the poller converts a descriptor to. */
  const INT_MIN: int := -0x8000_0000
  const INT_MAX: int := 0x7fff_ffff

  /** A callback a task installs for one of its descriptors. */
  type Handler

  /** How a registry call ends: normally, or with the Python exception it raises. */
  datatype Outcome = Ok | ValueError | KeyError | OverflowError

  /** How the poller's conversion of `fd` to a descriptor ends: OverflowError
      outside the C `int` range, ValueError for a negative one, else Ok. */
  function DescriptorCheck(fd: int): (r: Outcome)
    ensures r == Ok <==> 0 <= fd <= INT_MAX
    ensures r == OverflowError <==> fd < INT_MIN || INT_MAX < fd
    ensures r == ValueError <==> INT_MIN <= fd < 0
  {
    if fd < INT_MIN || INT_MAX < fd then OverflowError
    else if fd < 0 then ValueError
    else Ok
  }

  /** The interest mask `register` hands to the poller. */
  function EventMask(read: bool, write: bool): (m: bv16)
    ensures (m & POLLIN != 0) <==> read
    ensures (m & POLLOUT != 0) <==> write
    ensures m & !(POLLIN | POLLOUT) == 0
    ensures m == 0 <==> !read && !write
  {
    (if read then POLLIN else 0) | (if write then POLLOUT else 0)
  }

  class IOMap {
    /** `self.map`: descriptor to handler. */
    var handlers: map<int, Handler>
    /** The poller's registrations: descriptor to interest mask. */
    var poller: map<int, bv16>

    /** What every call keeps: the poller only watches descriptors that
        have a handler, and only ones it accepted. */
    ghost predicate Valid()
      reads this
    {
      poller.Keys <= handlers.Keys &&
      forall fd :: fd in poller ==> DescriptorCheck(fd) == Ok
    }

    /** The intended registry invariant: a descriptor has a handler exactly
        when the poller watches it. */
    ghost predicate Consistent()
      reads this
    {
      poller.Keys == handlers.Keys
    }

    constructor ()
      ensures handlers == map[] && poller == map[]
      ensures Valid() && Consistent()
    {
      handlers := map[];
      poller := map[];
    }

    /** Install `handler` for `fd` and watch it for reading and/or writing.
        The handler is installed before the arguments are checked, so a call
        that raises still leaves it installed, without a poller entry. */
    method Register(fd: int, handler: Handler, read: bool, write: bool) returns (r: Outcome)
      requires Valid()
      modifies this
      ensures Valid()
      ensures handlers == old(handlers)[fd := handler]
      ensures r == Ok <==> (read || write) && 0 <= fd <= INT_MAX
      ensures !read && !write ==> r == ValueError
      ensures read || write ==> r == DescriptorCheck(fd)
      ensures r != Ok ==> poller == old(poller)
      ensures r == Ok ==> poller == old(poller)[fd := EventMask(read, write)]
      ensures r == Ok && old(Consistent()) ==> Consistent()
      ensures r != Ok && old(Consistent()) && fd !in old(handlers) ==> !Consistent()
    {
      handlers := handlers[fd := handler];
      var mask := EventMask(read, write);
      if mask == 0 {
        return ValueError;
      }
      r := DescriptorCheck(fd);
      if r != Ok {
        return;
      }
      poller := poller[fd := mask];
    }

    /** Stop watching `fd` and drop its handler. Raises, changing nothing,
        when the poller does not watch `fd`. */
    method Unregister(fd: int) returns (r: Outcome)
      requires Valid()
      modifies this
      ensures Valid()
      ensures r == Ok <==> fd in old(poller)
      ensures r == Ok ==> poller == old(poller) - {fd} && handlers == old(handlers) - {fd}
      ensures r != Ok ==> r == (if DescriptorCheck(fd) != Ok then DescriptorCheck(fd) else KeyError)
      ensures r != Ok ==> poller == old(poller) && handlers == old(handlers)
      ensures old(Consistent()) ==> Consistent()
    {
      r := DescriptorCheck(fd);
      if r != Ok {
        return;
      }
      if fd !in poller {
        return KeyError;
      }
      poller := poller - {fd};
      // Valid() puts fd in handlers, so `del self.map[fd]` cannot raise here
      handlers := handlers - {fd};
    }
  }
}
