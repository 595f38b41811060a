/** What the process may or may not count on. The two constants are left open: whatever is proved
    holds for either value of each. */
module Environment {

  /** The allocator never refuses. When false, any request may be granted or refused. */
  const MEMORY_LASTS: bool

  /** `epoll_ctl` never fails. When false, any call may succeed or fail. */
  const EPOLL_WORKS: bool

  /** `malloc` may refuse. */
  method Malloc() returns (ok: bool)
    ensures MEMORY_LASTS ==> ok
  {
    ok := *;
    ok := ok || MEMORY_LASTS;
  }

  /** `epoll_ctl` may fail. */
  method EpollCtl() returns (ok: bool)
    ensures EPOLL_WORKS ==> ok
  {
    ok := *;
    ok := ok || EPOLL_WORKS;
  }
}
