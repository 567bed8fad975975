/** The epoll event driver of the asynchronous messenger: how it turns the
    event center's readable/writable masks into epoll registrations, how it
    turns the kernel's fired events back into masks, and the counters that
    decide when adaptive polling stops sleeping between polls.

    The system calls are not executed: each epoll_ctl and epoll_wait call is
    recorded with its arguments, and what the kernel answers (result codes,
    errno, the ready events, the monotonic clock) comes in as parameters. */
module EpollDriverModel {
  import opened Wire

  // The event center's masks.
  const EVENT_NONE: bv32 := 0
  const EVENT_READABLE: bv32 := 1
  const EVENT_WRITABLE: bv32 := 2

  // Linux epoll event bits and control operations.
  const EPOLLIN: bv32 := 0x001
  const EPOLLOUT: bv32 := 0x004
  const EPOLLERR: bv32 := 0x008
  const EPOLLHUP: bv32 := 0x010
  const EPOLLET: bv32 := 0x8000_0000
  const EPOLL_CTL_ADD := 1
  const EPOLL_CTL_DEL := 2
  const EPOLL_CTL_MOD := 3

  const ENOMEM := 12

  /** A failing system call leaves a positive error number in errno. */
  type Errno = e: int | e > 0 witness 1

  // The adaptive polling window.
  const POLLING_TIMES_WINDOW := 100000
  const STOP_SLEEP_TRIGGER := 500
  const CONTINUE_SLEEP_TRIGGER := 1
  const SINGLE_POLLING_TIME_US := 180000000

  datatype CtlCall = CtlCall(op: int, fd: int, events: bv32)
  datatype WaitCall = WaitCall(maxEvents: int, timeoutMs: int32)
  /** One entry of the kernel's ready list. */
  datatype KernelEvent = KernelEvent(events: bv32, fd: int)
  datatype FiredFileEvent = FiredFileEvent(fd: int, mask: bv32)
  datatype TimeVal = TimeVal(sec: int, usec: int)

  /** The epoll bits registered for an event-center mask: EPOLLIN for
      readable and EPOLLOUT for writable. */
  function EpollBits(mask: bv32): (ev: bv32)
    ensures ev & EPOLLIN != 0 <==> mask & EVENT_READABLE != 0
    ensures ev & EPOLLOUT != 0 <==> mask & EVENT_WRITABLE != 0
    ensures ev & !(EPOLLIN | EPOLLOUT) == 0
  {
    (if mask & EVENT_READABLE != 0 then EPOLLIN else 0) |
    (if mask & EVENT_WRITABLE != 0 then EPOLLOUT else 0)
  }

  /** add_event: ADD for a descriptor watched for nothing yet, MOD for one
      already watched. */
  function AddOp(curMask: bv32): (op: int)
    ensures op == EPOLL_CTL_ADD <==> curMask == EVENT_NONE
    ensures op == EPOLL_CTL_MOD <==> curMask != EVENT_NONE
  {
    if curMask == EVENT_NONE then EPOLL_CTL_ADD else EPOLL_CTL_MOD
  }

  /** add_event: edge-triggered, for the old events merged with the new. */
  function AddEvents(curMask: bv32, addMask: bv32): (ev: bv32)
    ensures ev & EPOLLET != 0
    ensures ev & EPOLLIN != 0 <==> (curMask | addMask) & EVENT_READABLE != 0
    ensures ev & EPOLLOUT != 0 <==> (curMask | addMask) & EVENT_WRITABLE != 0
    ensures ev & !(EPOLLET | EPOLLIN | EPOLLOUT) == 0
  {
    EPOLLET | EpollBits(curMask | addMask)
  }

  /** del_event: the events left after taking delMask away. */
  function RemainingMask(curMask: bv32, delMask: bv32): (m: bv32)
    ensures m & delMask == 0
    ensures m & !curMask == 0
  {
    curMask & !delMask
  }

  /** del_event: MOD while something is left, DEL once nothing is. */
  function DelOp(curMask: bv32, delMask: bv32): (op: int)
    ensures op == EPOLL_CTL_DEL <==> RemainingMask(curMask, delMask) == EVENT_NONE
  {
    if RemainingMask(curMask, delMask) != EVENT_NONE then EPOLL_CTL_MOD else EPOLL_CTL_DEL
  }

  /** del_event registers the remaining events, and never edge-triggered. */
  lemma DelEventsNoEdge(curMask: bv32, delMask: bv32)
    ensures EpollBits(RemainingMask(curMask, delMask)) & EPOLLET == 0
  {
  }

  /** A fired event's mask: EPOLLIN makes it readable, EPOLLOUT writable,
      and an error or hang-up both. */
  function FiredMask(ev: bv32): (mask: bv32)
    ensures mask & EVENT_READABLE != 0 <==> ev & (EPOLLIN | EPOLLERR | EPOLLHUP) != 0
    ensures mask & EVENT_WRITABLE != 0 <==> ev & (EPOLLOUT | EPOLLERR | EPOLLHUP) != 0
    ensures mask & !(EVENT_READABLE | EVENT_WRITABLE) == 0
  {
    var m: bv32 := 0;
    var m := if ev & EPOLLIN != 0 then m | EVENT_READABLE else m;
    var m := if ev & EPOLLOUT != 0 then m | EVENT_WRITABLE else m;
    var m := if ev & EPOLLERR != 0 then m | EVENT_READABLE | EVENT_WRITABLE else m;
    if ev & EPOLLHUP != 0 then m | EVENT_READABLE | EVENT_WRITABLE else m
  }

  /** Registration and translation are inverse on the readable/writable
      bits: an event fired with exactly the registered bits (edge trigger
      or not) reports the mask that was registered. */
  lemma FiredMaskOfRegistered(mask: bv32)
    ensures FiredMask(EpollBits(mask)) == mask & (EVENT_READABLE | EVENT_WRITABLE)
    ensures FiredMask(EPOLLET | EpollBits(mask)) == mask & (EVENT_READABLE | EVENT_WRITABLE)
  {
  }

  /** C integer division, which truncates toward zero. */
  function CDiv(a: int, b: int): (q: int)
    requires b > 0
    ensures a >= 0 ==> q == a / b
    ensures a < 0 ==> q == -((-a) / b)
  {
    if a >= 0 then a / b else -((-a) / b)
  }

  /** A long converted to the C int parameter of epoll_wait, modulo 2^32. */
  function ToCInt(x: int): (r: int32)
    ensures -0x8000_0000 <= x < 0x8000_0000 ==> r == x
    ensures (r - x) % 0x1_0000_0000 == 0
  {
    var w := x % 0x1_0000_0000;
    if w >= 0x8000_0000 then w - 0x1_0000_0000 else w
  }

  /** The non-adaptive wait: the timeval in milliseconds (microseconds
      truncated toward zero), or -1, wait forever, without one. */
  function WaitTimeout(tvp: Option<TimeVal>): int32
  {
    match tvp
    case None => -1
    case Some(tv) => ToCInt(tv.sec * 1000 + CDiv(tv.usec, 1000))
  }

  lemma WaitTimeoutSpec(tvp: Option<TimeVal>)
    ensures tvp.None? ==> WaitTimeout(tvp) == -1
    ensures tvp.Some? && 0 <= tvp.value.sec < 2000000 && 0 <= tvp.value.usec < 1000000 ==>
            WaitTimeout(tvp) == tvp.value.sec * 1000 + tvp.value.usec / 1000
    ensures tvp.Some? && tvp.value.sec == 0 && -1000 < tvp.value.usec < 1000 ==> WaitTimeout(tvp) == 0
  {
  }

  /** A timeval of more than about 24.8 days does not fit the int timeout
      and turns negative, which epoll_wait takes as waiting forever. */
  lemma WaitTimeoutPastIntRange()
    ensures WaitTimeout(Some(TimeVal(2147484, 0))) < 0
  {
  }

  /** The adaptive-polling statics: how many polls of the current window
      there have been, how many of them found events, whether the driver
      sleeps between polls, and when the current working period began
      (unset until the first adaptive wait). */
  datatype Window = Window(epollNum: int, validNum: int, needSleep: bool, workingStart: Option<int>)

  const InitialWindow := Window(0, 0, true, None)

  /** One adaptive poll at time now (in microseconds): count it, and count
      it as valid when it found events; at the end of a window, stop
      sleeping when enough polls were valid, start sleeping again when a
      working period has run out with almost no valid polls, and start a
      new window. */
  function StepWindow(w: Window, found: bool, now: int): Window
  {
    var start := if w.workingStart.Some? then w.workingStart.value else now;
    var valid := if found then w.validNum + 1 else w.validNum;
    var polls := w.epollNum + 1;
    if polls < POLLING_TIMES_WINDOW then Window(polls, valid, w.needSleep, Some(start))
    else
      var stop := valid >= STOP_SLEEP_TRIGGER && w.needSleep;
      var start := if stop then now else start;
      var sleep := if stop then false else w.needSleep;
      if now - start >= SINGLE_POLLING_TIME_US then
        Window(0, 0, if valid <= CONTINUE_SLEEP_TRIGGER then true else sleep, Some(now))
      else
        Window(0, 0, sleep, Some(start))
  }

  /** The counters stay within one window: never more valid polls than
      polls, and fewer polls than the window holds. */
  ghost predicate WindowOk(w: Window)
  {
    0 <= w.validNum <= w.epollNum < POLLING_TIMES_WINDOW
  }

  lemma StepWindowOk(w: Window, found: bool, now: int)
    requires WindowOk(w)
    ensures WindowOk(StepWindow(w, found, now))
    ensures StepWindow(w, found, now).workingStart.Some?
  {
  }

  /** The window's end resets both counters; before it, a poll adds one to
      the polls and, when it found events, one to the valid polls, and the
      sleep decision is untouched. */
  lemma StepWindowCounts(w: Window, found: bool, now: int)
    ensures var w' := StepWindow(w, found, now);
            if w.epollNum + 1 >= POLLING_TIMES_WINDOW then w'.epollNum == 0 && w'.validNum == 0
            else w'.epollNum == w.epollNum + 1 &&
                 w'.validNum == w.validNum + (if found then 1 else 0) &&
                 w'.needSleep == w.needSleep
  {
  }

  /** A window that ends with at least STOP_SLEEP_TRIGGER valid polls while
      sleeping stops the sleeping and starts a working period now; sleeping
      starts again only when a working period of SINGLE_POLLING_TIME_US has
      run out with at most CONTINUE_SLEEP_TRIGGER valid polls. */
  lemma StepWindowSleep(w: Window, found: bool, now: int)
    ensures var w' := StepWindow(w, found, now);
            var valid := w.validNum + (if found then 1 else 0);
            && (w.epollNum + 1 >= POLLING_TIMES_WINDOW && valid >= STOP_SLEEP_TRIGGER && w.needSleep ==>
                  !w'.needSleep && w'.workingStart == Some(now))
            && (w'.needSleep && !w.needSleep ==>
                  w.epollNum + 1 >= POLLING_TIMES_WINDOW && valid <= CONTINUE_SLEEP_TRIGGER)
  {
  }

  /** vector::resize: cut to n, or grow to n with default entries. */
  function Resize(v: seq<FiredFileEvent>, n: nat): (r: seq<FiredFileEvent>)
    ensures |r| == n
    ensures forall j :: 0 <= j < n && j < |v| ==> r[j] == v[j]
  {
    if n <= |v| then v[..n] else v + seq(n - |v|, _ => FiredFileEvent(0, 0))
  }

  /** The fired events for the first n ready entries, each with its
      descriptor and translated mask. */
  method FillFired(fired: seq<FiredFileEvent>, ready: seq<KernelEvent>, n: nat)
    returns (out: seq<FiredFileEvent>)
    requires n <= |ready|
    ensures |out| == n
    ensures forall j :: 0 <= j < n ==> out[j] == FiredFileEvent(ready[j].fd, FiredMask(ready[j].events))
  {
    out := Resize(fired, n);
    var j := 0;
    while j < n
      invariant 0 <= j <= n && |out| == n
      invariant forall k :: 0 <= k < j ==> out[k] == FiredFileEvent(ready[k].fd, FiredMask(ready[k].events))
    {
      var mask: bv32 := 0;
      var e := ready[j];
      if e.events & EPOLLIN != 0 { mask := mask | EVENT_READABLE; }
      if e.events & EPOLLOUT != 0 { mask := mask | EVENT_WRITABLE; }
      if e.events & EPOLLERR != 0 { mask := mask | EVENT_READABLE | EVENT_WRITABLE; }
      if e.events & EPOLLHUP != 0 { mask := mask | EVENT_READABLE | EVENT_WRITABLE; }
      out := out[j := FiredFileEvent(e.fd, mask)];
      j := j + 1;
    }
  }

  /** How init ends: the event array cannot be allocated, epoll_create
      fails with the given errno, setting close-on-exec on the new
      descriptor fails with the given errno, or all goes well. */
  datatype InitOutcome =
    | NoMemory
    | CreateFails(errno: Errno)
    | CloexecFails(fd: int, errno: Errno)
    | Created(fd: int)

  class EpollDriver {
    var epfd: int
    var size: int
    var isPolling: bool
    var adaptivePolling: bool
    var ctlCalls: seq<CtlCall>
    var waitCalls: seq<WaitCall>
    var window: Window
    /** How many times the driver has slept for a microsecond. */
    var naps: nat

    constructor (isPolling: bool, adaptivePolling: bool)
      ensures epfd == -1 && size == 0
      ensures this.isPolling == isPolling && this.adaptivePolling == adaptivePolling
      ensures ctlCalls == [] && waitCalls == [] && window == InitialWindow && naps == 0
    {
      epfd, size := -1, 0;
      this.isPolling, this.adaptivePolling := isPolling, adaptivePolling;
      ctlCalls, waitCalls, window, naps := [], [], InitialWindow, 0;
    }

    /** init: 0 once the descriptor is set up and the size recorded, and
        minus the error code otherwise. */
    method Init(nevent: int, outcome: InitOutcome) returns (r: int)
      modifies this`epfd, this`size
      ensures r == match outcome
                   case NoMemory => -ENOMEM
                   case CreateFails(e) => -(e as int)
                   case CloexecFails(_, e) => -(e as int)
                   case Created(_) => 0
      ensures r == 0 <==> outcome.Created?
      ensures outcome.Created? ==> size == nevent && epfd == outcome.fd
      ensures outcome.CreateFails? ==> epfd == -1 && size == old(size)
      ensures outcome.CloexecFails? ==> epfd == outcome.fd && size == old(size)
      ensures outcome.NoMemory? ==> epfd == old(epfd) && size == old(size)
    {
      match outcome {
        case NoMemory =>
          return -ENOMEM;
        case CreateFails(e) =>
          epfd := -1;
          return -(e as int);
        case CloexecFails(fd, e) =>
          epfd := fd;
          return -(e as int);
        case Created(fd) =>
          epfd := fd;
          size := nevent;
          return 0;
      }
    }

    /** add_event: registers the merged mask; fails with minus errno when
        epoll_ctl returns -1. */
    method AddEvent(fd: int, curMask: bv32, addMask: bv32, ctlResult: int, errno: int)
      returns (r: int)
      modifies this`ctlCalls
      ensures ctlCalls == old(ctlCalls) + [CtlCall(AddOp(curMask), fd, AddEvents(curMask, addMask))]
      ensures r == if ctlResult == -1 then -errno else 0
    {
      var op := if curMask == EVENT_NONE then EPOLL_CTL_ADD else EPOLL_CTL_MOD;
      var events := EPOLLET;
      var add := addMask | curMask;
      if add & EVENT_READABLE != 0 { events := events | EPOLLIN; }
      if add & EVENT_WRITABLE != 0 { events := events | EPOLLOUT; }
      ctlCalls := ctlCalls + [CtlCall(op, fd, events)];
      if ctlResult == -1 {
        return -errno;
      }
      return 0;
    }

    /** del_event: keeps what is left of the mask registered, or removes
        the descriptor when nothing is; fails with minus errno when
        epoll_ctl returns a negative value. */
    method DelEvent(fd: int, curMask: bv32, delMask: bv32, ctlResult: int, errno: int)
      returns (r: int)
      modifies this`ctlCalls
      ensures ctlCalls == old(ctlCalls) +
                [CtlCall(DelOp(curMask, delMask), fd, EpollBits(RemainingMask(curMask, delMask)))]
      ensures r == if ctlResult < 0 then -errno else 0
    {
      var mask := curMask & !delMask;
      var events: bv32 := 0;
      if mask & EVENT_READABLE != 0 { events := events | EPOLLIN; }
      if mask & EVENT_WRITABLE != 0 { events := events | EPOLLOUT; }
      if mask != EVENT_NONE {
        ctlCalls := ctlCalls + [CtlCall(EPOLL_CTL_MOD, fd, events)];
      } else {
        ctlCalls := ctlCalls + [CtlCall(EPOLL_CTL_DEL, fd, events)];
      }
      if ctlResult < 0 {
        return -errno;
      }
      return 0;
    }

    /** resize_events: epoll needs no fixed-size table, so this always succeeds. */
    function ResizeEvents(newSize: int): int
    {
      0
    }

    /** event_wait: one epoll_wait, without blocking when adaptive polling
        is on and with the caller's timeout otherwise. When the kernel
        reports n > 0 ready entries, fired holds exactly the first n,
        translated; otherwise fired is left as it is and 0 is returned. An
        adaptive wait also steps the polling window and naps when the
        window says to sleep. */
    method EventWait(fired: seq<FiredFileEvent>, tvp: Option<TimeVal>,
                     retval: int, ready: seq<KernelEvent>, now: int)
      returns (n: int, fired': seq<FiredFileEvent>)
      requires retval <= |ready|
      modifies this`waitCalls, this`window, this`naps
      ensures n == if retval > 0 then retval else 0
      ensures retval <= 0 ==> fired' == fired
      ensures retval > 0 ==> |fired'| == retval
      ensures retval > 0 ==>
                forall j :: 0 <= j < retval ==> fired'[j] == FiredFileEvent(ready[j].fd, FiredMask(ready[j].events))
      ensures var adaptive := isPolling && adaptivePolling;
              && waitCalls == old(waitCalls) + [WaitCall(size, if adaptive then 0 else WaitTimeout(tvp))]
              && window == (if adaptive then StepWindow(old(window), retval > 0, now) else old(window))
              && naps == old(naps) + (if adaptive && window.needSleep then 1 else 0)
    {
      n := 0;
      fired' := fired;
      var adaptive := isPolling && adaptivePolling;
      if adaptive {
        var w := window;
        var start := if w.workingStart.Some? then w.workingStart.value else now;
        var needSleep, epollNum, validNum := w.needSleep, w.epollNum, w.validNum;
        waitCalls := waitCalls + [WaitCall(size, 0)];
        if retval > 0 {
          validNum := validNum + 1;
          n := retval;
          fired' := FillFired(fired, ready, retval);
        }
        epollNum := epollNum + 1;
        if epollNum >= POLLING_TIMES_WINDOW {
          if validNum >= STOP_SLEEP_TRIGGER && needSleep {
            start := now;
            needSleep := false;
          }
          if now - start >= SINGLE_POLLING_TIME_US {
            start := now;
            if validNum <= CONTINUE_SLEEP_TRIGGER {
              needSleep := true;
            }
          }
          epollNum := 0;
          validNum := 0;
        }
        window := Window(epollNum, validNum, needSleep, Some(start));
        if needSleep {
          naps := naps + 1;
        }
      } else {
        waitCalls := waitCalls + [WaitCall(size, WaitTimeout(tvp))];
        if retval > 0 {
          n := retval;
          fired' := FillFired(fired, ready, retval);
        }
      }
    }
  }
}
